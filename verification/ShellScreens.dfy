/** The shell hands the screens it draws to the registry; what that means for refreshing. */
module ShellScreens {
  import opened Options
  import Routes
  import Nav = NavigationModel
  import NavProofs = NavigationProofs
  import PaneLayouts
  import opened ActiveScreensModel
  import opened ActiveScreensProofs

  function ColumnOfSlot(slot: Routes.PaneSlot): LeaseColumn {
    match slot
    case Primary => Primary
    case Secondary => Secondary
    case Tertiary => Tertiary
  }

  function TabName(tab: Routes.RootTab): string {
    match tab
    case Feed => "Feed"
    case Search => "Search"
    case Shorts => "Shorts"
    case Chats => "Chats"
    case Vacancies => "Vacancies"
    case Music => "Music"
    case Profile => "Profile"
  }

  function ScreenId(route: Routes.RootRoute): string {
    match route
    case Onboarding => "Onboarding"
    case SignIn => "SignIn"
    case SignUp => "SignUp"
    case Tab(tab) => TabName(tab)
    case Chat(_) => "Chat"
    case ChatTopic(_, _) => "ChatTopics"
    case UserProfile(_) => "UserProfile"
    case Post(_) => "Post"
    case Settings => "Settings"
  }

  function ResourceKey(route: Routes.RootRoute): string {
    match route
    case Chat(chatId) => "Chat:" + chatId
    case ChatTopic(chatId, topicId) => "ChatTopics:" + chatId + ":" + topicId
    case UserProfile(userId) => "UserProfile:" + userId
    case Post(postId) => "Post:" + postId
    case _ => ScreenId(route)
  }

  function Identity(route: Routes.RootRoute): ScreenIdentity {
    ScreenIdentity(ScreenId(route), ResourceKey(route))
  }

  /** What a stack draws, as the registry sees it. */
  function Pane(nav: Nav.Navigation, slot: Routes.PaneSlot): (ScreenIdentity, LeaseColumn)
    requires nav.Current().Occupied(slot)
  {
    (Identity(nav.TopOf(slot).value), ColumnOfSlot(slot))
  }

  /** The drawn screens, leftmost first. */
  function Drawn(nav: Nav.Navigation): Visible
    requires NavProofs.Inv(nav)
  {
    NavProofs.ActiveSlots(nav, 0);
    var slots := nav.ActiveSlotsFrom(0);
    seq(|slots|, i requires 0 <= i < |slots| => Pane(nav, slots[i]))
  }

  const PALETTE: ScreenIdentity := ScreenIdentity("CommandPalette", "CommandPalette")

  /** All the shell hands to the registry: the command palette lies over the drawn screens. */
  function HandedOver(nav: Nav.Navigation, paletteOpen: bool): Visible
    requires NavProofs.Inv(nav)
  {
    Drawn(nav) + if paletteOpen then [(PALETTE, Overlay)] else []
  }

  // ------------------------------------------------------- names and keys

  /** The routes a resource key is shared with. */
  ghost predicate KeyIsItsOwn(route: Routes.RootRoute) {
    forall other :: ResourceKey(other) == ResourceKey(route) ==> other == route
  }

  function ColonAt(s: string): (at: nat)
    ensures at <= |s| && ':' !in s[..at] && (at < |s| ==> s[at] == ':')
  {
    if s == "" || s[0] == ':' then 0 else 1 + ColonAt(s[1..])
  }

  /** The first colon is where a text without one ends. */
  lemma {:induction false} ColonAfter(name: string, rest: string)
    requires ':' !in name
    ensures ColonAt(name + ":" + rest) == |name| && ColonAt(name) == |name|
  {
    if name != "" {
      assert (name + ":" + rest)[1..] == name[1..] + ":" + rest;
      ColonAfter(name[1..], rest);
    }
  }

  /** What a key says after its screen's name: `None` for a screen without parameters. */
  function Parameters(route: Routes.RootRoute): Option<string> {
    match route
    case Chat(chatId) => Some(chatId)
    case ChatTopic(chatId, topicId) => Some(chatId + ":" + topicId)
    case UserProfile(userId) => Some(userId)
    case Post(postId) => Some(postId)
    case _ => None
  }

  lemma NameHasNoColon(route: Routes.RootRoute)
    ensures ':' !in ScreenId(route)
  {
    if route.Tab? {
      hide ScreenId;
      TabNameHasNoColon(route.tab);
      assert ScreenId(route) == TabName(route.tab) by { TabScreen(route.tab); }
    }
  }

  lemma TabScreen(tab: Routes.RootTab)
    ensures ScreenId(Routes.Tab(tab)) == TabName(tab)
  {
    hide TabName;
  }

  lemma TabNameHasNoColon(tab: Routes.RootTab)
    ensures ':' !in TabName(tab)
  {
  }

  lemma KeyHasTwoParts(route: Routes.RootRoute)
    ensures ResourceKey(route) == ScreenId(route) + match Parameters(route)
                                                    case Some(text) => ":" + text
                                                    case None => ""
  {
    hide TabName;
    match route
    case ChatTopic(chatId, topicId) =>
      assert "ChatTopics:" + chatId + ":" + topicId == "ChatTopics" + (":" + (chatId + ":" + topicId));
    case _ =>
  }

  /** Where a key is to be cut, and what is found there. */
  lemma KeyIsCutAtColon(route: Routes.RootRoute)
    ensures var key := ResourceKey(route);
            && ScreenId(route) == key[..ColonAt(key)]
            && Parameters(route) == if ColonAt(key) < |key| then Some(key[ColonAt(key) + 1..]) else None
  {
    NameHasNoColon(route);
    KeyHasTwoParts(route);
    hide ScreenId, ResourceKey, Parameters, ColonAt;
    var key, name := ResourceKey(route), ScreenId(route);
    match Parameters(route)
    case Some(text) =>
      ColonAfter(name, text);
      assert key == name + ":" + text;
      assert key[..|name|] == name && key[|name| + 1..] == text;
    case None =>
      ColonAfter(name, "");
      assert key == name;
  }

  /** A key gives its screen's name and parameters back. */
  lemma KeyIsReadBack(a: Routes.RootRoute, b: Routes.RootRoute)
    requires ResourceKey(a) == ResourceKey(b)
    ensures ScreenId(a) == ScreenId(b) && Parameters(a) == Parameters(b)
  {
    hide *;
    KeyIsCutAtColon(a);
    KeyIsCutAtColon(b);
  }

  /** Every destination has a name of its own. */
  lemma NamesTellDestinations(a: Routes.RootRoute, b: Routes.RootRoute)
    ensures ScreenId(a) == ScreenId(b) <==>
              || (a.Chat? && b.Chat?) || (a.ChatTopic? && b.ChatTopic?)
              || (a.UserProfile? && b.UserProfile?) || (a.Post? && b.Post?)
              || a == b
  {
  }

  lemma SameNameAndParameters(a: Routes.RootRoute, b: Routes.RootRoute)
    requires ScreenId(a) == ScreenId(b) && Parameters(a) == Parameters(b)
    ensures a == b || (a.ChatTopic? && b.ChatTopic?)
  {
  }

  /** Two identifiers joined by a colon read back if there is no other. */
  lemma JoinedReadsBack(a: string, b: string, c: string, d: string)
    requires a + ":" + b == c + ":" + d && ':' !in a && ':' !in b
    ensures a == c && b == d
  {
    var joined := a + ":" + b;
    forall i | 0 <= i < |joined| && i != |a| ensures joined[i] != ':' {
      if i < |a| {
        assert joined[i] == a[i] && a[i] in a;
      } else {
        assert joined[i] == b[i - |a| - 1] && b[i - |a| - 1] in b;
      }
    }
    assert (c + ":" + d)[|c|] == ':';
    assert joined[..|a|] == a && joined[..|c|] == c && joined[|a| + 1..] == b && joined[|c| + 1..] == d;
  }

  /** A topic with a colon in an identifier has a second way to be cut in two. */
  lemma ColonGivesSecondTopic(chat: string, topic: string) returns (other: Routes.RootRoute)
    requires ':' in chat || ':' in topic
    ensures other != Routes.ChatTopic(chat, topic) && ResourceKey(other) == ResourceKey(Routes.ChatTopic(chat, topic))
  {
    var cut := if ':' in chat then chat else topic;
    var i :| 0 <= i < |cut| && cut[i] == ':';
    var before, after := cut[..i], cut[i + 1..];
    assert cut == before + ":" + after;
    if ':' in chat {
      other := Routes.ChatTopic(before, after + ":" + topic);
      assert chat + ":" + topic == before + ":" + (after + ":" + topic);
    } else {
      other := Routes.ChatTopic(chat + ":" + before, after);
      assert chat + ":" + topic == chat + ":" + before + ":" + after;
      assert |other.topicChatId| > |chat|;
    }
    KeyHasTwoParts(Routes.ChatTopic(chat, topic));
    KeyHasTwoParts(other);
    hide ResourceKey;
    assert Parameters(Routes.ChatTopic(chat, topic)) == Parameters(other);
  }

  /** A screen shares its data with no other screen exactly when its identifiers cannot be cut in
      a second way: a topic's must be free of colons, anything goes for the rest. */
  lemma KeyIsItsOwnIff(route: Routes.RootRoute)
    ensures KeyIsItsOwn(route) <==> (route.ChatTopic? ==> ':' !in route.topicChatId && ':' !in route.topicId)
  {
    hide ScreenId, ResourceKey;
    if route.ChatTopic? ==> ':' !in route.topicChatId && ':' !in route.topicId {
      forall other | ResourceKey(other) == ResourceKey(route) ensures other == route {
        KeyIsReadBack(other, route);
        SameNameAndParameters(other, route);
        if route.ChatTopic? && other.ChatTopic? {
          JoinedReadsBack(route.topicChatId, route.topicId, other.topicChatId, other.topicId);
        }
      }
    } else {
      var other := ColonGivesSecondTopic(route.topicChatId, route.topicId);
    }
  }

  /** A screen's name tells which stack it lives in. */
  lemma NamesTellSlots(a: Routes.RootRoute, b: Routes.RootRoute)
    requires a.Slot() != b.Slot()
    ensures ScreenId(a) != ScreenId(b)
  {
    NameInitials(a);
    NameInitials(b);
  }

  /** The first and the third letter are enough to tell the slots apart. */
  lemma NameInitials(route: Routes.RootRoute)
    ensures |ScreenId(route)| >= 3
    ensures var name := ScreenId(route);
            match route.Slot()
            case Secondary => name == "Chat" || name == "ChatTopics" || name == "Post"
            case Tertiary => name == "UserProfile" || name == "Settings"
            case Primary => name !in {"Chat", "ChatTopics", "Post", "UserProfile", "Settings"}
  {
  }

  lemma {:induction false} DrawnSlotsDiffer(nav: Nav.Navigation, from: nat)
    requires from <= nav.layout.ColumnCount()
    ensures var slots := nav.ActiveSlotsFrom(from);
            && |slots| <= nav.layout.ColumnCount() - from
            && (forall s :: s in slots ==> nav.layout.ColumnOf(s) >= from)
            && forall i, j :: 0 <= i < j < |slots| ==> nav.layout.ColumnOf(slots[i]) < nav.layout.ColumnOf(slots[j])
    decreases nav.layout.ColumnCount() - from
  {
    if from < nav.layout.ColumnCount() {
      DrawnSlotsDiffer(nav, from + 1);
      if nav.ColumnSlot(from).Some? {
        PaneLayouts.ColumnsPartitionSlots(nav.layout, nav.ColumnSlot(from).value, from);
      }
    }
  }

  lemma {:induction false} NoMoreOwnersThanEntries(visible: Visible)
    ensures |VisibleOwners(visible)| <= |visible|
  {
    if visible != [] {
      VisibleOwnersOfLonger(visible);
      NoMoreOwnersThanEntries(visible[..|visible| - 1]);
    }
  }

  /** Panes of different stacks are different screens in different columns. */
  lemma PanesDiffer(nav: Nav.Navigation, s: Routes.PaneSlot, t: Routes.PaneSlot)
    requires NavProofs.Inv(nav) && nav.Current().Occupied(s) && nav.Current().Occupied(t) && s != t
    ensures Pane(nav, s).0 != Pane(nav, t).0 && Pane(nav, s).1 != Pane(nav, t).1
  {
    TopDeclaresItsSlot(nav, s);
    TopDeclaresItsSlot(nav, t);
    NamesTellSlots(nav.TopOf(s).value, nav.TopOf(t).value);
  }

  lemma ColumnsFollowSlots(layout: PaneLayouts.PaneLayout, s: Routes.PaneSlot, t: Routes.PaneSlot)
    requires layout.ColumnOf(s) < layout.ColumnOf(t)
    ensures Rank(ColumnOfSlot(s)) < Rank(ColumnOfSlot(t))
  {
  }

  /** The drawn screens are all different, from left to right, and none lies over the others. */
  lemma DrawnScreensDiffer(nav: Nav.Navigation)
    requires NavProofs.Inv(nav)
    ensures var drawn := Drawn(nav);
            && |drawn| <= 3
            && (forall i, j :: 0 <= i < j < |drawn| ==> drawn[i].0 != drawn[j].0 && Rank(drawn[i].1) < Rank(drawn[j].1))
            && (forall i :: 0 <= i < |drawn| ==> drawn[i].0 != PALETTE && drawn[i].1 != Overlay)
  {
    hide NavProofs.Inv;
    var slots := nav.ActiveSlotsFrom(0);
    var drawn := Drawn(nav);
    DrawnSlotsDiffer(nav, 0);
    NavProofs.ActiveSlots(nav, 0);
    forall i, j | 0 <= i < j < |drawn| ensures drawn[i].0 != drawn[j].0 && Rank(drawn[i].1) < Rank(drawn[j].1) {
      PanesDiffer(nav, slots[i], slots[j]);
      ColumnsFollowSlots(nav.layout, slots[i], slots[j]);
    }
    forall i | 0 <= i < |drawn| ensures drawn[i].0 != PALETTE {
      PaneIsNotThePalette(nav, slots[i]);
    }
  }

  lemma PaneIsNotThePalette(nav: Nav.Navigation, slot: Routes.PaneSlot)
    requires nav.Current().Occupied(slot)
    ensures Pane(nav, slot).0 != PALETTE
  {
    NameInitials(nav.TopOf(slot).value);
  }

  /** Every column that draws anything hands over what it draws. */
  lemma EveryColumnIsHandedOver(nav: Nav.Navigation, paletteOpen: bool, column: nat)
    requires NavProofs.Inv(nav) && column < nav.layout.ColumnCount() && nav.ColumnSlot(column).Some?
    ensures var route := nav.TopOf(nav.ColumnSlot(column).value).value;
            exists i :: 0 <= i < |HandedOver(nav, paletteOpen)|
                        && HandedOver(nav, paletteOpen)[i].0 == ScreenIdentity(ScreenId(route), ResourceKey(route))
  {
    NavProofs.ActiveSlots(nav, 0);
    var slots := nav.ActiveSlotsFrom(0);
    var i :| 0 <= i < |slots| && slots[i] == nav.ColumnSlot(column).value;
    assert HandedOver(nav, paletteOpen)[i] == Drawn(nav)[i];
  }

  /** What is handed over fits the registry: different screens, one for a column, the palette the
      only one in the column that lies over the others. */
  lemma HandedOverIsProper(nav: Nav.Navigation, paletteOpen: bool)
    requires NavProofs.Inv(nav)
    ensures var visible := HandedOver(nav, paletteOpen);
            && EachOwnerOnce(visible) && |VisibleOwners(visible)| <= MAX_LEASES
            && (forall i, j :: 0 <= i < j < |visible| ==> Rank(visible[i].1) < Rank(visible[j].1))
            && (forall i :: 0 <= i < |visible| ==> (visible[i].1 == Overlay <==> visible[i].0 == PALETTE))
            && (paletteOpen <==> exists i :: 0 <= i < |visible| && visible[i].0 == PALETTE)
  {
    hide Drawn;
    DrawnScreensDiffer(nav);
    var visible := HandedOver(nav, paletteOpen);
    NoMoreOwnersThanEntries(visible);
    if paletteOpen {
      assert visible[|visible| - 1].0 == PALETTE;
    }
  }

  lemma TopDeclaresItsSlot(nav: Nav.Navigation, slot: Routes.PaneSlot)
    requires NavProofs.Inv(nav) && nav.Current().Occupied(slot)
    ensures nav.TopOf(slot).value.Slot() == slot
  {
    assert NavProofs.SectionInv(nav.Current(), nav.tab, nav.clock);
    assert NavProofs.StackInv(nav.Current(), slot, nav.tab);
  }

  /** Exactly what is handed over is leased. With the palette closed every screen on show may
      refresh, with the palette open only the palette. */
  lemma WhoMayRefresh(nav: Nav.Navigation, paletteOpen: bool, screens: Screens)
    requires NavProofs.Inv(nav) && Inv(screens)
    ensures var visible := HandedOver(nav, paletteOpen);
            var after := screens.SyncVisible(visible);
            && Owners(after.leases) == VisibleOwners(visible)
            && forall owner :: after.IsEligible(owner)
                               <==> owner in VisibleOwners(visible) && (paletteOpen ==> owner == PALETTE)
  {
    hide HandedOver, NavProofs.Inv, Screens.IsEligible;
    var visible := HandedOver(nav, paletteOpen);
    var after := screens.SyncVisible(visible);
    HandedOverIsProper(nav, paletteOpen);
    SyncShowsExactlyVisibleIff(screens, visible);
    SyncVisibleInv(screens, visible);
    forall owner
      ensures after.IsEligible(owner) <==> owner in VisibleOwners(visible) && (paletteOpen ==> owner == PALETTE)
    {
      if owner in VisibleOwners(visible) {
        var i :| 0 <= i < |visible| && visible[i].0 == owner;
        if paletteOpen {
          var p :| 0 <= p < |visible| && visible[p].0 == PALETTE;
          OnlyOverlayMayRefresh(screens, visible, p, i);
        } else {
          LastListedIsTopmost(screens, visible, i);
          NoOverlayLeased(screens, visible);
          TopmostMayRefresh(after, visible[i].1);
        }
      } else {
        OnlyLeasedMayRefresh(after, owner);
      }
    }
  }

  /** The focused screen of the registry is the last one handed over: the palette, or the rightmost
      column's. */
  lemma LastHandedOverIsFocused(nav: Nav.Navigation, paletteOpen: bool, screens: Screens)
    requires NavProofs.Inv(nav) && Inv(screens) && HandedOver(nav, paletteOpen) != []
    ensures var visible := HandedOver(nav, paletteOpen);
            screens.SyncVisible(visible).Focused() == Some(visible[|visible| - 1].0)
  {
    hide HandedOver, NavProofs.Inv, Screens.Focused, TopmostIn, Retain;
    var visible := HandedOver(nav, paletteOpen);
    var last := |visible| - 1;
    var after := screens.SyncVisible(visible);
    HandedOverIsProper(nav, paletteOpen);
    SyncShowsExactlyVisibleIff(screens, visible);
    assert visible[last].0 in VisibleOwners(visible);
    var k :| 0 <= k < |after.leases| && after.leases[k].owner == visible[last].0;
    SyncedPlace(screens, visible, k, last);
    LastListedIsTopmost(screens, visible, last);
    FocusedIfAny(after);
    FocusIsRightmost(after, k);
    var focused := after.leases[after.FocusedIndex().value];
    assert focused.owner in Owners(after.leases);
    var i :| 0 <= i < |visible| && visible[i].0 == focused.owner;
    SyncedPlace(screens, visible, after.FocusedIndex().value, i);
  }

  lemma FocusedIfAny(screens: Screens)
    requires screens.leases != []
    ensures screens.FocusedIndex().Some?
  {
    hide TopmostIn;
    match screens.leases[0].column { case Primary => case Secondary => case Tertiary => case Overlay => }
  }

  /** A screen that comes into view is leased under its route's resource key. */
  lemma DrawnIsLeasedUnderItsRoute(nav: Nav.Navigation, paletteOpen: bool, screens: Screens, slot: Routes.PaneSlot,
                                   k: nat)
    requires NavProofs.Inv(nav) && Inv(screens) && nav.Current().Occupied(slot)
    requires var leases := screens.SyncVisible(HandedOver(nav, paletteOpen)).leases;
             && k < |leases| && leases[k].owner == Pane(nav, slot).0 && leases[k].owner !in Owners(screens.leases)
    ensures var lease := screens.SyncVisible(HandedOver(nav, paletteOpen)).leases[k];
            lease.key == ResourceKey(nav.TopOf(slot).value) && lease.seenRevision.None?
  {
    hide HandedOver, NavProofs.Inv, ResourceKey;
    HandedOverIsProper(nav, paletteOpen);
    NewcomersKeepTheirOwnKey(screens, HandedOver(nav, paletteOpen), k);
  }

  lemma OnlyLeasedMayRefresh(screens: Screens, owner: ScreenIdentity)
    requires owner !in Owners(screens.leases)
    ensures !screens.IsEligible(owner)
  {
    InOwnersIff(screens.leases, owner);
  }

  /** With one overlay listed, at `p`, it alone may refresh. */
  lemma OnlyOverlayMayRefresh(screens: Screens, visible: Visible, p: nat, i: nat)
    requires Inv(screens) && EachOwnerOnce(visible) && |VisibleOwners(visible)| <= MAX_LEASES
    requires p < |visible| && i < |visible| && visible[p].1 == Overlay
    requires forall j :: 0 <= j < |visible| && visible[j].1 == Overlay ==> j == p
    ensures screens.SyncVisible(visible).IsEligible(visible[i].0) <==> i == p
  {
    hide TopmostIn, IndexOf, Retain;
    var after := screens.SyncVisible(visible);
    SyncVisibleInv(screens, visible);
    LastListedIsTopmost(screens, visible, p);
    SyncShowsExactlyVisibleIff(screens, visible);
    assert visible[i].0 in VisibleOwners(visible);
    var k :| 0 <= k < |after.leases| && after.leases[k].owner == visible[i].0;
    EligibleIff(after, k);
    assert k == TopmostIn(after.leases, Overlay).value <==> visible[i].0 == visible[p].0;
  }

  lemma TopmostMayRefresh(screens: Screens, column: LeaseColumn)
    requires Inv(screens) && TopmostIn(screens.leases, Overlay).None? && TopmostIn(screens.leases, column).Some?
    ensures screens.IsEligible(screens.leases[TopmostIn(screens.leases, column).value].owner)
  {
    hide TopmostIn;
    EligibleIff(screens, TopmostIn(screens.leases, column).value);
  }

  lemma NoOverlayLeased(screens: Screens, visible: Visible)
    requires Inv(screens) && EachOwnerOnce(visible) && |VisibleOwners(visible)| <= MAX_LEASES
    requires forall i :: 0 <= i < |visible| ==> visible[i].1 != Overlay
    ensures TopmostIn(screens.SyncVisible(visible).leases, Overlay).None?
  {
    hide TopmostIn;
    var leases := screens.SyncVisible(visible).leases;
    SyncShowsExactlyVisibleIff(screens, visible);
    var top := TopmostIn(leases, Overlay);
    if top.Some? {
      assert leases[top.value].owner in Owners(leases);
      var i :| 0 <= i < |visible| && visible[i].0 == leases[top.value].owner;
      SyncedPlace(screens, visible, top.value, i);
    }
  }
}
