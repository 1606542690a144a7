/** The promises of the navigation store, over every sequence of operations. */
module NavigationProofs {
  import opened Options
  import opened Basics
  import opened Routes
  import opened PaneLayouts
  import opened NavigationModel

  // ---------------------------------------------------------------- invariant

  /** What `back` closed in one stack, in the order `forward` brings it back. */
  function Future(forward: Forward, slot: PaneSlot): Stack {
    if forward == [] then []
    else
      var (s, route) := forward[|forward| - 1];
      (if s == slot then [route] else []) + Future(forward[..|forward| - 1], slot)
  }

  /** A stack followed by everything `forward` would still put on it. */
  function Timeline(section: Section, slot: PaneSlot): Stack {
    section.stacks.At(slot) + Future(section.forward, slot)
  }

  predicate NoStutter(stack: Stack) {
    forall i :: 0 < i < |stack| ==> stack[i - 1] != stack[i]
  }

  /** The routes that may lie in a section's `slot`: its root at the bottom of the primary
      stack, and everywhere else only screens that declare that slot. */
  ghost predicate RightfulStack(stack: Stack, slot: PaneSlot, tab: RootTab) {
    forall i :: 0 <= i < |stack| ==>
      if slot.Primary? && i == 0 then stack[i] == Tab(tab) else stack[i].Slot() == slot && !stack[i].Tab?
  }

  /** Slot by slot: the right screens, and no screen twice in a row, now or after any `forward`. */
  ghost predicate StackInv(section: Section, slot: PaneSlot, tab: RootTab) {
    && RightfulStack(section.stacks.At(slot), slot, tab)
    && NoStutter(Timeline(section, slot))
  }

  ghost predicate HistoryInv(forward: Forward) {
    && |forward| <= FORWARD_LIMIT
    && (forall i :: 0 <= i < |forward| ==> forward[i].1.Slot() == forward[i].0 && !forward[i].1.Tab?)
  }

  /** No two stacks were reached for at the same time, unless they never were. */
  ghost predicate RecencyInv(touched: PerSlot<nat>, clock: nat) {
    && (forall s: PaneSlot :: touched.At(s) <= clock)
    && (forall s: PaneSlot, t: PaneSlot :: s != t && touched.At(s) == touched.At(t) ==> touched.At(s) == 0)
  }

  ghost predicate SectionInv(section: Section, tab: RootTab, clock: nat) {
    && (forall s: PaneSlot :: StackInv(section, s, tab))
    && HistoryInv(section.forward)
    && RecencyInv(section.touched, clock)
    && (forall s: PaneSlot :: !s.Primary? && section.Occupied(s) ==> section.touched.At(s) > 0)
    && (section.stacks.primary == [] ==> section == EMPTY_SECTION)
  }

  ghost predicate Inv(nav: Navigation) {
    && (forall tab: RootTab :: SectionInv(nav.sections[tab.Index()], tab, nav.clock))
    && nav.Current().stacks.primary != []
  }

  // ------------------------------------------------------ conservation of history

  lemma FutureAfterPush(forward: Forward, slot: PaneSlot, route: RootRoute, s: PaneSlot)
    ensures Future(forward + [(slot, route)], s) == (if s == slot then [route] else []) + Future(forward, s)
  {
    assert (forward + [(slot, route)])[..|forward|] == forward;
  }

  lemma {:induction false} FutureWithoutOldest(forward: Forward, s: PaneSlot)
    requires forward != []
    ensures Future(forward, s) == Future(forward[1..], s) + (if forward[0].0 == s then [forward[0].1] else [])
  {
    if |forward| > 1 {
      var shorter := forward[..|forward| - 1];
      FutureWithoutOldest(shorter, s);
      assert shorter[1..] == forward[1..][..|forward[1..]| - 1];
    }
  }

  /** What a full history loses from `s` when `back` adds one more entry. */
  function Dropped(forward: Forward, s: PaneSlot): Stack {
    if |forward| == FORWARD_LIMIT && forward[0].0 == s then [forward[0].1] else []
  }

  /** Closing a screen moves the end of its stack to the head of its future: every timeline
      is unchanged, except that a full history loses its outermost entry. */
  lemma CloseConserves(section: Section, slot: PaneSlot, s: PaneSlot)
    requires section.Closable(slot)
    ensures Timeline(section, s) == Timeline(section.Closed(slot).0, s) + Dropped(section.forward, s)
  {
    var (after, route) := section.Closed(slot);
    var kept := if |section.forward| == FORWARD_LIMIT then section.forward[1..] else section.forward;
    var dropped := Dropped(section.forward, s);
    assert Future(section.forward, s) == Future(kept, s) + dropped by {
      if |section.forward| == FORWARD_LIMIT {
        FutureWithoutOldest(section.forward, s);
      }
    }
    FutureAfterPush(kept, slot, route, s);
    var below := after.stacks.At(s);
    if s == slot {
      assert section.stacks.At(s) == below + [route];
      RegroupFour(below, [route], Future(kept, s), dropped);
    } else {
      RegroupFour(below, [], Future(kept, s), dropped);
      assert below + [] == below;
    }
  }

  lemma RegroupFour(a: Stack, b: Stack, c: Stack, d: Stack)
    ensures (a + b) + (c + d) == (a + (b + c)) + d
  {
  }

  /** Reopening it changes no timeline. */
  lemma ReopenConserves(section: Section, s: PaneSlot)
    requires section.forward != []
    ensures Timeline(section.Reopened(), s) == Timeline(section, s)
  {
    var rest := section.forward[..|section.forward| - 1];
    var (slot, route) := section.forward[|section.forward| - 1];
    assert section.forward == rest + [(slot, route)];
    FutureAfterPush(rest, slot, route, s);
    if s == slot {
      assert section.stacks.At(s) + ([route] + Future(rest, s)) == section.stacks.At(s) + [route] + Future(rest, s);
    }
  }

  lemma BackConserves(nav: Navigation, s: PaneSlot)
    ensures nav.Back().1.None? ==> nav.Back().0 == nav
    ensures nav.Back().1.Some? ==>
              Timeline(nav.Current(), s) == Timeline(nav.Back().0.Current(), s) + Dropped(nav.Current().forward, s)
  {
    if nav.Back().1.Some? {
      CloseConserves(nav.Current(), nav.Current().MostRecentClosable().value, s);
    }
  }

  lemma ForwardConserves(nav: Navigation, s: PaneSlot)
    ensures Timeline(nav.GoForward().0.Current(), s) == Timeline(nav.Current(), s)
  {
    if nav.CanGoForward() {
      ReopenConserves(nav.Current(), s);
    }
  }

  /** `n` calls to `back`, if all of them close something. */
  function BackTimes(nav: Navigation, n: nat): Option<Navigation>
    decreases n
  {
    if n == 0 then Some(nav)
    else
      var (after, closed) := nav.Back();
      if closed.None? then None else BackTimes(after, n - 1)
  }

  /** `n` calls to `forward`, whether or not there is anything left to restore. */
  function ForwardTimes(nav: Navigation, n: nat): Navigation {
    if n == 0 then nav else ForwardTimes(nav, n - 1).GoForward().0
  }

  /** The innermost entries a history keeps after `n` more have been added. */
  function Innermost(forward: Forward, n: nat): Forward
    requires n <= FORWARD_LIMIT
  {
    forward[|forward| - Min(|forward|, FORWARD_LIMIT - n)..]
  }

  lemma InnermostAfterClose(section: Section, slot: PaneSlot, n: nat)
    requires 0 < n <= FORWARD_LIMIT && |section.forward| <= FORWARD_LIMIT
    requires section.Closable(slot)
    ensures var (after, route) := section.Closed(slot);
            Innermost(after.forward, n - 1) == Innermost(section.forward, n) + [(slot, route)]
  {
  }

  lemma ReopenUndoesClose(section: Section, slot: PaneSlot, again: Section, rest: Forward)
    requires section.Closable(slot)
    requires again.stacks == section.Closed(slot).0.stacks
    requires again.forward == rest + [(slot, section.Closed(slot).1)]
    ensures again.Reopened().stacks == section.stacks
    ensures again.Reopened().forward == rest
  {
    var stack := section.stacks.At(slot);
    assert stack[..|stack| - 1] + [stack[|stack| - 1]] == stack;
  }

  /** Up to sixteen backs are undone exactly: the stacks are as they were, and what is left of
      the earlier history is its innermost part. */
  lemma {:induction false} ForwardUndoesBack(nav: Navigation, n: nat)
    requires n <= FORWARD_LIMIT
    requires |nav.Current().forward| <= FORWARD_LIMIT
    requires BackTimes(nav, n).Some?
    ensures var again := ForwardTimes(BackTimes(nav, n).value, n);
            && again.tab == nav.tab
            && again.Current().stacks == nav.Current().stacks
            && again.Current().forward == Innermost(nav.Current().forward, n)
    decreases n
  {
    if n > 0 {
      var (after, closed) := nav.Back();
      var slot := nav.Current().MostRecentClosable().value;
      ForwardUndoesBack(after, n - 1);
      InnermostAfterClose(nav.Current(), slot, n);
      var almost := ForwardTimes(BackTimes(after, n - 1).value, n - 1);
      ReopenUndoesClose(nav.Current(), slot, almost.Current(), Innermost(nav.Current().forward, n));
    }
  }

  function Open(section: Section): nat {
    |section.stacks.primary| + |section.stacks.secondary| + |section.stacks.tertiary|
  }

  lemma {:induction false} BackTimesCount(nav: Navigation, n: nat)
    requires |nav.Current().forward| <= FORWARD_LIMIT
    requires BackTimes(nav, n).Some?
    ensures var after := BackTimes(nav, n).value;
            && after.tab == nav.tab
            && Open(after.Current()) == Open(nav.Current()) - n
            && |after.Current().forward| <= FORWARD_LIMIT
    decreases n
  {
    if n > 0 {
      BackTimesCount(nav.Back().0, n - 1);
    }
  }

  lemma {:induction false} ForwardTimesCount(nav: Navigation, n: nat)
    ensures var after := ForwardTimes(nav, n);
            && after.tab == nav.tab
            && Open(after.Current()) + |after.Current().forward| == Open(nav.Current()) + |nav.Current().forward|
  {
    hide Open;
    if n > 0 {
      ForwardTimesCount(nav, n - 1);
      ForwardCount(ForwardTimes(nav, n - 1));
    }
  }

  lemma ForwardCount(nav: Navigation)
    ensures var after := nav.GoForward().0;
            && after.tab == nav.tab
            && Open(after.Current()) + |after.Current().forward| == Open(nav.Current()) + |nav.Current().forward|
  {
    if nav.CanGoForward() {
      ReopenCount(nav.Current());
    }
  }

  lemma ReopenCount(section: Section)
    requires section.forward != []
    ensures Open(section.Reopened()) == Open(section) + 1 && |section.Reopened().forward| == |section.forward| - 1
  {
  }

  /** `n` backs are undone by `n` forwards exactly when the bounded history could hold them all. */
  lemma BackThenForwardRestoresIff(nav: Navigation, n: nat)
    requires Inv(nav)
    requires BackTimes(nav, n).Some?
    ensures ForwardTimes(BackTimes(nav, n).value, n).Current().stacks == nav.Current().stacks
            <==> n <= 16
  {
    assert SectionInv(nav.Current(), nav.tab, nav.clock);
    if n <= FORWARD_LIMIT {
      ForwardUndoesBack(nav, n);
    } else {
      BackTimesCount(nav, n);
      ForwardTimesCount(BackTimes(nav, n).value, n);
    }
  }

  // ------------------------------------------------------- every operation keeps the invariant

  lemma ClockMayAdvance(section: Section, tab: RootTab, clock: nat, later: nat)
    requires SectionInv(section, tab, clock) && clock <= later
    ensures SectionInv(section, tab, later)
  {
  }

  /** Replacing the current section (and letting the clock advance) touches no other section. */
  lemma ReplaceCurrent(nav: Navigation, after: Navigation, section: Section)
    requires Inv(nav)
    requires nav.clock <= after.clock
    requires after.tab == nav.tab && after.sections == nav.WithCurrent(section).sections
    requires SectionInv(section, nav.tab, after.clock) && section.stacks.primary != []
    ensures Inv(after)
  {
    forall tab: RootTab ensures SectionInv(after.sections[tab.Index()], tab, after.clock) {
      if tab.Index() == nav.tab.Index() {
        assert TabAt(tab.Index()) == tab == nav.tab;
      } else {
        ClockMayAdvance(nav.sections[tab.Index()], tab, nav.clock, after.clock);
      }
    }
  }

  lemma OpenedInv(layout: PaneLayout)
    ensures Inv(Opened(layout))
  {
    var nav := Opened(layout);
    forall tab: RootTab ensures SectionInv(nav.sections[tab.Index()], tab, nav.clock) {
      SeededInv(tab, 0);
      assert nav.sections[tab.Index()] == EMPTY_SECTION || tab == Feed;
    }
  }

  lemma SeededInv(tab: RootTab, clock: nat)
    ensures SectionInv(EMPTY_SECTION, tab, clock)
    ensures SectionInv(EMPTY_SECTION.(stacks := PerSlot([Tab(tab)], [], [])), tab, clock)
  {
  }

  lemma StutterFreePrefix(stack: Stack, longer: Stack)
    requires NoStutter(longer) && stack <= longer
    ensures NoStutter(stack)
  {
  }

  lemma PrimaryTruncatedInv(section: Section, tab: RootTab, clock: nat)
    requires SectionInv(section, tab, clock) && section.stacks.primary != []
    ensures SectionInv(section.PrimaryTruncated(), tab, clock)
  {
    var after := section.PrimaryTruncated();
    forall s: PaneSlot
      ensures StackInv(after, s, tab)
    {
      assert StackInv(section, s, tab);
      assert Timeline(after, s) == after.stacks.At(s);
      StutterFreePrefix(after.stacks.At(s), Timeline(section, s));
    }
    assert after.stacks.At(Secondary) == section.stacks.At(Secondary);
    assert after.stacks.At(Tertiary) == section.stacks.At(Tertiary);
  }

  lemma TruncatedToRootInv(section: Section, tab: RootTab, clock: nat)
    requires SectionInv(section, tab, clock)
    ensures SectionInv(section.TruncatedToRoot(), tab, clock)
  {
    var after := section.TruncatedToRoot();
    forall s: PaneSlot
      ensures StackInv(after, s, tab)
    {
      assert StackInv(section, s, tab);
      assert Timeline(after, s) == after.stacks.At(s);
    }
  }

  lemma TouchedInv(section: Section, tab: RootTab, clock: nat, slot: PaneSlot)
    requires SectionInv(section, tab, clock) && section.stacks.primary != []
    ensures SectionInv(section.Touched(slot, clock + 1), tab, clock + 1)
  {
    var after := section.Touched(slot, clock + 1);
    forall s: PaneSlot ensures StackInv(after, s, tab) {
      assert StackInv(section, s, tab);
      assert Timeline(after, s) == Timeline(section, s);
    }
  }

  /** A new screen abandons the history, so only the old top matters for stuttering. */
  lemma PushedInv(section: Section, tab: RootTab, clock: nat, route: RootRoute)
    requires SectionInv(section, tab, clock) && section.stacks.primary != []
    requires !route.Tab?
    requires section.Occupied(route.Slot()) ==>
               section.stacks.At(route.Slot())[|section.stacks.At(route.Slot())| - 1] != route
    ensures SectionInv(section.(forward := []).Stacked(route.Slot(), route).Touched(route.Slot(), clock + 1),
                       tab, clock + 1)
  {
    var slot := route.Slot();
    var after := section.(forward := []).Stacked(slot, route).Touched(slot, clock + 1);
    forall s: PaneSlot
      ensures StackInv(after, s, tab)
    {
      assert StackInv(section, s, tab);
      assert Timeline(after, s) == after.stacks.At(s);
      StutterFreePrefix(section.stacks.At(s), Timeline(section, s));
    }
  }

  lemma ClosedInv(section: Section, tab: RootTab, clock: nat, slot: PaneSlot)
    requires SectionInv(section, tab, clock) && section.Closable(slot)
    ensures SectionInv(section.Closed(slot).0, tab, clock)
  {
    var (after, route) := section.Closed(slot);
    assert StackInv(section, slot, tab);
    forall s: PaneSlot
      ensures StackInv(after, s, tab)
    {
      assert StackInv(section, s, tab);
      CloseConserves(section, slot, s);
      StutterFreePrefix(Timeline(after, s), Timeline(section, s));
    }
    assert forall s: PaneSlot :: after.Occupied(s) ==> section.Occupied(s);
  }

  lemma ReopenedInv(section: Section, tab: RootTab, clock: nat)
    requires SectionInv(section, tab, clock) && section.forward != []
    ensures SectionInv(section.Reopened().Touched(section.forward[|section.forward| - 1].0, clock + 1), tab, clock + 1)
  {
    var (slot, route) := section.forward[|section.forward| - 1];
    var after := section.Reopened().Touched(slot, clock + 1);
    forall s: PaneSlot
      ensures StackInv(after, s, tab)
    {
      assert StackInv(section, s, tab);
      ReopenConserves(section, s);
      assert Timeline(after, s) == Timeline(section.Reopened(), s);
    }
  }

  lemma IndexIsInjective(a: RootTab, b: RootTab)
    ensures a.Index() == b.Index() <==> a == b
  {
    assert TabAt(a.Index()) == a && TabAt(b.Index()) == b;
  }

  lemma SwitchTabInv(nav: Navigation, tab: RootTab)
    requires Inv(nav) && nav.tab != tab
    ensures Inv(nav.SelectTab(tab))
  {
    var after := nav.SelectTab(tab);
    forall t: RootTab ensures SectionInv(after.sections[t.Index()], t, after.clock) {
      IndexIsInjective(t, tab);
      SwitchedSectionInv(nav, tab, t);
    }
  }

  lemma SwitchedSectionInv(nav: Navigation, tab: RootTab, t: RootTab)
    requires Inv(nav) && nav.tab != tab
    ensures SectionInv(nav.SelectTab(tab).sections[t.Index()], t, nav.clock)
  {
    assert SectionInv(nav.sections[t.Index()], t, nav.clock);
    hide SectionInv, Inv;
    SeededInv(tab, nav.clock);
    IndexIsInjective(t, tab);
    if t == tab && nav.sections[t.Index()].stacks.primary == [] {
      EmptySection(nav, tab);
    }
  }

  lemma EmptySection(nav: Navigation, tab: RootTab)
    requires Inv(nav) && nav.sections[tab.Index()].stacks.primary == []
    ensures nav.sections[tab.Index()] == EMPTY_SECTION
  {
    assert SectionInv(nav.sections[tab.Index()], tab, nav.clock);
  }

  lemma SelectTabInv(nav: Navigation, tab: RootTab)
    requires Inv(nav)
    ensures Inv(nav.SelectTab(tab))
  {
    assert SectionInv(nav.Current(), nav.tab, nav.clock);
    if nav.tab == tab {
      PrimaryTruncatedInv(nav.Current(), tab, nav.clock);
      ReplaceCurrent(nav, nav.SelectTab(tab), nav.Current().PrimaryTruncated());
    } else {
      SwitchTabInv(nav, tab);
    }
  }

  lemma PushInv(nav: Navigation, route: RootRoute)
    requires Inv(nav)
    ensures Inv(nav.Push(route))
  {
    if route.Tab? {
      SelectTabInv(nav, route.tab);
    } else {
      CurrentInv(nav);
      hide Inv, SectionInv;
      if nav.TopOf(route.Slot()) == Some(route) {
        PushAgainInv(nav, route);
      } else {
        PushNewInv(nav, route);
      }
    }
  }

  lemma CurrentInv(nav: Navigation)
    requires Inv(nav)
    ensures SectionInv(nav.Current(), nav.tab, nav.clock)
  {
  }

  lemma PushAgainInv(nav: Navigation, route: RootRoute)
    requires Inv(nav) && !route.Tab? && nav.TopOf(route.Slot()) == Some(route)
    ensures Inv(nav.Push(route))
  {
    var slot := route.Slot();
    CurrentInv(nav);
    TouchedInv(nav.Current(), nav.tab, nav.clock, slot);
    ReplaceCurrent(nav, nav.Push(route), nav.Current().Touched(slot, nav.clock + 1));
  }

  lemma PushNewInv(nav: Navigation, route: RootRoute)
    requires Inv(nav) && !route.Tab? && nav.TopOf(route.Slot()) != Some(route)
    ensures Inv(nav.Push(route))
  {
    var slot := route.Slot();
    CurrentInv(nav);
    PushedInv(nav.Current(), nav.tab, nav.clock, route);
    ReplaceCurrent(nav, nav.Push(route),
                   nav.Current().(forward := []).Stacked(slot, route).Touched(slot, nav.clock + 1));
  }

  lemma BackInv(nav: Navigation)
    requires Inv(nav)
    ensures Inv(nav.Back().0)
  {
    assert SectionInv(nav.Current(), nav.tab, nav.clock);
    var slot := nav.Current().MostRecentClosable();
    if slot.Some? {
      ClosedInv(nav.Current(), nav.tab, nav.clock, slot.value);
      ReplaceCurrent(nav, nav.Back().0, nav.Current().Closed(slot.value).0);
    }
  }

  lemma ForwardInv(nav: Navigation)
    requires Inv(nav)
    ensures Inv(nav.GoForward().0)
  {
    assert SectionInv(nav.Current(), nav.tab, nav.clock);
    var forward := nav.Current().forward;
    if forward != [] {
      ReopenedInv(nav.Current(), nav.tab, nav.clock);
      ReplaceCurrent(nav, nav.GoForward().0,
                     nav.Current().Reopened().Touched(forward[|forward| - 1].0, nav.clock + 1));
    }
  }

  lemma ResetToRootInv(nav: Navigation)
    requires Inv(nav)
    ensures Inv(nav.ResetToRoot())
  {
    var after := nav.ResetToRoot();
    forall t: RootTab ensures SectionInv(after.sections[t.Index()], t, after.clock) {
      TruncatedToRootInv(nav.sections[t.Index()], t, nav.clock);
    }
  }

  // ------------------------------------------------------- every run

  datatype Action =
    | DoSelectTab(tab: RootTab)
    | DoPush(route: RootRoute)
    | DoBack
    | DoForward
    | DoResetToRoot
    | DoResize(policy: PanePolicy, width: real)

  function Step(nav: Navigation, action: Action): Navigation {
    match action
    case DoSelectTab(tab) => nav.SelectTab(tab)
    case DoPush(route) => nav.Push(route)
    case DoBack => nav.Back().0
    case DoForward => nav.GoForward().0
    case DoResetToRoot => nav.ResetToRoot()
    case DoResize(policy, width) => nav.WindowResized(policy, width)
  }

  function Run(nav: Navigation, actions: seq<Action>): Navigation {
    if actions == [] then nav else Step(Run(nav, actions[..|actions| - 1]), actions[|actions| - 1])
  }

  lemma StepKeepsInv(nav: Navigation, action: Action)
    requires Inv(nav)
    ensures Inv(Step(nav, action))
  {
    hide SectionInv;
    match action
    case DoSelectTab(tab) => SelectTabInv(nav, tab);
    case DoPush(route) => PushInv(nav, route);
    case DoBack => BackInv(nav);
    case DoForward => ForwardInv(nav);
    case DoResetToRoot => ResetToRootInv(nav);
    case DoResize(policy, width) => assert nav.WindowResized(policy, width).Current() == nav.Current();
  }

  lemma {:induction false} EveryRunKeepsInv(layout: PaneLayout, actions: seq<Action>)
    ensures Inv(Run(Opened(layout), actions))
  {
    hide Inv, Step, Opened;
    if actions == [] {
      OpenedInv(layout);
    } else {
      EveryRunKeepsInv(layout, actions[..|actions| - 1]);
      StepKeepsInv(Run(Opened(layout), actions[..|actions| - 1]), actions[|actions| - 1]);
    }
  }

  // ------------------------------------------------------- focus

  /** The occupied stack reached for last, whatever is drawn. */
  function Newest(section: Section): Option<PaneSlot> {
    Latest(ALL_SLOTS, s => section.Occupied(s), s => section.Recency(s))
  }

  lemma SlotListed(slot: PaneSlot)
    ensures slot in ALL_SLOTS
  {
    assert ALL_SLOTS[slot.Index()] == slot;
  }

  lemma {:induction false} ActiveSlots(nav: Navigation, from: nat)
    ensures forall s :: s in nav.ActiveSlotsFrom(from) ==> nav.Current().Occupied(s)
    ensures forall c :: from <= c < nav.layout.ColumnCount() && nav.ColumnSlot(c).Some? ==>
              nav.ColumnSlot(c).value in nav.ActiveSlotsFrom(from)
    decreases nav.layout.ColumnCount() - from
  {
    if from < nav.layout.ColumnCount() {
      ActiveSlots(nav, from + 1);
    }
  }

  /** Every layout focuses the stack reached for last: the recencies of occupied stacks differ,
      and some drawn column holds the newest. */
  lemma FocusIsNewest(nav: Navigation)
    requires Inv(nav)
    ensures nav.FocusedSlot().Some? && nav.FocusedSlot() == Newest(nav.Current())
  {
    var section := nav.Current();
    assert SectionInv(section, nav.tab, nav.clock);
    SlotListed(Primary);
    assert section.Occupied(Primary);
    var newest := Newest(section).value;
    var column := nav.layout.ColumnOf(newest);
    ColumnsPartitionSlots(nav.layout, newest, column);
    var drawn := nav.ColumnSlot(column);
    SlotListed(drawn.value);
    assert drawn.value == newest;
    ActiveSlots(nav, 0);
    var focused := nav.FocusedSlot();
    SlotListed(focused.value);
  }

  /** A new store shows the feed, with nowhere to go back or forward to. */
  lemma OpenedShowsFeed(layout: PaneLayout)
    ensures var nav := Opened(layout);
            nav.layout == layout && nav.FocusedRoute() == Some(Tab(Feed)) && !nav.CanGoBack() && !nav.CanGoForward()
  {
    OpenedInv(layout);
    OnlyRootFocusesRoot(Opened(layout));
  }

  /** A resize, or any other change of layout, never moves the focus. */
  lemma LayoutNeverMovesFocus(nav: Navigation, layout: PaneLayout)
    requires Inv(nav)
    ensures nav.(layout := layout).FocusedRoute() == nav.FocusedRoute()
  {
    var other := nav.(layout := layout);
    assert other.Current() == nav.Current();
    assert Inv(other);
    hide Inv, Newest, Navigation.FocusedSlot;
    FocusIsNewest(nav);
    FocusIsNewest(other);
  }

  /** And it changes nothing else. */
  lemma ResizeChangesLayoutOnly(nav: Navigation, policy: PanePolicy, width: real)
    requires Inv(nav)
    ensures var after := nav.WindowResized(policy, width);
            after == nav.(layout := after.layout) && after.FocusedRoute() == nav.FocusedRoute()
  {
    hide Inv, Navigation.FocusedRoute, PanePolicy.LayoutForResize;
    LayoutNeverMovesFocus(nav, nav.WindowResized(policy, width).layout);
  }

  /** `back` closes the screen the user is in, unless that screen is the section itself. */
  lemma BackClosesFocusedIff(nav: Navigation)
    requires Inv(nav)
    ensures nav.FocusedRoute().Some?
    ensures nav.Back().1 == nav.FocusedRoute() <==> nav.FocusedRoute() != Some(Tab(nav.tab))
  {
    FocusIsNewest(nav);
    var section := nav.Current();
    assert SectionInv(section, nav.tab, nav.clock);
    var focused := nav.FocusedSlot().value;
    assert StackInv(section, focused, nav.tab);
    SlotListed(focused);
    var closing := section.MostRecentClosable();
    if closing.Some? {
      SlotListed(closing.value);
      assert StackInv(section, closing.value, nav.tab);
      assert section.Occupied(closing.value);
    }
  }

  lemma FocusedIsLastTouched(nav: Navigation, slot: PaneSlot)
    requires Inv(nav) && nav.Current().Occupied(slot) && nav.Current().touched.At(slot) == nav.clock && nav.clock > 0
    ensures nav.FocusedSlot() == Some(slot)
  {
    FocusIsNewest(nav);
    SlotListed(slot);
    assert SectionInv(nav.Current(), nav.tab, nav.clock);
  }

  /** Opening a screen focuses it, whatever the layout, and `back` then closes it again. */
  lemma PushThenBack(nav: Navigation, route: RootRoute)
    requires Inv(nav) && !route.Tab?
    ensures var after := nav.Push(route);
            && after.FocusedRoute() == Some(route)
            && after.Back().1 == Some(route)
            && (nav.TopOf(route.Slot()) != Some(route) ==>
                  after.Back().0.Current().stacks == nav.Current().stacks && after.Current().forward == [])
            && (nav.TopOf(route.Slot()) == Some(route) ==>
                  after.Current().stacks == nav.Current().stacks && after.Current().forward == nav.Current().forward)
  {
    var after := nav.Push(route);
    PushInv(nav, route);
    PushedState(nav, route);
    FocusedIsLastTouched(after, route.Slot());
    BackClosesFocusedIff(after);
    if nav.TopOf(route.Slot()) != Some(route) {
      ClosedAgain(nav.Current(), after.Current(), route);
    }
  }

  /** `forward` shows the screen it brings back: it has the focus, whatever the layout and whatever
      was reached for since it was closed, and `back` closes it again. */
  lemma ForwardThenBack(nav: Navigation)
    requires Inv(nav) && nav.CanGoForward()
    ensures var (after, route) := nav.GoForward();
            route.Some? && after.FocusedRoute() == route && after.Back().1 == route
  {
    var (after, route) := nav.GoForward();
    assert SectionInv(nav.Current(), nav.tab, nav.clock);
    ForwardInv(nav);
    ForwardState(nav);
    FocusedIsLastTouched(after, nav.Current().forward[|nav.Current().forward| - 1].0);
    BackClosesFocusedIff(after);
  }

  lemma ForwardState(nav: Navigation)
    requires nav.CanGoForward()
    ensures var (after, route) := nav.GoForward();
            var slot := nav.Current().forward[|nav.Current().forward| - 1].0;
            && route == Some(nav.Current().forward[|nav.Current().forward| - 1].1)
            && after.TopOf(slot) == route && after.tab == nav.tab
            && after.clock == nav.clock + 1 && after.Current().touched.At(slot) == after.clock
  {
  }

  /** `back` has something to close exactly when some stack may lose its top, and closes the top of
      the one reached for last among those, the rightmost if none was ever. */
  lemma BackClosesNewestClosable(nav: Navigation)
    ensures nav.Back().1.Some? <==> nav.CanGoBack()
    ensures nav.CanGoBack() <==>
              || |nav.Current().stacks.primary| > 1
              || nav.Current().stacks.secondary != [] || nav.Current().stacks.tertiary != []
    ensures nav.CanGoBack() ==>
              exists slot :: nav.Current().Closable(slot) && nav.Back().1 == nav.TopOf(slot) && Outranks(nav, slot)
  {
    var section := nav.Current();
    forall slot: PaneSlot ensures slot in ALL_SLOTS {
      SlotListed(slot);
    }
    assert section.Closable(Primary) <==> |section.stacks.primary| > 1;
    assert section.Closable(Secondary) <==> section.stacks.secondary != [];
    assert section.Closable(Tertiary) <==> section.stacks.tertiary != [];
    if nav.CanGoBack() {
      var closing := section.MostRecentClosable().value;
      forall other: PaneSlot | section.Closable(other) && other != closing
        ensures AtMost(section.Recency(other), section.Recency(closing)) && other.Index() != closing.Index()
      {
        SlotListed(other);
      }
      assert Outranks(nav, closing);
      match closing { case Primary => case Secondary => case Tertiary => }
    } else {
      assert forall slot :: slot in ALL_SLOTS ==> !section.Closable(slot);
    }
  }

  ghost predicate Outranks(nav: Navigation, slot: PaneSlot) {
    forall other: PaneSlot :: nav.Current().Closable(other) && other != slot ==>
      || nav.Current().touched.At(other) < nav.Current().touched.At(slot)
      || (nav.Current().touched.At(other) == nav.Current().touched.At(slot) && other.Index() < slot.Index())
  }

  /** Each column draws the occupied stack of its own that was reached for last. */
  lemma ColumnDrawsNewest(nav: Navigation, slot: PaneSlot)
    requires Inv(nav) && nav.Current().Occupied(slot)
    ensures var drawn := nav.ColumnSlot(nav.layout.ColumnOf(slot));
            && drawn.Some? && nav.Current().Occupied(drawn.value)
            && nav.layout.ColumnOf(drawn.value) == nav.layout.ColumnOf(slot)
            && nav.Current().touched.At(slot) <= nav.Current().touched.At(drawn.value)
  {
    var column := nav.layout.ColumnOf(slot);
    ColumnsPartitionSlots(nav.layout, slot, column);
    ColumnsPartitionSlots(nav.layout, nav.ColumnSlot(column).value, column);
  }

  /** A section pushed like a screen is selected: another one is shown as it was left, and the
      current one returns to its root. */
  lemma PushedSectionIsSelected(nav: Navigation, tab: RootTab)
    requires Inv(nav)
    ensures var after := nav.Push(Tab(tab));
            && after.tab == tab && after.clock == nav.clock && after.layout == nav.layout
            && (tab != nav.tab && nav.sections[tab.Index()].stacks.primary != [] ==>
                  after.sections == nav.sections)
            && (tab != nav.tab && nav.sections[tab.Index()].stacks.primary == [] ==>
                  after.Current().stacks == PerSlot([Tab(tab)], [], []) && after.Current().forward == [])
            && (tab == nav.tab ==> after.Current().stacks.primary == [Tab(tab)] && after.Current().forward == [])
  {
    assert SectionInv(nav.sections[tab.Index()], tab, nav.clock);
    if tab == nav.tab {
      ReselectReturnsToRoot(nav);
    }
  }

  lemma PushedState(nav: Navigation, route: RootRoute)
    requires !route.Tab?
    ensures var after := nav.Push(route);
            && after.TopOf(route.Slot()) == Some(route)
            && after.clock == nav.clock + 1 && after.Current().touched.At(route.Slot()) == after.clock
            && after.tab == nav.tab
            && if nav.TopOf(route.Slot()) == Some(route) then
                 after.Current().stacks == nav.Current().stacks && after.Current().forward == nav.Current().forward
               else
                 after.Current().stacks == nav.Current().Stacked(route.Slot(), route).stacks
                  && after.Current().forward == []
  {
  }

  lemma ClosedAgain(before: Section, after: Section, route: RootRoute)
    requires after.stacks == before.Stacked(route.Slot(), route).stacks
    requires after.Closable(route.Slot())
    ensures after.Closed(route.Slot()).0.stacks == before.stacks
  {
    var stack := before.stacks.At(route.Slot());
    assert (stack + [route])[..|stack|] == stack;
  }

  // ------------------------------------------------------- sections

  ghost predicate StaysAway(action: Action, tab: RootTab) {
    && !action.DoResetToRoot?
    && action != DoSelectTab(tab)
    && action != DoPush(Tab(tab))
  }

  /** Apart from the reset, an operation changes no section but the one it ends in. */
  lemma OperationsAreLocal(nav: Navigation, i: nat)
    requires i < SECTION_COUNT && i != nav.tab.Index()
    ensures forall tab: RootTab :: i != tab.Index() ==> nav.SelectTab(tab).sections[i] == nav.sections[i]
    ensures forall slot: PaneSlot :: nav.Touch(slot).sections[i] == nav.sections[i]
    ensures nav.Back().0.sections[i] == nav.sections[i]
    ensures nav.GoForward().0.sections[i] == nav.sections[i]
  {
  }

  lemma StepKeepsOtherSection(nav: Navigation, action: Action, tab: RootTab)
    requires nav.tab != tab && StaysAway(action, tab)
    ensures Step(nav, action).tab != tab
    ensures Step(nav, action).sections[tab.Index()] == nav.sections[tab.Index()]
  {
    IndexIsInjective(nav.tab, tab);
    OperationsAreLocal(nav, tab.Index());
    match action
    case DoSelectTab(selected) => IndexIsInjective(selected, tab);
    case DoPush(route) =>
      if route.Tab? {
        IndexIsInjective(route.tab, tab);
      } else {
        PushIsLocal(nav, route, tab.Index());
      }
    case DoBack =>
    case DoForward =>
    case DoResize(_, _) =>
  }

  lemma PushIsLocal(nav: Navigation, route: RootRoute, i: nat)
    requires i < SECTION_COUNT && i != nav.tab.Index() && !route.Tab?
    ensures nav.Push(route).tab == nav.tab && nav.Push(route).sections[i] == nav.sections[i]
  {
  }

  lemma {:induction false} OtherSectionsAreKept(nav: Navigation, actions: seq<Action>, tab: RootTab)
    requires nav.tab != tab
    requires forall i :: 0 <= i < |actions| ==> StaysAway(actions[i], tab)
    ensures Run(nav, actions).tab != tab
    ensures Run(nav, actions).sections[tab.Index()] == nav.sections[tab.Index()]
  {
    if actions != [] {
      var earlier := actions[..|actions| - 1];
      assert forall i :: 0 <= i < |earlier| ==> earlier[i] == actions[i];
      OtherSectionsAreKept(nav, earlier, tab);
      StepKeepsOtherSection(Run(nav, earlier), actions[|actions| - 1], tab);
    }
  }

  /** Whatever is done in the other sections, coming back finds the section as it was left:
      the same stacks, recency and history. */
  lemma SectionSurvivesSwitch(nav: Navigation, away: RootTab, actions: seq<Action>)
    requires Inv(nav) && away != nav.tab
    requires forall i :: 0 <= i < |actions| ==> StaysAway(actions[i], nav.tab)
    ensures Run(nav.SelectTab(away), actions).SelectTab(nav.tab).Current() == nav.Current()
  {
    hide Run, SectionInv, StaysAway;
    var left := nav.SelectTab(away);
    LeavingKeepsSection(nav, away);
    OtherSectionsAreKept(left, actions, nav.tab);
    ReturningFindsSection(Run(left, actions), nav.tab);
  }

  lemma LeavingKeepsSection(nav: Navigation, away: RootTab)
    requires away != nav.tab
    ensures nav.SelectTab(away).tab == away
    ensures nav.SelectTab(away).sections[nav.tab.Index()] == nav.Current()
  {
    IndexIsInjective(away, nav.tab);
  }

  lemma ReturningFindsSection(nav: Navigation, tab: RootTab)
    requires nav.tab != tab && nav.sections[tab.Index()].stacks.primary != []
    ensures nav.SelectTab(tab).Current() == nav.sections[tab.Index()]
  {
  }

  lemma OnlyRootFocusesRoot(nav: Navigation)
    requires Inv(nav)
    requires nav.Current().stacks == PerSlot([Tab(nav.tab)], [], []) && nav.Current().forward == []
    ensures nav.FocusedRoute() == Some(Tab(nav.tab)) && !nav.CanGoBack() && !nav.CanGoForward()
  {
    FocusIsNewest(nav);
    assert forall s: PaneSlot :: !nav.Current().Closable(s);
  }

  /** Reselecting the current section returns its primary column to the section itself, leaves
      what is open beside it, and abandons the history. */
  lemma ReselectReturnsToRoot(nav: Navigation)
    requires Inv(nav)
    ensures var after := nav.SelectTab(nav.tab).Current();
            && after.stacks == PerSlot([Tab(nav.tab)], nav.Current().stacks.secondary, nav.Current().stacks.tertiary)
            && after.forward == []
  {
    assert SectionInv(nav.Current(), nav.tab, nav.clock);
    assert StackInv(nav.Current(), Primary, nav.tab);
    assert Truncate(nav.Current().stacks.primary, 1) == [Tab(nav.tab)];
  }

  /** After the account transition nothing of the previous account is left in any section. */
  lemma ResetLeavesOnlyRoots(nav: Navigation, tab: RootTab)
    requires Inv(nav)
    ensures var after := nav.ResetToRoot().SelectTab(tab);
            && after.Current().stacks == PerSlot([Tab(tab)], [], [])
            && after.FocusedRoute() == Some(Tab(tab))
            && !after.CanGoBack() && !after.CanGoForward()
    ensures nav.ResetToRoot().tab == nav.tab && nav.ResetToRoot().layout == nav.layout
  {
    var reset := nav.ResetToRoot();
    var after := reset.SelectTab(tab);
    assert SectionInv(nav.sections[tab.Index()], tab, nav.clock);
    assert StackInv(nav.sections[tab.Index()], Primary, tab);
    var primary := nav.sections[tab.Index()].stacks.primary;
    if primary != [] {
      assert Truncate(primary, 1) == [Tab(tab)];
    }
    assert after.Current().stacks == PerSlot([Tab(tab)], [], []);
    ResetToRootInv(nav);
    SelectTabInv(reset, tab);
    OnlyRootFocusesRoot(after);
  }
}
