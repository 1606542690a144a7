/** The store itself: the same operations as in-place updates of its fields. */
module NavigationStores {
  import opened Options
  import opened Routes
  import opened PaneLayouts
  import opened NavigationModel

  class NavigationStore {
    const policy: PanePolicy
    var layout: PaneLayout
    var tab: RootTab
    const sections: array<Section>
    var clock: nat

    ghost predicate Valid() {
      sections.Length == SECTION_COUNT
    }

    function View(): Navigation
      reads this, sections
      requires Valid()
    {
      Navigation(layout, tab, sections[..], clock)
    }

    constructor (policy: PanePolicy, layout: PaneLayout)
      ensures Valid() && fresh(sections)
      ensures View() == Opened(layout)
      ensures this.policy == policy
    {
      this.policy := policy;
      this.layout := layout;
      tab := Feed;
      sections := new Section[SECTION_COUNT](_ => EMPTY_SECTION);
      clock := 0;
      new;
      assert sections[..] == seq(SECTION_COUNT, _ => EMPTY_SECTION);
      SeedSectionRoot();
    }

    method SelectTab(selected: RootTab)
      requires Valid()
      modifies this`tab, sections
      ensures View() == old(View()).SelectTab(selected)
    {
      if tab == selected {
        var section := sections[tab.Index()];
        var stacks := section.stacks.With(Primary, Truncate(section.stacks.primary, 1));
        sections[tab.Index()] := section.(stacks := stacks, forward := []);
        return;
      }
      tab := selected;
      SeedSectionRoot();
    }

    method WindowResized(width: real) returns (changed: bool)
      requires Valid()
      modifies this`layout
      ensures View() == old(View()).WindowResized(policy, width)
      ensures changed <==> layout != old(layout)
    {
      var next := policy.LayoutForResize(width, layout);
      if next == layout {
        return false;
      }
      layout := next;
      return true;
    }

    method Push(route: RootRoute)
      requires Valid()
      modifies this`tab, this`clock, sections
      ensures View() == old(View()).Push(route)
    {
      if route.Tab? {
        SelectTab(route.tab);
        return;
      }
      var slot := route.Slot();
      var stack := sections[tab.Index()].stacks.At(slot);
      if stack != [] && stack[|stack| - 1] == route {
        Touch(slot);
        return;
      }
      sections[tab.Index()] := sections[tab.Index()].(forward := []);
      PushOnto(slot, route);
      Touch(slot);
    }

    method Back() returns (closed: Option<RootRoute>)
      requires Valid()
      modifies sections
      ensures (View(), closed) == old(View()).Back()
    {
      var best := sections[tab.Index()].MostRecentClosable();
      if best.None? {
        return None;
      }
      var slot := best.value;
      var section := sections[tab.Index()];
      assert section.Closable(slot);
      var stack := section.stacks.At(slot);
      var route := stack[|stack| - 1];
      sections[tab.Index()] := section.(stacks := section.stacks.With(slot, stack[..|stack| - 1]));

      var forward := section.forward;
      if |forward| == FORWARD_LIMIT {
        forward := forward[1..];
      }
      sections[tab.Index()] := sections[tab.Index()].(forward := forward + [(slot, route)]);
      assert View() == old(View()).WithCurrent(section.Closed(slot).0);
      return Some(route);
    }

    method GoForward() returns (reopened: Option<RootRoute>)
      requires Valid()
      modifies this`clock, sections
      ensures (View(), reopened) == old(View()).GoForward()
    {
      var section := sections[tab.Index()];
      if section.forward == [] {
        return None;
      }
      var (slot, route) := section.forward[|section.forward| - 1];
      sections[tab.Index()] := section.(forward := section.forward[..|section.forward| - 1]);
      PushOnto(slot, route);
      assert View() == old(View()).WithCurrent(section.Reopened());
      Touch(slot);
      return Some(route);
    }

    method ResetToRoot()
      requires Valid()
      modifies sections
      ensures View() == old(View()).ResetToRoot()
    {
      for i := 0 to sections.Length
        invariant forall k :: 0 <= k < i ==> sections[k] == old(sections[k]).TruncatedToRoot()
        invariant forall k :: i <= k < sections.Length ==> sections[k] == old(sections[k])
      {
        var section := sections[i];
        sections[i] := section.(stacks := PerSlot(Truncate(section.stacks.primary, 1), [], []), forward := []);
      }
      assert sections[..] == old(View()).ResetToRoot().sections;
    }

    method SeedSectionRoot()
      requires Valid()
      modifies sections
      ensures View() == old(View()).SeedSectionRoot()
    {
      var section := sections[tab.Index()];
      if section.stacks.primary == [] {
        sections[tab.Index()] := section.(stacks := section.stacks.With(Primary, [Tab(tab)]));
      }
    }

    method Touch(slot: PaneSlot)
      requires Valid()
      modifies this`clock, sections
      ensures View() == old(View()).Touch(slot)
    {
      clock := clock + 1;
      var section := sections[tab.Index()];
      sections[tab.Index()] := section.(touched := section.touched.With(slot, clock));
    }

    method PushOnto(slot: PaneSlot, route: RootRoute)
      requires Valid()
      modifies sections
      ensures View() == old(View()).WithCurrent(old(View()).Current().Stacked(slot, route))
    {
      var section := sections[tab.Index()];
      sections[tab.Index()] := section.(stacks := section.stacks.With(slot, section.stacks.At(slot) + [route]));
    }
  }
}
