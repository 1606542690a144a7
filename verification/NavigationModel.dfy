/** What the navigation store holds, and what each of its operations does to it. */
module NavigationModel {
  import opened Routes
  import opened PaneLayouts
  import opened Options

  /** Entries of the forward history kept per section; the outermost one is dropped first. */
  const FORWARD_LIMIT: nat := 16

  /** One value per pane slot. */
  datatype PerSlot<T> = PerSlot(primary: T, secondary: T, tertiary: T) {
    function At(slot: PaneSlot): T {
      match slot
      case Primary => primary
      case Secondary => secondary
      case Tertiary => tertiary
    }

    function With(slot: PaneSlot, value: T): (changed: PerSlot<T>)
      ensures forall s: PaneSlot :: changed.At(s) == if s == slot then value else At(s)
    {
      match slot
      case Primary => this.(primary := value)
      case Secondary => this.(secondary := value)
      case Tertiary => this.(tertiary := value)
    }
  }

  type Stack = seq<RootRoute>
  type Forward = seq<(PaneSlot, RootRoute)>

  function Truncate(stack: Stack, length: nat): Stack {
    if |stack| <= length then stack else stack[..length]
  }

  /** The slot of `slots` with the greatest key among those to keep, the last one on a tie. */
  function Latest(slots: seq<PaneSlot>, keep: PaneSlot -> bool, key: PaneSlot -> (nat, nat)): (best: Option<PaneSlot>)
    ensures best.Some? ==> best.value in slots && keep(best.value)
    ensures best.Some? ==> forall s :: s in slots && keep(s) ==> AtMost(key(s), key(best.value))
    ensures best.None? ==> forall s :: s in slots ==> !keep(s)
  {
    if slots == [] then None
    else
      var last := slots[|slots| - 1];
      var before := Latest(slots[..|slots| - 1], keep, key);
      if keep(last) && (before.None? || AtMost(key(before.value), key(last))) then Some(last) else before
  }

  predicate AtMost(a: (nat, nat), b: (nat, nat)) {
    a.0 < b.0 || (a.0 == b.0 && a.1 <= b.1)
  }

  /** One section: its stacks, when each was last reached for, and what `back` closed. */
  datatype Section = Section(stacks: PerSlot<Stack>, touched: PerSlot<nat>, forward: Forward) {
    /** Whether `back` may close the top of this stack; the root never closes. */
    predicate Closable(slot: PaneSlot) {
      |stacks.At(slot)| > (if slot.Primary? then 1 else 0)
    }

    predicate Occupied(slot: PaneSlot) {
      stacks.At(slot) != []
    }

    function Recency(slot: PaneSlot): (nat, nat) {
      (touched.At(slot), slot.Index())
    }

    /** The stack `back` unwinds. */
    function MostRecentClosable(): Option<PaneSlot> {
      Latest(ALL_SLOTS, s => Closable(s), s => Recency(s))
    }

    function Touched(slot: PaneSlot, now: nat): Section {
      this.(touched := touched.With(slot, now))
    }

    function Stacked(slot: PaneSlot, route: RootRoute): Section {
      this.(stacks := stacks.With(slot, stacks.At(slot) + [route]))
    }

    /** The top of `slot` closed and remembered. */
    function Closed(slot: PaneSlot): (Section, RootRoute)
      requires Closable(slot)
    {
      var stack := stacks.At(slot);
      var route := stack[|stack| - 1];
      var kept := if |forward| == FORWARD_LIMIT then forward[1..] else forward;
      (this.(stacks := stacks.With(slot, stack[..|stack| - 1]), forward := kept + [(slot, route)]), route)
    }

    /** The screen closed last back on top of its stack. */
    function Reopened(): Section
      requires forward != []
    {
      var (slot, route) := forward[|forward| - 1];
      this.(forward := forward[..|forward| - 1]).Stacked(slot, route)
    }

    function PrimaryTruncated(): Section {
      this.(stacks := stacks.With(Primary, Truncate(stacks.primary, 1)), forward := [])
    }

    function TruncatedToRoot(): Section {
      this.(stacks := PerSlot(Truncate(stacks.primary, 1), [], []), forward := [])
    }
  }

  const EMPTY_SECTION: Section := Section(PerSlot([], [], []), PerSlot(0, 0, 0), [])

  type Sections = s: seq<Section> | |s| == SECTION_COUNT witness seq(SECTION_COUNT, _ => EMPTY_SECTION)

  datatype Navigation = Navigation(layout: PaneLayout, tab: RootTab, sections: Sections, clock: nat) {

    function Current(): Section {
      sections[tab.Index()]
    }

    function WithCurrent(section: Section): Navigation {
      this.(sections := sections[tab.Index() := section])
    }

    function SeedSectionRoot(): Navigation {
      if Current().stacks.primary == []
      then WithCurrent(Current().(stacks := Current().stacks.With(Primary, [Tab(tab)])))
      else this
    }

    function Touch(slot: PaneSlot): Navigation {
      this.(clock := clock + 1).WithCurrent(Current().Touched(slot, clock + 1))
    }

    /** Reselecting the current section returns its primary column to the root. */
    function SelectTab(selected: RootTab): Navigation {
      if tab == selected then WithCurrent(Current().PrimaryTruncated())
      else this.(tab := selected).SeedSectionRoot()
    }

    function Push(route: RootRoute): Navigation {
      if route.Tab? then SelectTab(route.tab)
      else
        var slot := route.Slot();
        var stack := Current().stacks.At(slot);
        if stack != [] && stack[|stack| - 1] == route then Touch(slot)
        else WithCurrent(Current().(forward := []).Stacked(slot, route)).Touch(slot)
    }

    function Back(): (Navigation, Option<RootRoute>) {
      match Current().MostRecentClosable()
      case None => (this, None)
      case Some(slot) =>
        var (section, route) := Current().Closed(slot);
        (WithCurrent(section), Some(route))
    }

    function GoForward(): (Navigation, Option<RootRoute>) {
      var forward := Current().forward;
      if forward == [] then (this, None)
      else
        var (slot, route) := forward[|forward| - 1];
        (WithCurrent(Current().Reopened()).Touch(slot), Some(route))
    }

    function WindowResized(policy: PanePolicy, width: real): Navigation {
      this.(layout := policy.LayoutForResize(width, layout))
    }

    /** The account transition: every section back to its root, all history dropped. */
    function ResetToRoot(): Navigation {
      this.(sections := seq(SECTION_COUNT, i requires 0 <= i < SECTION_COUNT => sections[i].TruncatedToRoot()))
    }

    predicate CanGoBack() {
      Current().MostRecentClosable().Some?
    }

    predicate CanGoForward() {
      Current().forward != []
    }

    /** The stack a column draws: of the stacks it merges, the one touched last. */
    function ColumnSlot(column: nat): Option<PaneSlot> {
      Latest(layout.SlotsForColumn(column), s => Current().Occupied(s), s => (Current().touched.At(s), 0))
    }

    /** The stacks drawn by the columns from `column` on, leftmost first. */
    function ActiveSlotsFrom(column: nat): seq<PaneSlot>
      decreases layout.ColumnCount() - column
    {
      if column >= layout.ColumnCount() then []
      else
        var rest := ActiveSlotsFrom(column + 1);
        match ColumnSlot(column)
        case None => rest
        case Some(slot) => [slot] + rest
    }

    /** The drawn stack the user reached for last. */
    function FocusedSlot(): Option<PaneSlot> {
      Latest(ActiveSlotsFrom(0), s => true, s => Current().Recency(s))
    }

    function TopOf(slot: PaneSlot): Option<RootRoute> {
      var stack := Current().stacks.At(slot);
      if stack == [] then None else Some(stack[|stack| - 1])
    }

    function FocusedRoute(): Option<RootRoute> {
      match FocusedSlot()
      case None => None
      case Some(slot) => TopOf(slot)
    }
  }

  /** A store just opened: the feed, with nothing but its root. */
  function Opened(layout: PaneLayout): Navigation {
    Navigation(layout, Feed, seq(SECTION_COUNT, _ => EMPTY_SECTION), 0).SeedSectionRoot()
  }
}
