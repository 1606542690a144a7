/** The column layout: which stacks a column may draw, and when a resize changes the count. */
module PaneLayouts {
  import opened Routes

  datatype PaneLayout = Stacked | TwoColumn | ThreeColumn {
    function ColumnCount(): nat {
      match this
      case Stacked => 1
      case TwoColumn => 2
      case ThreeColumn => 3
    }

    /** The stacks a drawn column may take its screen from. */
    function SlotsForColumn(column: nat): seq<PaneSlot> {
      match this
      case ThreeColumn =>
        if column == 0 then [Primary] else if column == 1 then [Secondary]
        else if column == 2 then [Tertiary] else []
      case TwoColumn =>
        if column == 0 then [Primary] else if column == 1 then [Tertiary, Secondary] else []
      case Stacked =>
        if column == 0 then [Tertiary, Secondary, Primary] else []
    }

    /** The column that may draw `slot`. */
    function ColumnOf(slot: PaneSlot): nat {
      match this
      case ThreeColumn => slot.Index()
      case TwoColumn => if slot.Primary? then 0 else 1
      case Stacked => 0
    }
  }

  /** Whatever the layout, the columns partition the slots: narrowing hides no stack. */
  lemma ColumnsPartitionSlots(layout: PaneLayout, slot: PaneSlot, column: nat)
    ensures slot in layout.SlotsForColumn(column) <==> column == layout.ColumnOf(slot)
    ensures layout.ColumnOf(slot) < layout.ColumnCount()
  {
    match layout
    case Stacked => assert [Tertiary, Secondary, Primary][slot.Index()] in [Tertiary, Secondary, Primary];
                    assert [Tertiary, Secondary, Primary][2 - slot.Index()] == slot;
    case TwoColumn => assert [Tertiary, Secondary][0] == Tertiary && [Tertiary, Secondary][1] == Secondary;
    case ThreeColumn =>
  }

  /** Column widths in pixels, from which the thresholds are derived. */
  datatype PanePolicy = PanePolicy(sidebarWidth: real, detailMinWidth: real, asideWidth: real, hysteresis: real) {
    function TwoColumnThreshold(): real {
      sidebarWidth + detailMinWidth
    }

    function ThreeColumnThreshold(): real {
      TwoColumnThreshold() + asideWidth
    }

    function LayoutFor(width: real): PaneLayout {
      if width >= ThreeColumnThreshold() then ThreeColumn
      else if width >= TwoColumnThreshold() then TwoColumn
      else Stacked
    }

    /** The layout after a resize. Only a one-step shrink is delayed; growing, and
        skipping a layout on the way down, take effect at once. */
    function LayoutForResize(width: real, current: PaneLayout): PaneLayout {
      var next := LayoutFor(width);
      if next == current then current
      else if current.TwoColumn? && next.Stacked? then
        if width >= TwoColumnThreshold() - hysteresis then current else next
      else if current.ThreeColumn? && next.TwoColumn? then
        if width >= ThreeColumnThreshold() - hysteresis then current else next
      else next
    }
  }

  /** Resizing twice to one width equals resizing once. */
  lemma ResizeIsIdempotent(policy: PanePolicy, width: real, current: PaneLayout)
    ensures var once := policy.LayoutForResize(width, current);
            policy.LayoutForResize(width, once) == once
  {
  }

  /** A window always shows at least the columns its width affords, at most one more, and keeps
      that one only within the hysteresis of where it stopped fitting. */
  lemma ResizeShowsWhatFits(policy: PanePolicy, width: real, current: PaneLayout)
    requires 0.0 <= policy.asideWidth
    ensures var after, fits := policy.LayoutForResize(width, current), policy.LayoutFor(width);
            && fits.ColumnCount() <= after.ColumnCount() <= fits.ColumnCount() + 1
            && (after != fits ==>
                  after == current && policy.LayoutFor(width + policy.hysteresis).ColumnCount() >= after.ColumnCount())
  {
  }

  /** What so many columns need: the sidebar, a detail column beside it, and the aside beside both. */
  function Needed(policy: PanePolicy, columns: nat): real
    requires 2 <= columns <= 3
  {
    policy.sidebarWidth + policy.detailMinWidth + if columns == 3 then policy.asideWidth else 0.0
  }

  /** Measured by the column widths alone: every number of columns that fits is reached, none is
      shown that is short of its need by more than the hysteresis, and none is added too early. */
  lemma ColumnsFitTheirWidths(policy: PanePolicy, width: real, current: PaneLayout)
    requires 0.0 <= policy.asideWidth
    ensures var shown := policy.LayoutForResize(width, current).ColumnCount();
            && (forall k :: 2 <= k <= 3 && Needed(policy, k) <= width ==> k <= shown)
            && (shown > 1 ==> Needed(policy, shown) <= width || Needed(policy, shown) <= width + policy.hysteresis)
            && (shown > current.ColumnCount() ==> Needed(policy, shown) <= width)
  {
    assert Needed(policy, 2) <= Needed(policy, 3);
  }

  /** The layouts a window goes through while it is given `widths` one after another:
      `Layouts(..)[i]` is the layout before `widths[i]` arrives. */
  function Layouts(policy: PanePolicy, start: PaneLayout, widths: seq<real>): (layouts: seq<PaneLayout>)
    ensures |layouts| == |widths| + 1
    ensures layouts[0] == start
    ensures forall i :: 0 <= i < |widths| ==> layouts[i + 1] == policy.LayoutForResize(widths[i], layouts[i])
    decreases |widths|
  {
    if widths == [] then [start]
    else [start] + Layouts(policy, policy.LayoutForResize(widths[0], start), widths[1..])
  }

  function Distance(a: real, b: real): real {
    if a < b then b - a else a - b
  }

  /** In `layouts`, the change caused by width `i` is undone by the next change, at width `j`. */
  ghost predicate Flaps(layouts: seq<PaneLayout>, i: nat, j: nat) {
    && i < j
    && j + 1 < |layouts|
    && layouts[i] != layouts[i + 1]
    && (forall k :: i < k <= j ==> layouts[k] == layouts[i + 1])
    && layouts[j + 1] == layouts[i]
  }

  /** No strobing: over any drag, a change and the change that undoes it are more than
      the hysteresis apart. */
  ghost predicate NeverStrobes(policy: PanePolicy) {
    forall start: PaneLayout, widths: seq<real>, i: nat, j: nat ::
      Flaps(Layouts(policy, start, widths), i, j) ==> Distance(widths[i], widths[j]) > policy.hysteresis
  }

  lemma FlapIsWide(policy: PanePolicy, start: PaneLayout, widths: seq<real>, i: nat, j: nat)
    requires policy.hysteresis <= policy.asideWidth && 0.0 <= policy.asideWidth
    requires Flaps(Layouts(policy, start, widths), i, j)
    ensures Distance(widths[i], widths[j]) > policy.hysteresis
  {
    var layouts := Layouts(policy, start, widths);
    assert layouts[j] == layouts[i + 1];
    assert layouts[i + 1] == policy.LayoutForResize(widths[i], layouts[i]);
    assert layouts[j + 1] == policy.LayoutForResize(widths[j], layouts[j]);
  }

  /** The hysteresis does its job for exactly the policies whose aside is at least as wide:
      a drag from three columns straight to one is never delayed, so only the aside's own
      width separates it from the way back. */
  lemma NeverStrobesIff(policy: PanePolicy)
    requires 0.0 <= policy.asideWidth
    ensures NeverStrobes(policy) <==> policy.hysteresis <= policy.asideWidth
  {
    if policy.hysteresis <= policy.asideWidth {
      forall start: PaneLayout, widths: seq<real>, i: nat, j: nat
        | Flaps(Layouts(policy, start, widths), i, j)
        ensures Distance(widths[i], widths[j]) > policy.hysteresis
      {
        FlapIsWide(policy, start, widths, i, j);
      }
    } else {
      var narrow := policy.ThreeColumnThreshold() - policy.hysteresis;
      var widths := [narrow, policy.ThreeColumnThreshold()];
      var layouts := Layouts(policy, ThreeColumn, widths);
      assert layouts[1] == Stacked;
      assert layouts[1 + 1] == ThreeColumn;
      assert Flaps(layouts, 0, 1);
    }
  }
}
