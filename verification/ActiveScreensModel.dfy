/** The registry of screens that are on show, and the log of what each refresh cycle granted. */
module ActiveScreensModel {
  import opened Options
  import opened Basics

  const MAX_LEASES: nat := 64
  const MAX_CLAIM_RECORDS: nat := 128

  datatype ScreenIdentity = ScreenIdentity(screenId: string, resourceKey: string)

  type CacheKey = string

  function OwnKey(identity: ScreenIdentity): CacheKey {
    identity.resourceKey
  }

  datatype LeaseColumn = Primary | Secondary | Tertiary | Overlay

  datatype RefreshReason = ColdStart | Foreground | Reconnect | EventGap | Manual

  datatype Lease = Lease(
    owner: ScreenIdentity,
    key: CacheKey,
    column: LeaseColumn,
    depth: nat,
    appearedAt: nat,
    seenRevision: Option<nat>)

  datatype RefreshGrant = RefreshGrant(
    cycle: nat,
    reason: RefreshReason,
    key: CacheKey,
    seenRevision: Option<nat>)

  type Visible = seq<(ScreenIdentity, LeaseColumn)>

  // ------------------------------------------------------- searching the leases

  /** The first lease of `owner`. */
  function IndexOf(leases: seq<Lease>, owner: ScreenIdentity): (index: Option<nat>)
    ensures index.Some? ==> index.value < |leases| && leases[index.value].owner == owner
    ensures index.Some? ==> forall i :: 0 <= i < index.value ==> leases[i].owner != owner
    ensures index.None? ==> forall i :: 0 <= i < |leases| ==> leases[i].owner != owner
  {
    if leases == [] then None
    else if leases[0].owner == owner then Some(0)
    else
      match IndexOf(leases[1..], owner)
      case None => None
      case Some(i) => Some(i + 1)
  }

  predicate Below(a: Lease, b: Lease) {
    a.depth < b.depth || (a.depth == b.depth && a.appearedAt <= b.appearedAt)
  }

  /** The lease of `column` with the greatest depth, the younger one between equals. */
  function TopmostIn(leases: seq<Lease>, column: LeaseColumn): (top: Option<nat>)
    ensures top.Some? ==> top.value < |leases| && leases[top.value].column == column
    ensures top.Some? ==> forall i :: 0 <= i < |leases| && leases[i].column == column ==>
              Below(leases[i], leases[top.value])
    ensures top.None? ==> forall i :: 0 <= i < |leases| ==> leases[i].column != column
  {
    if leases == [] then None
    else
      var last := |leases| - 1;
      var before := TopmostIn(leases[..last], column);
      assert forall i :: 0 <= i < last ==> leases[i] == leases[..last][i];
      if leases[last].column == column && (before.None? || Below(leases[before.value], leases[last])) then Some(last)
      else before
  }

  function DeepestIn(leases: seq<Lease>, column: LeaseColumn): nat {
    if leases == [] then 0
    else
      var rest := DeepestIn(leases[1..], column);
      if leases[0].column == column then Max(leases[0].depth, rest) else rest
  }

  function NextDepth(leases: seq<Lease>, column: LeaseColumn): nat {
    DeepestIn(leases, column) + 1
  }

  /** The lease that appeared first, the first one between equals. */
  function Oldest(leases: seq<Lease>): (index: nat)
    requires leases != []
    ensures index < |leases|
    ensures forall i :: 0 <= i < |leases| ==> leases[index].appearedAt <= leases[i].appearedAt
  {
    if |leases| == 1 then 0
    else
      var rest := Oldest(leases[1..]);
      assert forall i :: 1 <= i < |leases| ==> leases[i] == leases[1..][i - 1];
      if leases[0].appearedAt <= leases[rest + 1].appearedAt then 0 else rest + 1
  }

  function SeenRevision(leases: seq<Lease>, key: CacheKey): Option<nat> {
    if leases == [] then None
    else
      var rest := SeenRevision(leases[1..], key);
      if leases[0].key != key || leases[0].seenRevision.None? then rest
      else if rest.None? then leases[0].seenRevision
      else Some(Max(leases[0].seenRevision.value, rest.value))
  }

  // ------------------------------------------------------- editing the leases

  function Retain(leases: seq<Lease>, owners: set<ScreenIdentity>): seq<Lease> {
    if leases == [] then []
    else (if leases[0].owner in owners then [leases[0]] else []) + Retain(leases[1..], owners)
  }

  function Owners(leases: seq<Lease>): set<ScreenIdentity> {
    set i | 0 <= i < |leases| :: leases[i].owner
  }

  function VisibleOwners(visible: Visible): set<ScreenIdentity> {
    set i | 0 <= i < |visible| :: visible[i].0
  }

  /** Oldest leases go until there is room for one more. */
  function WithRoom(leases: seq<Lease>): seq<Lease>
    decreases |leases|
  {
    if |leases| < MAX_LEASES then leases
    else
      var oldest := Oldest(leases);
      WithRoom(leases[..oldest] + leases[oldest + 1..])
  }

  function Noted(lease: Lease, key: CacheKey, revision: nat): Lease {
    if lease.key != key then lease
    else lease.(seenRevision := Some(match lease.seenRevision
                                     case Some(seen) => Max(seen, revision)
                                     case None => revision))
  }

  function CountColumn(visible: Visible, column: LeaseColumn): nat {
    if visible == [] then 0
    else CountColumn(visible[..|visible| - 1], column) + (if visible[|visible| - 1].1 == column then 1 else 0)
  }

  /** The visible screens take their columns, and depths counted within each column in order. */
  function Placed(leases: seq<Lease>, visible: Visible): seq<Lease> {
    if visible == [] then leases
    else
      var (owner, column) := visible[|visible| - 1];
      var before := Placed(leases, visible[..|visible| - 1]);
      match IndexOf(before, owner)
      case None => before
      case Some(i) => before[i := before[i].(column := column, depth := CountColumn(visible, column))]
  }

  datatype Screens = Screens(
    leases: seq<Lease>,
    claimed: seq<CacheKey>,
    cycle: nat,
    reason: RefreshReason,
    nextTick: nat)
  {
    function InsertOrUpdate(owner: ScreenIdentity, key: CacheKey, column: LeaseColumn): Screens {
      match IndexOf(leases, owner)
      case Some(i) =>
        var depth := if leases[i].column == column then leases[i].depth else NextDepth(leases, column);
        this.(leases := leases[i := leases[i].(key := key, column := column, depth := depth)])
      case None =>
        var kept := WithRoom(leases);
        this.(leases := kept + [Lease(owner, key, column, NextDepth(kept, column), nextTick, None)],
              nextTick := nextTick + 1)
    }

    function Release(owner: ScreenIdentity): Screens {
      this.(leases := Retain(leases, Owners(leases) - {owner}))
    }

    /** Leases for those of `visible` that have none yet, in order. */
    function InsertMissing(visible: Visible): Screens {
      if visible == [] then this
      else
        var (owner, column) := visible[|visible| - 1];
        var before := InsertMissing(visible[..|visible| - 1]);
        if IndexOf(before.leases, owner).Some? then before
        else before.InsertOrUpdate(owner, OwnKey(owner), column)
    }

    function SyncVisible(visible: Visible): Screens {
      var shown := this.(leases := Retain(leases, VisibleOwners(visible))).InsertMissing(visible);
      shown.(leases := Placed(shown.leases, visible))
    }

    function NoteRevision(key: CacheKey, revision: nat): Screens {
      this.(leases := seq(|leases|, i requires 0 <= i < |leases| => Noted(leases[i], key, revision)))
    }

    predicate IsEligible(owner: ScreenIdentity) {
      match IndexOf(leases, owner)
      case None => false
      case Some(index) =>
        var overlay := TopmostIn(leases, Overlay);
        if overlay.Some? then overlay.value == index
        else TopmostIn(leases, leases[index].column) == Some(index)
    }

    /** The topmost overlay or, without one, the topmost screen of the rightmost column. */
    function FocusedIndex(): Option<nat> {
      var overlay := TopmostIn(leases, Overlay);
      var tertiary := TopmostIn(leases, Tertiary);
      var secondary := TopmostIn(leases, Secondary);
      if overlay.Some? then overlay
      else if tertiary.Some? then tertiary
      else if secondary.Some? then secondary
      else TopmostIn(leases, Primary)
    }

    function Focused(): Option<ScreenIdentity> {
      match FocusedIndex()
      case None => None
      case Some(index) => Some(leases[index].owner)
    }

    function BeginCycle(reason: RefreshReason): Screens {
      this.(cycle := cycle + 1, reason := reason, claimed := [])
    }

    function ClaimRefresh(owner: ScreenIdentity, key: CacheKey): (Screens, Option<RefreshGrant>) {
      if !IsEligible(owner) || key in claimed then (this, None)
      else
        var kept := if |claimed| < MAX_CLAIM_RECORDS then claimed
                    else claimed[|claimed| - (MAX_CLAIM_RECORDS - 1)..];
        (this.(claimed := kept + [key]),
         Some(RefreshGrant(cycle, reason, key, SeenRevision(leases, key))))
    }
  }

  const EMPTY: Screens := Screens([], [], 0, ColdStart, 0)
}
