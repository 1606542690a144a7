/** The promises of the registry, over every sequence of operations. */
module ActiveScreensProofs {
  import opened Options
  import opened Basics
  import opened ActiveScreensModel

  // ------------------------------------------------------- invariant

  ghost predicate LeasesInv(leases: seq<Lease>, nextTick: nat) {
    && |leases| <= MAX_LEASES
    && (forall i, j :: 0 <= i < j < |leases| ==> leases[i].owner != leases[j].owner)
    && (forall i, j :: 0 <= i < j < |leases| ==> leases[i].appearedAt < leases[j].appearedAt)
    && (forall i :: 0 <= i < |leases| ==> leases[i].appearedAt < nextTick)
  }

  predicate NoDuplicates<T(==)>(s: seq<T>) {
    forall i, j :: 0 <= i < j < |s| ==> s[i] != s[j]
  }

  ghost predicate Inv(screens: Screens) {
    && LeasesInv(screens.leases, screens.nextTick)
    && |screens.claimed| <= MAX_CLAIM_RECORDS
    && NoDuplicates(screens.claimed)
  }

  lemma {:induction false} RetainedMembers(leases: seq<Lease>, owners: set<ScreenIdentity>)
    ensures forall lease :: lease in Retain(leases, owners) <==> lease in leases && lease.owner in owners
    ensures |Retain(leases, owners)| <= |leases|
  {
    if leases != [] {
      RetainedMembers(leases[1..], owners);
      assert leases == [leases[0]] + leases[1..];
    }
  }

  /** Whatever is retained of the others still differs from the first lease and is younger. */
  lemma RetainedFollow(leases: seq<Lease>, owners: set<ScreenIdentity>, tick: nat, i: nat)
    requires LeasesInv(leases, tick) && leases != [] && i < |Retain(leases[1..], owners)|
    ensures var lease := Retain(leases[1..], owners)[i];
            leases[0].owner != lease.owner && leases[0].appearedAt < lease.appearedAt
  {
    hide Retain;
    RetainedMembers(leases[1..], owners);
    var lease := Retain(leases[1..], owners)[i];
    assert lease in leases[1..];
    var j :| 0 <= j < |leases[1..]| && leases[1..][j] == lease;
    assert leases[j + 1] == lease;
  }

  lemma {:induction false} RetainedInv(leases: seq<Lease>, owners: set<ScreenIdentity>, tick: nat)
    requires LeasesInv(leases, tick)
    ensures LeasesInv(Retain(leases, owners), tick)
  {
    if leases != [] {
      hide LeasesInv;
      TailInv(leases, tick);
      RetainedInv(leases[1..], owners, tick);
      var kept := Retain(leases[1..], owners);
      if leases[0].owner in owners {
        forall i | 0 <= i < |kept|
          ensures leases[0].owner != kept[i].owner && leases[0].appearedAt < kept[i].appearedAt
        {
          RetainedFollow(leases, owners, tick, i);
        }
        RetainedMembers(leases[1..], owners);
        FirstLease(leases, tick);
        PrependedInv(leases[0], kept, tick);
      }
    }
  }

  lemma FirstLease(leases: seq<Lease>, tick: nat)
    requires LeasesInv(leases, tick) && leases != []
    ensures leases[0].appearedAt < tick && |leases| <= MAX_LEASES
  {
  }

  lemma PrependedInv(first: Lease, rest: seq<Lease>, tick: nat)
    requires LeasesInv(rest, tick) && |rest| < MAX_LEASES && first.appearedAt < tick
    requires forall i :: 0 <= i < |rest| ==> first.owner != rest[i].owner && first.appearedAt < rest[i].appearedAt
    ensures LeasesInv([first] + rest, tick)
  {
  }

  lemma {:induction false} RetainAll(leases: seq<Lease>, owners: set<ScreenIdentity>)
    requires Owners(leases) <= owners
    ensures Retain(leases, owners) == leases
  {
    if leases != [] {
      assert leases[0].owner in Owners(leases);
      forall o | o in Owners(leases[1..]) ensures o in owners {
        var i :| 0 <= i < |leases[1..]| && leases[1..][i].owner == o;
        assert leases[i + 1].owner in Owners(leases);
      }
      RetainAll(leases[1..], owners);
    }
  }

  lemma TailInv(leases: seq<Lease>, tick: nat)
    requires LeasesInv(leases, tick) && leases != []
    ensures LeasesInv(leases[1..], tick)
  {
  }

  /** Under the invariant at most the first lease has to go, and it is the oldest. */
  lemma WithRoomFacts(leases: seq<Lease>, tick: nat)
    requires LeasesInv(leases, tick)
    ensures WithRoom(leases) == if |leases| == MAX_LEASES then leases[1..] else leases
  {
    if |leases| == MAX_LEASES {
      assert Oldest(leases) == 0;
      assert leases[..0] + leases[1..] == leases[1..];
    }
  }

  lemma AppendedInv(leases: seq<Lease>, lease: Lease, tick: nat)
    requires LeasesInv(leases, tick) && |leases| < MAX_LEASES
    requires forall i :: 0 <= i < |leases| ==> leases[i].owner != lease.owner
    requires lease.appearedAt == tick
    ensures LeasesInv(leases + [lease], tick + 1)
  {
  }

  lemma UpdatedInv(leases: seq<Lease>, i: nat, lease: Lease, tick: nat)
    requires LeasesInv(leases, tick) && i < |leases|
    requires lease.owner == leases[i].owner && lease.appearedAt == leases[i].appearedAt
    ensures LeasesInv(leases[i := lease], tick)
  {
  }

  lemma WithRoomInv(leases: seq<Lease>, owner: ScreenIdentity, tick: nat)
    requires LeasesInv(leases, tick) && IndexOf(leases, owner).None?
    ensures LeasesInv(WithRoom(leases), tick) && |WithRoom(leases)| < MAX_LEASES
    ensures forall i :: 0 <= i < |WithRoom(leases)| ==> WithRoom(leases)[i].owner != owner
  {
    WithRoomFacts(leases, tick);
    hide WithRoom, IndexOf;
    if |leases| == MAX_LEASES {
      TailInv(leases, tick);
    }
  }

  lemma InsertedInv(screens: Screens, owner: ScreenIdentity, key: CacheKey, column: LeaseColumn)
    requires Inv(screens) && IndexOf(screens.leases, owner).None?
    ensures Inv(screens.InsertOrUpdate(owner, key, column))
  {
    WithRoomInv(screens.leases, owner, screens.nextTick);
    var kept := WithRoom(screens.leases);
    AppendedInv(kept, Lease(owner, key, column, NextDepth(kept, column), screens.nextTick, None), screens.nextTick);
  }

  lemma InsertOrUpdateInv(screens: Screens, owner: ScreenIdentity, key: CacheKey, column: LeaseColumn)
    requires Inv(screens)
    ensures Inv(screens.InsertOrUpdate(owner, key, column))
    ensures screens.InsertOrUpdate(owner, key, column).claimed == screens.claimed
  {
    match IndexOf(screens.leases, owner)
    case Some(i) =>
      var after := screens.InsertOrUpdate(owner, key, column);
      UpdatedInv(screens.leases, i, after.leases[i], screens.nextTick);
    case None =>
      InsertedInv(screens, owner, key, column);
  }

  lemma {:induction false} InsertMissingInv(screens: Screens, visible: Visible)
    requires Inv(screens)
    ensures Inv(screens.InsertMissing(visible))
    ensures screens.InsertMissing(visible).claimed == screens.claimed
  {
    if visible != [] {
      var before := screens.InsertMissing(visible[..|visible| - 1]);
      InsertMissingInv(screens, visible[..|visible| - 1]);
      var (owner, column) := visible[|visible| - 1];
      InsertOrUpdateInv(before, owner, OwnKey(owner), column);
    }
  }

  /** Placing moves leases between columns; who holds one, and everything else about it, stays. */
  lemma {:induction false} PlacedKeeps(leases: seq<Lease>, visible: Visible)
    ensures |Placed(leases, visible)| == |leases|
    ensures forall i :: 0 <= i < |leases| ==>
              leases[i].(column := Placed(leases, visible)[i].column, depth := Placed(leases, visible)[i].depth)
              == Placed(leases, visible)[i]
  {
    if visible != [] {
      PlacedKeeps(leases, visible[..|visible| - 1]);
    }
  }

  lemma SyncVisibleInv(screens: Screens, visible: Visible)
    requires Inv(screens)
    ensures Inv(screens.SyncVisible(visible))
    ensures screens.SyncVisible(visible).claimed == screens.claimed
  {
    RetainedInv(screens.leases, VisibleOwners(visible), screens.nextTick);
    var kept := screens.(leases := Retain(screens.leases, VisibleOwners(visible)));
    InsertMissingInv(kept, visible);
    PlacedKeeps(kept.InsertMissing(visible).leases, visible);
  }

  lemma ClaimRefreshInv(screens: Screens, owner: ScreenIdentity, key: CacheKey)
    requires Inv(screens)
    ensures Inv(screens.ClaimRefresh(owner, key).0)
  {
  }

  lemma {:induction false} DeepestIsAnUpperBound(leases: seq<Lease>, column: LeaseColumn)
    ensures forall i :: 0 <= i < |leases| && leases[i].column == column ==> leases[i].depth <= DeepestIn(leases, column)
  {
    if leases != [] {
      DeepestIsAnUpperBound(leases[1..], column);
      assert forall i :: 1 <= i < |leases| ==> leases[i] == leases[1..][i - 1];
    }
  }

  lemma InsertedLease(screens: Screens, owner: ScreenIdentity, key: CacheKey, column: LeaseColumn)
    requires Inv(screens) && IndexOf(screens.leases, owner).None?
    ensures var kept := if |screens.leases| == MAX_LEASES then screens.leases[1..] else screens.leases;
            screens.InsertOrUpdate(owner, key, column).leases
            == kept + [Lease(owner, key, column, DeepestIn(kept, column) + 1, screens.nextTick, None)]
  {
    WithRoomFacts(screens.leases, screens.nextTick);
    hide WithRoom, IndexOf, Inv;
  }

  /** A screen that registers for the first time is on top of its column; if there was no room,
      exactly the lease that appeared first made way for it. */
  lemma NewcomerIsTopmost(screens: Screens, owner: ScreenIdentity, key: CacheKey, column: LeaseColumn)
    requires Inv(screens) && IndexOf(screens.leases, owner).None?
    ensures var after := screens.InsertOrUpdate(owner, key, column).leases;
            && TopmostIn(after, column) == Some(|after| - 1)
            && after[|after| - 1].owner == owner && after[|after| - 1].key == key
            && after[|after| - 1].seenRevision == None && after[|after| - 1].appearedAt == screens.nextTick
            && after[..|after| - 1] == if |screens.leases| == MAX_LEASES then screens.leases[1..] else screens.leases
  {
    hide Inv, IndexOf, TopmostIn, DeepestIn, Screens.InsertOrUpdate;
    InsertedLease(screens, owner, key, column);
    var kept := if |screens.leases| == MAX_LEASES then screens.leases[1..] else screens.leases;
    var lease := Lease(owner, key, column, DeepestIn(kept, column) + 1, screens.nextTick, None);
    DeepestIsAnUpperBound(kept, column);
    LastIsTopmost(kept, lease);
    assert (kept + [lease])[..|kept|] == kept && (kept + [lease])[|kept|] == lease;
  }

  lemma LastIsTopmost(leases: seq<Lease>, lease: Lease)
    requires forall i :: 0 <= i < |leases| && leases[i].column == lease.column ==> leases[i].depth < lease.depth
    ensures TopmostIn(leases + [lease], lease.column) == Some(|leases|)
  {
    hide TopmostIn;
    var longer := leases + [lease];
    var top := TopmostIn(longer, lease.column);
    assert longer[|leases|] == lease;
    assert forall i :: 0 <= i < |leases| ==> longer[i] == leases[i];
  }

  /** Registering again keeps the lease itself; a screen that changes column comes out on top
      there, one that does not stays where it is, and nobody else is touched. */
  lemma ReregisteringKeepsLease(screens: Screens, owner: ScreenIdentity, key: CacheKey, column: LeaseColumn)
    requires Inv(screens) && IndexOf(screens.leases, owner).Some?
    ensures var i := IndexOf(screens.leases, owner).value;
            var before, after := screens.leases, screens.InsertOrUpdate(owner, key, column).leases;
            && |after| == |before| && (forall k :: 0 <= k < |before| && k != i ==> after[k] == before[k])
            && after[i] == before[i].(key := key, column := column, depth := after[i].depth)
            && (before[i].column == column ==> after[i].depth == before[i].depth)
            && (before[i].column != column ==> TopmostIn(after, column) == Some(i))
  {
    hide IndexOf, DeepestIn, TopmostIn;
    var i := IndexOf(screens.leases, owner).value;
    var after := screens.InsertOrUpdate(owner, key, column).leases;
    DeepestIsAnUpperBound(screens.leases, column);
    if screens.leases[i].column != column {
      assert after[i].depth == NextDepth(screens.leases, column);
      var top := TopmostIn(after, column);
      assert top == Some(i);
    }
  }

  /** Releasing takes away the owner's lease and leaves every other one as it is. */
  lemma ReleaseDropsOnlyTheOwners(screens: Screens, owner: ScreenIdentity)
    ensures forall lease :: lease in screens.Release(owner).leases <==> lease in screens.leases && lease.owner != owner
    ensures screens.Release(owner).claimed == screens.claimed
  {
    RetainedMembers(screens.leases, Owners(screens.leases) - {owner});
    forall lease | lease in screens.leases ensures lease.owner in Owners(screens.leases) {
      var i :| 0 <= i < |screens.leases| && screens.leases[i] == lease;
    }
  }

  // ------------------------------------------------------- every run

  datatype Action =
    | DoRegister(owner: ScreenIdentity, key: CacheKey, column: LeaseColumn)
    | DoRelease(owner: ScreenIdentity)
    | DoSync(visible: Visible)
    | DoNote(key: CacheKey, revision: nat)
    | DoClaim(owner: ScreenIdentity, key: CacheKey)
    | DoBeginCycle(reason: RefreshReason)

  function Step(screens: Screens, action: Action): Screens {
    match action
    case DoRegister(owner, key, column) => screens.InsertOrUpdate(owner, key, column)
    case DoRelease(owner) => screens.Release(owner)
    case DoSync(visible) => screens.SyncVisible(visible)
    case DoNote(key, revision) => screens.NoteRevision(key, revision)
    case DoClaim(owner, key) => screens.ClaimRefresh(owner, key).0
    case DoBeginCycle(reason) => screens.BeginCycle(reason)
  }

  function Run(screens: Screens, actions: seq<Action>): Screens {
    if actions == [] then screens else Step(Run(screens, actions[..|actions| - 1]), actions[|actions| - 1])
  }

  lemma StepInv(screens: Screens, action: Action)
    requires Inv(screens)
    ensures Inv(Step(screens, action))
    ensures !action.DoClaim? && !action.DoBeginCycle? ==> Step(screens, action).claimed == screens.claimed
  {
    match action
    case DoRegister(owner, key, column) => InsertOrUpdateInv(screens, owner, key, column);
    case DoRelease(owner) => RetainedInv(screens.leases, Owners(screens.leases) - {owner}, screens.nextTick);
    case DoSync(visible) => SyncVisibleInv(screens, visible);
    case DoNote(key, revision) =>
    case DoClaim(owner, key) => ClaimRefreshInv(screens, owner, key);
    case DoBeginCycle(reason) =>
  }

  lemma {:induction false} EveryRunKeepsInv(screens: Screens, actions: seq<Action>)
    requires Inv(screens)
    ensures Inv(Run(screens, actions))
  {
    if actions != [] {
      EveryRunKeepsInv(screens, actions[..|actions| - 1]);
      StepInv(Run(screens, actions[..|actions| - 1]), actions[|actions| - 1]);
    }
  }

  // ------------------------------------------------------- one refresh per key and cycle

  /** What the claims among `actions` were granted, in order. */
  function Grants(screens: Screens, actions: seq<Action>): seq<CacheKey> {
    if actions == [] then []
    else
      var earlier := actions[..|actions| - 1];
      var action := actions[|actions| - 1];
      Grants(screens, earlier) +
      (if action.DoClaim? && Run(screens, earlier).ClaimRefresh(action.owner, action.key).1.Some?
       then [action.key] else [])
  }

  ghost predicate WithinOneCycle(actions: seq<Action>) {
    forall i :: 0 <= i < |actions| ==> !actions[i].DoBeginCycle?
  }

  function Last<T>(s: seq<T>, n: nat): seq<T> {
    if |s| <= n then s else s[|s| - n..]
  }

  /** Within a cycle the claim record is exactly the last 128 grants, whatever is registered,
      released or rearranged in between. */
  lemma {:induction false} ClaimedIsLastGrants(screens: Screens, actions: seq<Action>)
    requires Inv(screens) && screens.claimed == []
    requires WithinOneCycle(actions)
    ensures Run(screens, actions).claimed == Last(Grants(screens, actions), 128)
  {
    NothingIsLast<CacheKey>(128);
    hide Inv, Last, Screens.ClaimRefresh, Screens.InsertOrUpdate, Screens.SyncVisible, Screens.Release;
    if actions != [] {
      var earlier := actions[..|actions| - 1];
      var action := actions[|actions| - 1];
      assert forall i :: 0 <= i < |earlier| ==> earlier[i] == actions[i];
      ClaimedIsLastGrants(screens, earlier);
      EveryRunKeepsInv(screens, earlier);
      StepInv(Run(screens, earlier), action);
      assert !action.DoBeginCycle?;
      if action.DoClaim? {
        ClaimAppends(Run(screens, earlier), action.owner, action.key, Grants(screens, earlier));
      }
    }
  }

  lemma NothingIsLast<T>(n: nat)
    ensures Last<T>([], n) == []
  {
  }

  lemma ClaimAppends(screens: Screens, owner: ScreenIdentity, key: CacheKey, granted: seq<CacheKey>)
    requires screens.claimed == Last(granted, MAX_CLAIM_RECORDS)
    ensures var (after, grant) := screens.ClaimRefresh(owner, key);
            after.claimed == if grant.Some? then Last(granted + [key], MAX_CLAIM_RECORDS) else screens.claimed
  {
  }

  /** Two grants of one key in one cycle have at least 128 grants of other keys between them. */
  lemma {:induction false} GrantsOfOneKeyAreFarApart(screens: Screens, actions: seq<Action>, i: nat, j: nat)
    requires Inv(screens) && screens.claimed == []
    requires WithinOneCycle(actions)
    requires i < j < |Grants(screens, actions)|
    requires Grants(screens, actions)[i] == Grants(screens, actions)[j]
    ensures j - i - 1 >= 128
    decreases |actions|
  {
    var earlier := actions[..|actions| - 1];
    var action := actions[|actions| - 1];
    assert forall k :: 0 <= k < |earlier| ==> earlier[k] == actions[k];
    var before := Grants(screens, earlier);
    if j < |before| {
      GrantsOfOneKeyAreFarApart(screens, earlier, i, j);
    } else {
      ClaimedIsLastGrants(screens, earlier);
      assert action.key !in Last(before, MAX_CLAIM_RECORDS);
    }
  }

  /** So within a cycle a claim is granted exactly to a screen that may refresh, for a key that is
      not among the last 128 granted. */
  lemma ClaimGrantedIff(screens: Screens, actions: seq<Action>, owner: ScreenIdentity, key: CacheKey)
    requires Inv(screens) && screens.claimed == []
    requires WithinOneCycle(actions)
    ensures Run(screens, actions).ClaimRefresh(owner, key).1.Some?
            <==> Run(screens, actions).IsEligible(owner) && key !in Last(Grants(screens, actions), 128)
  {
    ClaimedIsLastGrants(screens, actions);
  }

  /** Nothing but beginning a cycle ever begins one. */
  lemma {:induction false} CycleIsKept(screens: Screens, actions: seq<Action>)
    requires WithinOneCycle(actions)
    ensures Run(screens, actions).cycle == screens.cycle && Run(screens, actions).reason == screens.reason
  {
    if actions != [] {
      var earlier := actions[..|actions| - 1];
      assert forall i :: 0 <= i < |earlier| ==> earlier[i] == actions[i];
      CycleIsKept(screens, earlier);
      StepKeepsCycle(Run(screens, earlier), actions[|actions| - 1]);
    }
  }

  lemma StepKeepsCycle(screens: Screens, action: Action)
    requires !action.DoBeginCycle?
    ensures Step(screens, action).cycle == screens.cycle && Step(screens, action).reason == screens.reason
  {
    match action
    case DoRegister(_, _, _) =>
    case DoRelease(_) =>
    case DoSync(visible) =>
      InsertMissingKeepsCycle(screens.(leases := Retain(screens.leases, VisibleOwners(visible))), visible);
    case DoNote(_, _) =>
    case DoClaim(_, _) =>
  }

  lemma {:induction false} InsertMissingKeepsCycle(screens: Screens, visible: Visible)
    ensures screens.InsertMissing(visible).cycle == screens.cycle
    ensures screens.InsertMissing(visible).reason == screens.reason
  {
    if visible != [] {
      InsertMissingKeepsCycle(screens, visible[..|visible| - 1]);
    }
  }

  /** A new cycle lets every key be claimed again, once, by whoever may refresh. */
  lemma NewCycleRearms(screens: Screens, reason: RefreshReason, owner: ScreenIdentity, key: CacheKey)
    ensures var begun := screens.BeginCycle(reason);
            var (after, grant) := begun.ClaimRefresh(owner, key);
            && (grant.Some? <==> screens.IsEligible(owner))
            && (grant.Some? ==>
                  grant.value.cycle == screens.cycle + 1 && grant.value.reason == reason && grant.value.key == key)
            && (grant.Some? ==> forall other :: after.ClaimRefresh(other, key).1.None?)
  {
    hide IndexOf, TopmostIn;
    assert screens.BeginCycle(reason).IsEligible(owner) == screens.IsEligible(owner);
    var (after, grant) := screens.BeginCycle(reason).ClaimRefresh(owner, key);
    if grant.Some? {
      assert key in after.claimed;
    }
  }

  // ------------------------------------------------------- eligibility

  /** A lease may refresh exactly when it is the topmost of the overlays or, with none open,
      of its own column. */
  lemma EligibleIff(screens: Screens, i: nat)
    requires Inv(screens) && i < |screens.leases|
    ensures var overlay := TopmostIn(screens.leases, Overlay);
            screens.IsEligible(screens.leases[i].owner)
            <==> Some(i) == if overlay.Some? then overlay else TopmostIn(screens.leases, screens.leases[i].column)
  {
    hide TopmostIn, IndexOf;
    assert IndexOf(screens.leases, screens.leases[i].owner) == Some(i);
  }

  ghost predicate Occupied(leases: seq<Lease>, column: LeaseColumn) {
    exists i :: 0 <= i < |leases| && leases[i].column == column
  }

  ghost predicate OnlyEligibleIn(screens: Screens, i: nat, column: LeaseColumn) {
    && i < |screens.leases|
    && screens.leases[i].column == column
    && forall j :: 0 <= j < |screens.leases| && screens.leases[j].column == column ==>
         (screens.IsEligible(screens.leases[j].owner) <==> j == i)
  }

  /** With no sheet open each occupied column has exactly one screen that may refresh. */
  lemma OneEligiblePerColumn(screens: Screens, column: LeaseColumn)
    requires Inv(screens)
    requires Occupied(screens.leases, column) && !Occupied(screens.leases, Overlay)
    ensures exists i :: OnlyEligibleIn(screens, i, column)
  {
    var top := TopmostIn(screens.leases, column).value;
    forall j | 0 <= j < |screens.leases| && screens.leases[j].column == column
      ensures screens.IsEligible(screens.leases[j].owner) <==> j == top
    {
      EligibleIff(screens, j);
    }
    assert OnlyEligibleIn(screens, top, column);
  }

  /** With a sheet open exactly one screen in the whole window may refresh, and it is a sheet. */
  lemma OneEligibleUnderOverlay(screens: Screens)
    requires Inv(screens)
    requires Occupied(screens.leases, Overlay)
    ensures exists i :: OnlyEligibleIn(screens, i, Overlay)
    ensures forall j :: 0 <= j < |screens.leases| && screens.leases[j].column != Overlay ==>
              !screens.IsEligible(screens.leases[j].owner)
  {
    var top := TopmostIn(screens.leases, Overlay).value;
    forall j | 0 <= j < |screens.leases|
      ensures screens.IsEligible(screens.leases[j].owner) <==> j == top
    {
      EligibleIff(screens, j);
    }
    assert OnlyEligibleIn(screens, top, Overlay);
  }

  /** Some screen is focused as long as any is on show, and the focused screen may refresh. */
  lemma FocusedIsEligible(screens: Screens)
    requires Inv(screens)
    ensures screens.Focused().Some? <==> screens.leases != []
    ensures screens.Focused().Some? ==> screens.IsEligible(screens.Focused().value)
  {
    hide TopmostIn;
    if screens.leases != [] {
      match screens.leases[0].column { case Primary => case Secondary => case Tertiary => case Overlay => }
      assert screens.FocusedIndex().Some?;
      FocusedIsATop(screens);
      EligibleIff(screens, screens.FocusedIndex().value);
    }
  }

  lemma FocusedIsATop(screens: Screens)
    requires screens.FocusedIndex().Some?
    ensures var top := screens.FocusedIndex().value;
            && TopmostIn(screens.leases, screens.leases[top].column) == Some(top)
            && (TopmostIn(screens.leases, Overlay).Some? ==> TopmostIn(screens.leases, Overlay) == Some(top))
  {
    hide TopmostIn;
  }

  /** From left to right, with what lies over the columns last. */
  function Rank(column: LeaseColumn): nat {
    match column
    case Primary => 0
    case Secondary => 1
    case Tertiary => 2
    case Overlay => 3
  }

  /** The focused screen is the topmost one of the rightmost column that has any, an overlay before
      all others. */
  lemma FocusIsRightmost(screens: Screens, i: nat)
    requires screens.FocusedIndex().Some? && i < |screens.leases|
    ensures var focused := screens.leases[screens.FocusedIndex().value];
            && screens.Focused() == Some(focused.owner)
            && Rank(screens.leases[i].column) <= Rank(focused.column)
            && (screens.leases[i].column == focused.column ==>
                  || screens.leases[i].depth < focused.depth
                  || (screens.leases[i].depth == focused.depth && screens.leases[i].appearedAt <= focused.appearedAt))
  {
    hide TopmostIn;
  }

  // ------------------------------------------------------- synchronising with what is visible

  lemma OwnersOfAppended(leases: seq<Lease>, lease: Lease)
    ensures Owners(leases + [lease]) == Owners(leases) + {lease.owner}
  {
    var longer := leases + [lease];
    assert longer[|leases|] == lease;
    forall i | 0 <= i < |leases| ensures leases[i].owner in Owners(longer) {
      assert longer[i] == leases[i];
    }
  }

  lemma {:induction false} OneLeasePerOwner(leases: seq<Lease>, tick: nat)
    requires LeasesInv(leases, tick)
    ensures |Owners(leases)| == |leases|
  {
    if leases != [] {
      var shorter := leases[..|leases| - 1];
      var last := leases[|leases| - 1];
      assert leases == shorter + [last];
      OneLeasePerOwner(shorter, tick);
      OwnersOfAppended(shorter, last);
      assert last.owner !in Owners(shorter);
    }
  }

  lemma InOwnersIff(leases: seq<Lease>, owner: ScreenIdentity)
    ensures owner in Owners(leases) <==> IndexOf(leases, owner).Some?
  {
  }

  lemma VisibleOwnersOfLonger(visible: Visible)
    requires visible != []
    ensures VisibleOwners(visible) == VisibleOwners(visible[..|visible| - 1]) + {visible[|visible| - 1].0}
  {
    var earlier := visible[..|visible| - 1];
    assert visible[|visible| - 1].0 in VisibleOwners(visible);
    forall o | o in VisibleOwners(earlier) ensures o in VisibleOwners(visible) {
      var i :| 0 <= i < |earlier| && earlier[i].0 == o;
      assert visible[i].0 == o;
    }
    forall o | o in VisibleOwners(visible) && o != visible[|visible| - 1].0 ensures o in VisibleOwners(earlier) {
      var i :| 0 <= i < |visible| && visible[i].0 == o;
      assert earlier[i].0 == o;
    }
  }

  /** An owner that still fits is appended; nobody is evicted for it. */
  lemma InsertThatFits(screens: Screens, owner: ScreenIdentity, column: LeaseColumn, all: set<ScreenIdentity>)
    requires Inv(screens) && IndexOf(screens.leases, owner).None?
    requires Owners(screens.leases) <= all && owner in all && |all| <= MAX_LEASES
    ensures var after := screens.InsertOrUpdate(owner, OwnKey(owner), column);
            screens.leases <= after.leases && Owners(after.leases) == Owners(screens.leases) + {owner}
  {
    OneLeasePerOwner(screens.leases, screens.nextTick);
    InOwnersIff(screens.leases, owner);
    ProperSubsetIsSmaller(Owners(screens.leases), all, owner);
    assert WithRoom(screens.leases) == screens.leases;
    OwnersOfAppended(screens.leases,
                     Lease(owner, OwnKey(owner), column, NextDepth(screens.leases, column), screens.nextTick, None));
  }

  lemma InsertIfMissing(screens: Screens, owner: ScreenIdentity, column: LeaseColumn, all: set<ScreenIdentity>)
    requires Inv(screens) && Owners(screens.leases) <= all && owner in all && |all| <= MAX_LEASES
    ensures var after := if IndexOf(screens.leases, owner).Some? then screens
                         else screens.InsertOrUpdate(owner, OwnKey(owner), column);
            && screens.leases <= after.leases && Owners(after.leases) == Owners(screens.leases) + {owner}
            && (owner in Owners(screens.leases) ==> after == screens)
  {
    hide IndexOf, Inv, Owners, Screens.InsertOrUpdate;
    InOwnersIff(screens.leases, owner);
    if IndexOf(screens.leases, owner).None? {
      InsertThatFits(screens, owner, column, all);
    }
  }

  lemma PrefixOfPrefix<T>(a: seq<T>, b: seq<T>, c: seq<T>)
    requires a <= b <= c
    ensures a <= c
  {
  }

  /** While the visible owners fit, inserting the missing ones evicts nothing. */
  lemma {:induction false} InsertMissingAddsAll(screens: Screens, visible: Visible, all: set<ScreenIdentity>)
    requires Inv(screens)
    requires Owners(screens.leases) <= all && VisibleOwners(visible) <= all && |all| <= MAX_LEASES
    ensures Owners(screens.InsertMissing(visible).leases) == Owners(screens.leases) + VisibleOwners(visible)
    ensures screens.leases <= screens.InsertMissing(visible).leases
    ensures VisibleOwners(visible) <= Owners(screens.leases) ==> screens.InsertMissing(visible) == screens
  {
    if visible != [] {
      hide IndexOf, Inv, Owners, VisibleOwners, Screens.InsertOrUpdate;
      var earlier := visible[..|visible| - 1];
      var (owner, column) := visible[|visible| - 1];
      var before := screens.InsertMissing(earlier);
      VisibleOwnersOfLonger(visible);
      InsertMissingAddsAll(screens, earlier, all);
      InsertMissingInv(screens, earlier);
      InsertIfMissing(before, owner, column, all);
      PrefixOfPrefix(screens.leases, before.leases, screens.InsertMissing(visible).leases);
    }
  }

  lemma ProperSubsetIsSmaller<T>(part: set<T>, all: set<T>, missing: T)
    requires part <= all && missing in all && missing !in part
    ensures |part| < |all|
  {
    SubsetIsNoLarger(part, all - {missing});
  }

  lemma {:induction false} SubsetIsNoLarger<T>(part: set<T>, all: set<T>)
    requires part <= all
    ensures |part| <= |all|
  {
    if part != {} {
      var x :| x in part;
      SubsetIsNoLarger(part - {x}, all - {x});
    }
  }

  /** A lease with nothing but its owner's own data: no revision of it has been seen yet. */
  predicate IsNew(lease: Lease) {
    lease.key == lease.owner.resourceKey && lease.seenRevision.None?
  }

  /** The leases that inserting adds are new ones. */
  lemma {:induction false} InsertedAreNew(screens: Screens, visible: Visible, all: set<ScreenIdentity>)
    requires Inv(screens)
    requires Owners(screens.leases) <= all && VisibleOwners(visible) <= all && |all| <= MAX_LEASES
    ensures var after := screens.InsertMissing(visible).leases;
            forall i :: |screens.leases| <= i < |after| ==> IsNew(after[i])
  {
    if visible != [] {
      var earlier := visible[..|visible| - 1];
      var before := screens.InsertMissing(earlier);
      VisibleOwnersOfLonger(visible);
      InsertedAreNew(screens, earlier, all);
      InsertMissingAddsAll(screens, earlier, all);
      InsertMissingInv(screens, earlier);
      OneMoreIsNew(before, visible[|visible| - 1].0, visible[|visible| - 1].1, all);
    }
  }

  lemma OneMoreIsNew(screens: Screens, owner: ScreenIdentity, column: LeaseColumn, all: set<ScreenIdentity>)
    requires Inv(screens) && Owners(screens.leases) <= all && owner in all && |all| <= MAX_LEASES
    ensures IndexOf(screens.leases, owner).None? ==>
              var after := screens.InsertOrUpdate(owner, OwnKey(owner), column).leases;
              |after| == |screens.leases| + 1 && screens.leases <= after && IsNew(after[|screens.leases|])
  {
    if IndexOf(screens.leases, owner).None? {
      InsertThatFits(screens, owner, column, all);
      OneLeasePerOwner(screens.leases, screens.nextTick);
      InOwnersIff(screens.leases, owner);
      ProperSubsetIsSmaller(Owners(screens.leases), all, owner);
      assert WithRoom(screens.leases) == screens.leases;
    }
  }

  /** The column and depth the last mention of `owner` gives it. */
  function LastPlace(visible: Visible, owner: ScreenIdentity): Option<(LeaseColumn, nat)> {
    if visible == [] then None
    else
      var (last, column) := visible[|visible| - 1];
      if last == owner then Some((column, CountColumn(visible, column)))
      else LastPlace(visible[..|visible| - 1], owner)
  }

  function PlacedLease(lease: Lease, visible: Visible): Lease {
    match LastPlace(visible, lease.owner)
    case None => lease
    case Some((column, depth)) => lease.(column := column, depth := depth)
  }

  lemma {:induction false} PlacedAt(leases: seq<Lease>, visible: Visible, i: nat, tick: nat)
    requires LeasesInv(leases, tick) && i < |leases|
    ensures |Placed(leases, visible)| == |leases|
    ensures Placed(leases, visible)[i] == PlacedLease(leases[i], visible)
  {
    PlacedKeeps(leases, visible);
    if visible != [] {
      var earlier := visible[..|visible| - 1];
      PlacedAt(leases, earlier, i, tick);
      PlacedKeeps(leases, earlier);
      var before := Placed(leases, earlier);
      var found := IndexOf(before, visible[|visible| - 1].0);
      if found.Some? {
        assert before[found.value].owner == leases[found.value].owner;
        assert before[i].owner == leases[i].owner;
      }
    }
  }

  lemma {:induction false} LastPlaceSomeIff(visible: Visible, owner: ScreenIdentity)
    ensures LastPlace(visible, owner).Some? <==> owner in VisibleOwners(visible)
  {
    if visible != [] {
      var earlier := visible[..|visible| - 1];
      LastPlaceSomeIff(earlier, owner);
      if owner in VisibleOwners(earlier) {
        var i :| 0 <= i < |earlier| && earlier[i].0 == owner;
        assert visible[i].0 == owner;
      }
      if owner in VisibleOwners(visible) {
        var i :| 0 <= i < |visible| && visible[i].0 == owner;
        assert i < |earlier| ==> earlier[i].0 == owner;
      }
    }
  }

  /** The lease list after a synchronisation that evicts nothing, lease by lease. */
  lemma SyncedLeases(screens: Screens, visible: Visible)
    requires Inv(screens) && |VisibleOwners(visible)| <= MAX_LEASES
    ensures var kept := Retain(screens.leases, VisibleOwners(visible));
            var shown := screens.(leases := kept).InsertMissing(visible).leases;
            var after := screens.SyncVisible(visible).leases;
            && kept <= shown && Owners(shown) == VisibleOwners(visible)
            && |after| == |shown|
            && forall i :: 0 <= i < |after| ==> after[i] == PlacedLease(shown[i], visible)
  {
    var all := VisibleOwners(visible);
    var kept := screens.(leases := Retain(screens.leases, all));
    RetainedMembers(screens.leases, all);
    RetainedInv(screens.leases, all, screens.nextTick);
    assert Owners(kept.leases) <= all by {
      forall i | 0 <= i < |kept.leases| ensures kept.leases[i].owner in all {
        assert kept.leases[i] in kept.leases;
      }
    }
    InsertMissingAddsAll(kept, visible, all);
    InsertMissingInv(kept, visible);
    var shown := kept.InsertMissing(visible);
    PlacedKeeps(shown.leases, visible);
    forall i | 0 <= i < |shown.leases|
      ensures screens.SyncVisible(visible).leases[i] == PlacedLease(shown.leases[i], visible)
    {
      PlacedAt(shown.leases, visible, i, shown.nextTick);
    }
  }

  lemma OwnersOfPlaced(before: seq<Lease>, after: seq<Lease>, visible: Visible)
    requires |after| == |before|
    requires forall i :: 0 <= i < |after| ==> after[i] == PlacedLease(before[i], visible)
    ensures Owners(after) == Owners(before)
  {
    assert forall i :: 0 <= i < |after| ==> after[i].owner == before[i].owner;
    forall o | o in Owners(before) ensures o in Owners(after) {
      var i :| 0 <= i < |before| && before[i].owner == o;
      assert after[i].owner == o;
    }
    forall o | o in Owners(after) ensures o in Owners(before) {
      var i :| 0 <= i < |after| && after[i].owner == o;
      assert before[i].owner == o;
    }
  }

  /** The leases are exactly the visible screens, as long as, and only if, they all fit. */
  lemma SyncShowsExactlyVisibleIff(screens: Screens, visible: Visible)
    requires Inv(screens)
    ensures Owners(screens.SyncVisible(visible).leases) == VisibleOwners(visible)
            <==> |VisibleOwners(visible)| <= 64
  {
    var after := screens.SyncVisible(visible);
    if |VisibleOwners(visible)| <= MAX_LEASES {
      SyncedLeases(screens, visible);
      OwnersOfPlaced(screens.(leases := Retain(screens.leases, VisibleOwners(visible))).InsertMissing(visible).leases,
                     after.leases, visible);
    } else {
      SyncVisibleInv(screens, visible);
      OneLeasePerOwner(after.leases, after.nextTick);
    }
  }

  /** A screen that stays visible keeps its lease: the key, when it appeared, what it has seen. */
  lemma SurvivorsKeepTheirLease(screens: Screens, visible: Visible, lease: Lease)
    requires Inv(screens) && |VisibleOwners(visible)| <= MAX_LEASES
    requires lease in screens.leases && lease.owner in VisibleOwners(visible)
    ensures PlacedLease(lease, visible) in screens.SyncVisible(visible).leases
  {
    RetainedMembers(screens.leases, VisibleOwners(visible));
    var kept := Retain(screens.leases, VisibleOwners(visible));
    var i :| 0 <= i < |kept| && kept[i] == lease;
    SyncedLeases(screens, visible);
    assert screens.SyncVisible(visible).leases[i] == PlacedLease(lease, visible);
  }

  /** A screen that becomes visible gets a lease of its own resource, of which nothing has been seen. */
  lemma NewcomersKeepTheirOwnKey(screens: Screens, visible: Visible, i: nat)
    requires Inv(screens) && |VisibleOwners(visible)| <= MAX_LEASES
    requires i < |screens.SyncVisible(visible).leases|
    requires screens.SyncVisible(visible).leases[i].owner !in Owners(screens.leases)
    ensures var lease := screens.SyncVisible(visible).leases[i];
            lease.key == lease.owner.resourceKey && lease.seenRevision.None?
  {
    var all := VisibleOwners(visible);
    var kept := screens.(leases := Retain(screens.leases, all));
    SyncedLeases(screens, visible);
    RetainedMembers(screens.leases, all);
    RetainedInv(screens.leases, all, screens.nextTick);
    RetainedOwners(screens.leases, all);
    hide Retain, IndexOf, LastPlace;
    InsertedAreNew(kept, visible, all);
  }

  lemma RetainedOwners(leases: seq<Lease>, owners: set<ScreenIdentity>)
    ensures Owners(Retain(leases, owners)) <= owners
    ensures forall i :: 0 <= i < |Retain(leases, owners)| ==> Retain(leases, owners)[i].owner in Owners(leases)
  {
    hide Retain;
    RetainedMembers(leases, owners);
    var kept := Retain(leases, owners);
    forall i | 0 <= i < |kept| ensures kept[i].owner in owners && kept[i].owner in Owners(leases) {
      assert kept[i] in kept;
      var j :| 0 <= j < |leases| && leases[j] == kept[i];
    }
  }

  lemma SyncAgainChangesNothing(screens: Screens, visible: Visible)
    requires Inv(screens) && |VisibleOwners(visible)| <= MAX_LEASES
    ensures screens.SyncVisible(visible).SyncVisible(visible) == screens.SyncVisible(visible)
  {
    var once := screens.SyncVisible(visible);
    SyncVisibleInv(screens, visible);
    SyncShowsExactlyVisibleIff(screens, visible);
    RetainAll(once.leases, VisibleOwners(visible));
    InsertMissingAddsAll(once, visible, VisibleOwners(visible));
    var twice := once.SyncVisible(visible);
    SyncedLeases(screens, visible);
    SyncedLeases(once, visible);
    assert forall i :: 0 <= i < |once.leases| ==> twice.leases[i] == once.leases[i];
    assert twice.leases == once.leases;
  }

  /** Every insertion takes a tick, so when none was taken nobody was missing. */
  lemma {:induction false} NoTickMeansNoneMissing(screens: Screens, visible: Visible)
    ensures screens.InsertMissing(visible).nextTick >= screens.nextTick
    ensures screens.InsertMissing(visible).nextTick == screens.nextTick ==>
              screens.InsertMissing(visible) == screens && VisibleOwners(visible) <= Owners(screens.leases)
  {
    if visible != [] {
      var earlier := visible[..|visible| - 1];
      NoTickMeansNoneMissing(screens, earlier);
      VisibleOwnersOfLonger(visible);
      InOwnersIff(screens.InsertMissing(earlier).leases, visible[|visible| - 1].0);
    }
  }

  lemma SyncAgainTakesTicks(screens: Screens, visible: Visible)
    requires Inv(screens) && |VisibleOwners(visible)| > MAX_LEASES
    ensures screens.SyncVisible(visible).nextTick > screens.nextTick
  {
    var kept := screens.(leases := Retain(screens.leases, VisibleOwners(visible)));
    RetainedInv(screens.leases, VisibleOwners(visible), screens.nextTick);
    OneLeasePerOwner(kept.leases, screens.nextTick);
    NoTickMeansNoneMissing(kept, visible);
    if VisibleOwners(visible) <= Owners(kept.leases) {
      SubsetIsNoLarger(VisibleOwners(visible), Owners(kept.leases));
    }
  }

  /** Synchronising twice with the same screens changes nothing the second time exactly when they
      all fit. */
  lemma SyncIsIdempotentIff(screens: Screens, visible: Visible)
    requires Inv(screens)
    ensures screens.SyncVisible(visible).SyncVisible(visible) == screens.SyncVisible(visible)
            <==> |VisibleOwners(visible)| <= 64
  {
    if |VisibleOwners(visible)| <= MAX_LEASES {
      SyncAgainChangesNothing(screens, visible);
    } else {
      SyncVisibleInv(screens, visible);
      SyncAgainTakesTicks(screens.SyncVisible(visible), visible);
    }
  }

  // ------------------------------------------------------- what a synchronisation makes eligible

  lemma {:induction false} CountColumnGrows(visible: Visible, shorter: nat, column: LeaseColumn)
    requires shorter <= |visible|
    ensures CountColumn(visible[..shorter], column) <= CountColumn(visible, column)
    decreases |visible|
  {
    if shorter == |visible| {
      assert visible[..shorter] == visible;
    } else {
      CountColumnGrows(visible[..|visible| - 1], shorter, column);
      assert visible[..|visible| - 1][..shorter] == visible[..shorter];
    }
  }

  ghost predicate EachOwnerOnce(visible: Visible) {
    forall i, j :: 0 <= i < j < |visible| ==> visible[i].0 != visible[j].0
  }

  lemma {:induction false} PlaceOfListed(visible: Visible, i: nat)
    requires EachOwnerOnce(visible) && i < |visible|
    ensures LastPlace(visible, visible[i].0) == Some((visible[i].1, CountColumn(visible[..i + 1], visible[i].1)))
    decreases |visible|
  {
    if i == |visible| - 1 {
      assert visible[..i + 1] == visible;
    } else {
      PlaceOfListed(visible[..|visible| - 1], i);
      assert visible[..|visible| - 1][..i + 1] == visible[..i + 1];
    }
  }

  /** Of the screens listed for one column, the last is the deepest. */
  lemma LaterIsDeeper(visible: Visible, i: nat, j: nat)
    requires EachOwnerOnce(visible) && i < j < |visible| && visible[i].1 == visible[j].1
    ensures LastPlace(visible, visible[i].0).Some? && LastPlace(visible, visible[j].0).Some?
    ensures LastPlace(visible, visible[i].0).value.1 < LastPlace(visible, visible[j].0).value.1
  {
    hide LastPlace, EachOwnerOnce;
    PlaceOfListed(visible, i);
    PlaceOfListed(visible, j);
    CountBefore(visible, i, j);
  }

  lemma CountBefore(visible: Visible, i: nat, j: nat)
    requires i < j < |visible| && visible[i].1 == visible[j].1
    ensures CountColumn(visible[..i + 1], visible[i].1) < CountColumn(visible[..j + 1], visible[j].1)
  {
    CountColumnGrows(visible[..j], i + 1, visible[i].1);
    assert visible[..j][..i + 1] == visible[..i + 1];
    assert visible[..j + 1][..j] == visible[..j];
  }

  /** After a synchronisation the topmost screen of a column is the last one listed for it. */
  lemma LastListedIsTopmost(screens: Screens, visible: Visible, i: nat)
    requires Inv(screens) && |VisibleOwners(visible)| <= MAX_LEASES
    requires EachOwnerOnce(visible) && i < |visible|
    requires forall j :: i < j < |visible| ==> visible[j].1 != visible[i].1
    ensures var leases := screens.SyncVisible(visible).leases;
            var top := TopmostIn(leases, visible[i].1);
            top.Some? && leases[top.value].owner == visible[i].0
  {
    hide TopmostIn, LastPlace, CountColumn;
    var leases := screens.SyncVisible(visible).leases;
    SyncShowsExactlyVisibleIff(screens, visible);
    var (owner, column) := visible[i];
    assert owner in VisibleOwners(visible);
    var k :| 0 <= k < |leases| && leases[k].owner == owner;
    SyncedPlace(screens, visible, k, i);
    var top := TopmostIn(leases, column).value;
    assert leases[top].owner in VisibleOwners(visible) by { assert leases[top].owner in Owners(leases); }
    var j :| 0 <= j < |visible| && visible[j].0 == leases[top].owner;
    SyncedPlace(screens, visible, top, j);
    if j < i {
      LaterIsDeeper(visible, j, i);
    }
  }

  /** A lease has the column and depth of the place its owner is listed at. */
  lemma SyncedPlace(screens: Screens, visible: Visible, k: nat, i: nat)
    requires Inv(screens) && |VisibleOwners(visible)| <= MAX_LEASES && EachOwnerOnce(visible) && i < |visible|
    requires k < |screens.SyncVisible(visible).leases| && screens.SyncVisible(visible).leases[k].owner == visible[i].0
    ensures var lease := screens.SyncVisible(visible).leases[k];
            && lease.column == visible[i].1
            && LastPlace(visible, visible[i].0) == Some((lease.column, lease.depth))
  {
    hide LastPlace, CountColumn, Retain;
    SyncedLeases(screens, visible);
    PlaceOfListed(visible, i);
  }

  // ------------------------------------------------------- revisions

  function Newer(a: Option<nat>, b: nat): Option<nat> {
    Some(if a.None? then b else Max(a.value, b))
  }

  /** A noted revision reaches every later grant of its key while a lease holds the key, and a
      stale one never replaces a newer. */
  lemma {:induction false} NotedRevisionReachesGrants(screens: Screens, key: CacheKey, revision: nat, asked: CacheKey)
    ensures var held := exists i :: 0 <= i < |screens.leases| && screens.leases[i].key == key;
            SeenRevision(screens.NoteRevision(key, revision).leases, asked)
            == if asked == key && held then Newer(SeenRevision(screens.leases, key), revision)
               else SeenRevision(screens.leases, asked)
    decreases |screens.leases|
  {
    if screens.leases != [] {
      var rest := screens.(leases := screens.leases[1..]);
      NotedRevisionReachesGrants(rest, key, revision, asked);
      var noted := screens.NoteRevision(key, revision).leases;
      assert noted[1..] == rest.NoteRevision(key, revision).leases;
      if exists i :: 0 <= i < |screens.leases| && screens.leases[i].key == key {
        if screens.leases[0].key != key {
          var i :| 0 <= i < |screens.leases| && screens.leases[i].key == key;
          assert rest.leases[i - 1].key == key;
        }
      } else {
        assert forall i :: 0 <= i < |rest.leases| ==> rest.leases[i].key == screens.leases[i + 1].key;
      }
      if SeenRevision(rest.leases, key).Some? {
        HeldIfSeen(rest.leases, key);
      }
    }
  }

  /** Every lease of the key remembers it, so that it survives the others, and no other lease is
      touched. */
  lemma EveryLeaseOfKeyNotes(screens: Screens, key: CacheKey, revision: nat)
    ensures var before, after := screens.leases, screens.NoteRevision(key, revision).leases;
            && |after| == |before|
            && (forall i :: 0 <= i < |before| && before[i].key != key ==> after[i] == before[i])
            && (forall i :: 0 <= i < |before| && before[i].key == key ==>
                  after[i] == before[i].(seenRevision := Newer(before[i].seenRevision, revision)))
  {
  }

  /** A grant carries it: what the screen is to fetch beyond. */
  lemma GrantCarriesNewest(screens: Screens, key: CacheKey, revision: nat, owner: ScreenIdentity)
    requires exists i :: 0 <= i < |screens.leases| && screens.leases[i].key == key
    ensures var grant := screens.NoteRevision(key, revision).ClaimRefresh(owner, key).1;
            grant.Some? ==>
              grant.value == RefreshGrant(screens.cycle, screens.reason, key,
                                          Newer(SeenRevision(screens.leases, key), revision))
  {
    NotedRevisionReachesGrants(screens, key, revision, key);
  }

  /** What has been seen of a key is the greatest revision any lease of it has seen. */
  lemma {:induction false} SeenIsGreatest(leases: seq<Lease>, key: CacheKey)
    ensures var seen := SeenRevision(leases, key);
            && (forall i :: 0 <= i < |leases| && leases[i].key == key && leases[i].seenRevision.Some? ==>
                  seen.Some? && leases[i].seenRevision.value <= seen.value)
            && (seen.Some? ==> exists i :: 0 <= i < |leases| && leases[i].key == key && leases[i].seenRevision == seen)
  {
    if leases != [] {
      var rest := leases[1..];
      SeenIsGreatest(rest, key);
      assert forall i :: 1 <= i < |leases| ==> leases[i] == rest[i - 1];
      var seen := SeenRevision(rest, key);
      if seen.Some? {
        var i :| 0 <= i < |rest| && rest[i].key == key && rest[i].seenRevision == seen;
        assert leases[i + 1].seenRevision == seen;
      }
    }
  }

  lemma {:induction false} HeldIfSeen(leases: seq<Lease>, key: CacheKey)
    requires SeenRevision(leases, key).Some?
    ensures exists i :: 0 <= i < |leases| && leases[i].key == key
  {
    if leases[0].key == key {
    } else {
      HeldIfSeen(leases[1..], key);
      var i :| 0 <= i < |leases[1..]| && leases[1..][i].key == key;
      assert leases[i + 1].key == key;
    }
  }
}
