/** The registry itself: the same operations as in-place updates of its fields. */
module ActiveScreensRegistry {
  import opened Options
  import opened Basics
  import opened ActiveScreensModel

  class ActiveScreens {
    var leases: seq<Lease>
    var claimed: seq<CacheKey>
    var cycle: nat
    var reason: RefreshReason
    var nextTick: nat

    function View(): Screens
      reads this
    {
      Screens(leases, claimed, cycle, reason, nextTick)
    }

    constructor ()
      ensures View() == EMPTY
    {
      leases, claimed, cycle, reason, nextTick := [], [], 0, ColdStart, 0;
    }

    method Register(owner: ScreenIdentity, key: CacheKey, column: LeaseColumn) returns (lease: Lease)
      modifies this
      ensures View() == old(View()).InsertOrUpdate(owner, key, column)
      ensures lease in leases && lease.owner == owner && lease.key == key && lease.column == column
    {
      var index := InsertOrUpdate(owner, key, column);
      lease := leases[index];
    }

    method Release(owner: ScreenIdentity)
      modifies this`leases
      ensures View() == old(View()).Release(owner)
    {
      leases := Retain(leases, Owners(leases) - {owner});
    }

    method SyncVisible(visible: Visible)
      modifies this`leases, this`nextTick
      ensures View() == old(View()).SyncVisible(visible)
    {
      leases := Retain(leases, VisibleOwners(visible));
      InsertMissing(visible);
      Place(visible);
    }

    method InsertMissing(visible: Visible)
      modifies this`leases, this`nextTick
      ensures View() == old(View()).InsertMissing(visible)
    {
      for i := 0 to |visible|
        invariant View() == old(View()).InsertMissing(visible[..i])
      {
        assert visible[..i + 1][..i] == visible[..i];
        var (owner, column) := visible[i];
        if IndexOf(leases, owner).None? {
          var _ := InsertOrUpdate(owner, OwnKey(owner), column);
        }
      }
      assert visible[..|visible|] == visible;
    }

    method Place(visible: Visible)
      modifies this`leases
      ensures leases == Placed(old(leases), visible)
    {
      var nextDepth := map[Primary := 0, Secondary := 0, Tertiary := 0, Overlay := 0];
      forall c: LeaseColumn ensures c in nextDepth && nextDepth[c] == CountColumn(visible[..0], c) {
        match c case Primary => case Secondary => case Tertiary => case Overlay =>
      }
      for i := 0 to |visible|
        invariant leases == Placed(old(leases), visible[..i])
        invariant forall c: LeaseColumn :: c in nextDepth && nextDepth[c] == CountColumn(visible[..i], c)
      {
        assert visible[..i + 1][..i] == visible[..i];
        var (owner, column) := visible[i];
        nextDepth := nextDepth[column := nextDepth[column] + 1];
        var index := IndexOf(leases, owner);
        if index.Some? {
          leases := leases[index.value := leases[index.value].(column := column, depth := nextDepth[column])];
        }
      }
      assert visible[..|visible|] == visible;
    }

    method BeginCycle(why: RefreshReason) returns (begun: nat)
      modifies this`cycle, this`reason, this`claimed
      ensures View() == old(View()).BeginCycle(why)
      ensures begun == cycle
    {
      cycle := cycle + 1;
      reason := why;
      claimed := [];
      return cycle;
    }

    method ClaimRefresh(owner: ScreenIdentity, key: CacheKey) returns (grant: Option<RefreshGrant>)
      modifies this`claimed
      ensures (View(), grant) == old(View()).ClaimRefresh(owner, key)
    {
      if !View().IsEligible(owner) || key in claimed {
        return None;
      }
      ghost var dropped := 0;
      while |claimed| >= MAX_CLAIM_RECORDS
        invariant dropped <= |old(claimed)| && claimed == old(claimed)[dropped..]
        invariant dropped > 0 ==> |claimed| >= MAX_CLAIM_RECORDS - 1
      {
        claimed := claimed[1..];
        dropped := dropped + 1;
      }
      claimed := claimed + [key];
      return Some(RefreshGrant(cycle, reason, key, SeenRevision(leases, key)));
    }

    method NoteRevision(key: CacheKey, revision: nat)
      modifies this`leases
      ensures View() == old(View()).NoteRevision(key, revision)
    {
      for i := 0 to |leases|
        invariant |leases| == |old(leases)|
        invariant forall k :: 0 <= k < |leases| ==>
                    leases[k] == if k < i then Noted(old(leases)[k], key, revision) else old(leases)[k]
      {
        if leases[i].key == key {
          var seen := match leases[i].seenRevision
                      case Some(known) => Max(known, revision)
                      case None => revision;
          leases := leases[i := leases[i].(seenRevision := Some(seen))];
        }
      }
    }

    method InsertOrUpdate(owner: ScreenIdentity, key: CacheKey, column: LeaseColumn) returns (index: nat)
      modifies this`leases, this`nextTick
      ensures View() == old(View()).InsertOrUpdate(owner, key, column)
      ensures index < |leases| && leases[index].owner == owner
      ensures leases[index].key == key && leases[index].column == column
    {
      var found := IndexOf(leases, owner);
      if found.Some? {
        index := found.value;
        var depth := leases[index].depth;
        if leases[index].column != column {
          depth := NextDepth(leases, column);
        }
        leases := leases[index := leases[index].(key := key, column := column, depth := depth)];
        return;
      }

      ghost var before := View();
      while |leases| >= MAX_LEASES
        invariant View() == before.(leases := leases)
        invariant WithRoom(leases) == WithRoom(old(leases))
      {
        var oldest := Oldest(leases);
        leases := leases[..oldest] + leases[oldest + 1..];
      }

      assert leases == WithRoom(old(leases));
      var lease := Lease(owner, key, column, NextDepth(leases, column), nextTick, None);
      nextTick := nextTick + 1;
      leases := leases + [lease];
      index := |leases| - 1;
    }
  }
}
