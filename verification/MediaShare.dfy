/** The state the media bindings publish from, and the wake-up protocol around its lock. */
module MediaShareModel {
  import opened Options
  import Decimal

  datatype NowPlaying = NowPlaying(
    title: string, artist: string, album: string, duration: nat, elapsed: real, rate: real)
  {
    predicate IsSameTrack(other: NowPlaying) {
      title == other.title && artist == other.artist && album == other.album && duration == other.duration
    }
  }

  datatype PlaybackState = Playing | Paused | Stopped

  /** A waker is known by the waiter it wakes. */
  type Waker = nat

  datatype Shared = Shared(
    now: Option<NowPlaying>,
    state: PlaybackState,
    generation: nat,
    track: nat,
    attached: bool,
    waker: Option<Waker>)
  {
    /** One more change: the registered waker, if any, is handed over to be woken. */
    function Bumped(): Shared {
      this.(generation := generation + 1, waker := None)
    }

    function SetAttached(value: bool): Shared {
      this.(attached := value).Bumped()
    }

    predicate StartsTrack(next: Option<NowPlaying>) {
      match (now, next)
      case (Some(current), Some(other)) => !current.IsSameTrack(other)
      case (_, other) => other.Some?
    }

    function Publish(next: Option<NowPlaying>, playback: PlaybackState): Shared {
      this.(track := if StartsTrack(next) then track + 1 else track, now := next, state := playback).Bumped()
    }

    function SetState(playback: PlaybackState): Shared {
      this.(state := playback).Bumped()
    }

    /** With no track loaded there is nothing to advance, and nothing changes. */
    function Advance(elapsed: real, rate: real): Shared {
      match now
      case None => this
      case Some(current) => this.(now := Some(current.(elapsed := elapsed, rate := rate))).Bumped()
    }

    /** Polling for a generation other than `seen`: either the answer, or the waker is left. */
    function Poll(seen: nat, waiter: Waker): (Shared, Option<nat>) {
      if generation == seen then (this.(waker := Some(waiter)), None) else (this, Some(generation))
    }

    predicate IsCurrentTrack(path: string) {
      now.Some? && path == TrackPath(track)
    }
  }

  const CREATED: Shared := Shared(None, Stopped, 0, 0, false, None)

  function TrackPath(ordinal: nat): string {
    "/net/riseonly/track/" + Decimal.Digits(ordinal)
  }

  datatype Change =
    | Attaching(value: bool)
    | Publishing(next: Option<NowPlaying>, playback: PlaybackState)
    | Stating(playback: PlaybackState)
    | Advancing(elapsed: real, rate: real)

  function Changed(shared: Shared, change: Change): Shared {
    match change
    case Attaching(value) => shared.SetAttached(value)
    case Publishing(next, playback) => shared.Publish(next, playback)
    case Stating(playback) => shared.SetState(playback)
    case Advancing(elapsed, rate) => shared.Advance(elapsed, rate)
  }

  /** The waker a change takes out of the shared state, to be woken once the lock is free. */
  function Taken(shared: Shared, change: Change): Option<Waker> {
    if change.Advancing? && shared.now.None? then None else shared.waker
  }

  // ------------------------------------------------------- the object behind the lock

  /** Each method is one critical section. A returned waker is woken after unlocking. */
  class MediaShare {
    var now: Option<NowPlaying>
    var state: PlaybackState
    var generation: nat
    var track: nat
    var attached: bool
    var waker: Option<Waker>

    function View(): Shared
      reads this
    {
      Shared(now, state, generation, track, attached, waker)
    }

    constructor ()
      ensures View() == CREATED
    {
      now, state, generation, track, attached, waker := None, Stopped, 0, 0, false, None;
    }

    method SetAttached(value: bool) returns (taken: Option<Waker>)
      modifies this
      ensures View() == Changed(old(View()), Attaching(value))
      ensures taken == Taken(old(View()), Attaching(value))
    {
      attached := value;
      generation := generation + 1;
      taken := TakeWaker();
    }

    method Publish(next: Option<NowPlaying>, playback: PlaybackState) returns (taken: Option<Waker>)
      modifies this
      ensures View() == Changed(old(View()), Publishing(next, playback))
      ensures taken == Taken(old(View()), Publishing(next, playback))
    {
      var newTrack := next.Some?;
      if now.Some? && next.Some? {
        newTrack := !now.value.IsSameTrack(next.value);
      }
      if newTrack {
        track := track + 1;
      }
      now := next;
      state := playback;
      generation := generation + 1;
      taken := TakeWaker();
    }

    method SetState(playback: PlaybackState) returns (current: Option<NowPlaying>, taken: Option<Waker>)
      modifies this
      ensures View() == Changed(old(View()), Stating(playback))
      ensures taken == Taken(old(View()), Stating(playback))
      ensures current == old(now)
    {
      state := playback;
      generation := generation + 1;
      current := now;
      taken := TakeWaker();
    }

    method Advance(elapsed: real, rate: real)
      returns (updated: Option<(NowPlaying, PlaybackState)>, taken: Option<Waker>)
      modifies this
      ensures View() == Changed(old(View()), Advancing(elapsed, rate))
      ensures taken == Taken(old(View()), Advancing(elapsed, rate))
      ensures updated == if now.None? then None else Some((now.value, state))
    {
      if now.None? {
        return None, None;
      }
      now := Some(now.value.(elapsed := elapsed, rate := rate));
      updated := Some((now.value, state));
      generation := generation + 1;
      taken := TakeWaker();
    }

    method TakeWaker() returns (taken: Option<Waker>)
      modifies this`waker
      ensures taken == old(waker) && waker == None
    {
      taken := waker;
      waker := None;
    }

    method Poll(seen: nat, waiter: Waker) returns (ready: Option<nat>)
      modifies this`waker
      ensures (View(), ready) == old(View()).Poll(seen, waiter)
    {
      if generation == seen {
        waker := Some(waiter);
        return None;
      }
      return Some(generation);
    }
  }

  // ------------------------------------------------------- the protocol, step by step

  /** A waiter either has a poll coming, or its last poll was left pending and nothing has
      woken it since. */
  datatype Waiter = Running(seen: nat) | Parked(seen: nat)

  /** Wakers taken out of the shared state but not yet woken are in flight. */
  datatype System = System(shared: Shared, waiters: map<Waker, Waiter>, inFlight: multiset<Waker>)

  datatype Step =
    | Modify(change: Change)
    | Wake(target: Waker)
    | Poll(waiter: Waker)

  function Stepped(system: System, step: Step): System {
    match step
    case Modify(change) =>
      var taken := Taken(system.shared, change);
      system.(shared := Changed(system.shared, change),
              inFlight := if taken.Some? then system.inFlight + multiset{taken.value} else system.inFlight)
    case Wake(w) =>
      if w !in system.inFlight then system
      else
        var woken := if w in system.waiters then system.waiters[w := Running(system.waiters[w].seen)]
                     else system.waiters;
        system.(waiters := woken, inFlight := system.inFlight - multiset{w})
    case Poll(w) =>
      if w !in system.waiters then system
      else
        var seen := system.waiters[w].seen;
        var (shared, ready) := system.shared.Poll(seen, w);
        system.(shared := shared,
                waiters := system.waiters[w := if ready.Some? then Running(ready.value) else Parked(seen)])
  }

  function Run(system: System, steps: seq<Step>): System {
    if steps == [] then system else Stepped(Run(system, steps[..|steps| - 1]), steps[|steps| - 1])
  }

  lemma RunOfLonger(system: System, steps: seq<Step>, step: Step)
    ensures Run(system, steps + [step]) == Stepped(Run(system, steps), step)
  {
    assert (steps + [step])[..|steps|] == steps;
  }

  lemma RunOfTwo(system: System, a: Step, b: Step)
    ensures Run(system, [a, b]) == Stepped(Stepped(system, a), b)
  {
    RunOfLonger(system, [], a);
    RunOfLonger(system, [a], b);
    assert [] + [a] == [a] && [a] + [b] == [a, b];
  }

  ghost predicate Initial(system: System) {
    && system.shared == CREATED
    && system.inFlight == multiset{}
    && forall w :: w in system.waiters ==> system.waiters[w].Running?
  }

  /** A parked waiter is still registered and has missed nothing, or its wake is on the way. */
  ghost predicate NotLost(system: System, w: Waker) {
    w in system.waiters && system.waiters[w].Parked? ==>
      || (system.shared.waker == Some(w) && system.shared.generation == system.waiters[w].seen)
      || w in system.inFlight
  }

  ghost predicate OnlyPolledBy(steps: seq<Step>, w: Waker) {
    forall i :: 0 <= i < |steps| && steps[i].Poll? ==> steps[i].waiter == w
  }

  lemma StepKeepsFromLoss(system: System, step: Step, w: Waker)
    requires NotLost(system, w) && (step.Poll? ==> step.waiter == w)
    ensures NotLost(Stepped(system, step), w)
  {
    match step
    case Modify(change) =>
      var taken := Taken(system.shared, change);
      if taken == Some(w) {
        assert w in Stepped(system, step).inFlight;
      }
    case Wake(target) =>
    case Poll(_) =>
  }

  /** Over every interleaving of changes, delayed wakes and polls (also spurious ones), the only
      waiter is never lost. */
  lemma {:induction false} OnlyWaiterIsNeverLost(system: System, steps: seq<Step>, w: Waker)
    requires Initial(system) && OnlyPolledBy(steps, w)
    ensures NotLost(Run(system, steps), w)
  {
    if steps != [] {
      var earlier := steps[..|steps| - 1];
      assert forall i :: 0 <= i < |earlier| ==> earlier[i] == steps[i];
      OnlyWaiterIsNeverLost(system, earlier, w);
      StepKeepsFromLoss(Run(system, earlier), steps[|steps| - 1], w);
    }
  }

  /** So once every wake has been delivered, a waiter still parked has seen the newest state. */
  lemma QuietMeansUpToDate(system: System, steps: seq<Step>, w: Waker)
    requires Initial(system) && OnlyPolledBy(steps, w)
    requires w in Run(system, steps).waiters && Run(system, steps).waiters[w].Parked?
    requires w !in Run(system, steps).inFlight
    ensures Run(system, steps).waiters[w].seen == Run(system, steps).shared.generation
  {
    OnlyWaiterIsNeverLost(system, steps, w);
  }

  /** And one that is behind needs only the wake already on its way to resolve with the newest
      generation. */
  lemma BehindIsResumed(system: System, steps: seq<Step>, w: Waker)
    requires Initial(system) && OnlyPolledBy(steps, w)
    requires w in Run(system, steps).waiters && Run(system, steps).waiters[w].Parked?
    requires Run(system, steps).waiters[w].seen != Run(system, steps).shared.generation
    ensures var now := Run(system, steps);
            var resumed := Run(now, [Wake(w), Poll(w)]);
            w in resumed.waiters && resumed.waiters[w] == Running(now.shared.generation)
  {
    OnlyWaiterIsNeverLost(system, steps, w);
    var now := Run(system, steps);
    RunOfTwo(now, Wake(w), Poll(w));
  }

  /** A waiter nothing will ever wake, although the state has moved on. */
  ghost predicate Lost(system: System, w: Waker) {
    && w in system.waiters && system.waiters[w].Parked?
    && system.waiters[w].seen < system.shared.generation
    && system.shared.waker != Some(w)
    && w !in system.inFlight
  }

  lemma {:induction false} LostStaysLost(system: System, steps: seq<Step>, w: Waker)
    requires Lost(system, w)
    requires forall i :: 0 <= i < |steps| ==> steps[i] != Poll(w)
    ensures Lost(Run(system, steps), w)
  {
    if steps != [] {
      var earlier := steps[..|steps| - 1];
      assert forall i :: 0 <= i < |earlier| ==> earlier[i] == steps[i];
      LostStaysLost(system, earlier, w);
      StepKeepsLost(Run(system, earlier), steps[|steps| - 1], w);
    }
  }

  lemma StepKeepsLost(system: System, step: Step, w: Waker)
    requires Lost(system, w) && step != Poll(w)
    ensures Lost(Stepped(system, step), w)
  {
    match step
    case Modify(change) =>
      hide Lost;
      ModifyKeepsLost(system, change, w);
    case Wake(_) =>
    case Poll(_) =>
  }

  lemma ModifyKeepsLost(system: System, change: Change, w: Waker)
    requires Lost(system, w)
    ensures Lost(Stepped(system, Modify(change)), w)
  {
    assert Taken(system.shared, change) != Some(w);
  }

  /** Before any change, polling twice parks a waiter, whatever it had seen, in the only slot. */
  lemma ParkInFreshState(system: System, w: Waker) returns (parked: System)
    requires system.shared.generation == 0 && w in system.waiters
    ensures parked == Stepped(Stepped(system, Poll(w)), Poll(w))
    ensures parked == system.(shared := system.shared.(waker := Some(w)), waiters := system.waiters[w := Parked(0)])
  {
    parked := Stepped(Stepped(system, Poll(w)), Poll(w));
  }

  function DisplacingSteps(first: Waker, second: Waker): seq<Step> {
    [Poll(first), Poll(first)] + [Poll(second)] + [Poll(second)] + [Modify(Stating(Playing))]
  }

  /** There is one waker slot: a second waiter that parks takes it, and the first is lost at the
      next change, whatever generations the two had seen before. */
  lemma SecondWaiterDisplacesFirst(system: System, first: Waker, second: Waker)
    requires Initial(system) && first != second && first in system.waiters && second in system.waiters
    ensures Lost(Run(system, DisplacingSteps(first, second)), first)
  {
    var firstParked := ParkInFreshState(system, first);
    var bothParked := ParkInFreshState(firstParked, second);
    hide Run;
    RunOfTwo(system, Poll(first), Poll(first));
    RunOfLonger(system, [Poll(first), Poll(first)], Poll(second));
    RunOfLonger(system, [Poll(first), Poll(first)] + [Poll(second)], Poll(second));
    RunOfLonger(system, [Poll(first), Poll(first)] + [Poll(second)] + [Poll(second)], Modify(Stating(Playing)));
  }

  ghost predicate AtMostOneWaiter(system: System) {
    forall a, b :: a in system.waiters && b in system.waiters ==> a == b
  }

  ghost predicate NobodyIsEverLost(system: System) {
    forall steps, w :: !Lost(Run(system, steps), w)
  }

  ghost predicate WakesAreAlwaysOwed(system: System) {
    forall steps, w :: NotLost(Run(system, steps), w)
  }

  lemma {:induction false} NobodyJoins(system: System, steps: seq<Step>)
    ensures Run(system, steps).waiters.Keys == system.waiters.Keys
  {
    if steps != [] {
      NobodyJoins(system, steps[..|steps| - 1]);
    }
  }

  /** With one waiter, a poll by anyone else is nobody's. */
  lemma {:induction false} LoneWaiterIsNeverLost(system: System, steps: seq<Step>, w: Waker)
    requires Initial(system) && AtMostOneWaiter(system)
    ensures NotLost(Run(system, steps), w)
  {
    if steps != [] {
      var earlier := Run(system, steps[..|steps| - 1]);
      var step := steps[|steps| - 1];
      LoneWaiterIsNeverLost(system, steps[..|steps| - 1], w);
      NobodyJoins(system, steps[..|steps| - 1]);
      if w in system.waiters && !(step.Poll? && step.waiter != w) {
        StepKeepsFromLoss(earlier, step, w);
      }
    }
  }

  /** The wake-up protocol serves a system, whatever its interleavings, exactly when no more than
      one waiter uses it. */
  lemma NobodyIsLostIff(system: System)
    requires Initial(system)
    ensures NobodyIsEverLost(system) <==> AtMostOneWaiter(system)
    ensures WakesAreAlwaysOwed(system) <==> AtMostOneWaiter(system)
  {
    if AtMostOneWaiter(system) {
      forall steps, w ensures NotLost(Run(system, steps), w) {
        LoneWaiterIsNeverLost(system, steps, w);
      }
      assert forall steps, w :: NotLost(Run(system, steps), w) ==> !Lost(Run(system, steps), w);
    } else {
      var first, second :| first in system.waiters && second in system.waiters && first != second;
      SecondWaiterDisplacesFirst(system, first, second);
      var after := Run(system, DisplacingSteps(first, second));
      assert Lost(after, first) && !NotLost(after, first);
    }
  }

  // ------------------------------------------------------- track ordinals

  function RunChanges(shared: Shared, changes: seq<Change>): Shared {
    if changes == [] then shared else Changed(RunChanges(shared, changes[..|changes| - 1]), changes[|changes| - 1])
  }

  /** Equal generations mean nothing at all changed in between, so a waiter that compares only
      generations misses no change. */
  lemma {:induction false} GenerationTellsEveryChange(shared: Shared, changes: seq<Change>)
    ensures shared.generation <= RunChanges(shared, changes).generation
    ensures shared.generation == RunChanges(shared, changes).generation ==> RunChanges(shared, changes) == shared
  {
    if changes != [] {
      GenerationTellsEveryChange(shared, changes[..|changes| - 1]);
    }
  }

  /** An ordinal is never reused: as long as it is current, the same song is loaded. */
  lemma {:induction false} OrdinalNamesOneSong(shared: Shared, changes: seq<Change>)
    ensures var later := RunChanges(shared, changes);
            && shared.track <= later.track
            && (shared.track == later.track && later.now.Some? ==>
                  shared.now.Some? && shared.now.value.IsSameTrack(later.now.value))
  {
    if changes != [] {
      OrdinalNamesOneSong(shared, changes[..|changes| - 1]);
    }
  }

  /** The same song is the same but for where it is and how fast it plays. */
  lemma SameTrackIff(a: NowPlaying, b: NowPlaying)
    ensures a.IsSameTrack(b) <==> a.(elapsed := b.elapsed, rate := b.rate) == b
  {
  }

  /** Nothing but what is published for it: the song on at `shared` goes on. */
  ghost predicate GoesOn(change: Change, current: NowPlaying) {
    change.Publishing? ==>
      && change.next.Some?
      && current.(elapsed := change.next.value.elapsed, rate := change.next.value.rate) == change.next.value
  }

  /** As long as one song goes on, however often it is published again, paused or moved, its ordinal
      stays and a seek for it is accepted. */
  lemma {:induction false} OrdinalStaysWithSong(shared: Shared, changes: seq<Change>)
    requires shared.now.Some? && forall i :: 0 <= i < |changes| ==> GoesOn(changes[i], shared.now.value)
    ensures var later := RunChanges(shared, changes);
            && later.track == shared.track && later.IsCurrentTrack(TrackPath(shared.track))
            && later.now.Some? && shared.now.value.IsSameTrack(later.now.value)
  {
    if changes != [] {
      var earlier := changes[..|changes| - 1];
      assert forall i :: 0 <= i < |earlier| ==> earlier[i] == changes[i];
      OrdinalStaysWithSong(shared, earlier);
      var change := changes[|changes| - 1];
      if change.Publishing? {
        SameTrackIff(shared.now.value, change.next.value);
      }
    }
  }

  // ------------------------------------------------------- what is held

  ghost predicate NoneAttaches(changes: seq<Change>) {
    forall i :: 0 <= i < |changes| ==> !changes[i].Attaching?
  }

  ghost predicate NoneStates(changes: seq<Change>) {
    forall i :: 0 <= i < |changes| ==> !changes[i].Stating? && !changes[i].Publishing?
  }

  ghost predicate NoneMoves(changes: seq<Change>) {
    forall i :: 0 <= i < |changes| ==> !changes[i].Advancing? && !changes[i].Publishing?
  }

  /** Nothing changes that no change speaks of. */
  lemma {:induction false} UnspokenStays(shared: Shared, changes: seq<Change>)
    ensures var later := RunChanges(shared, changes);
            && (NoneAttaches(changes) ==> later.attached == shared.attached)
            && (NoneStates(changes) ==> later.state == shared.state)
            && (NoneMoves(changes) ==> later.now == shared.now)
  {
    if changes != [] {
      var earlier, last := changes[..|changes| - 1], changes[|changes| - 1];
      assert forall i :: 0 <= i < |earlier| ==> earlier[i] == changes[i];
      assert last == changes[|changes| - 1];
      UnspokenStays(shared, earlier);
    }
  }

  lemma {:induction false} ChangesInParts(shared: Shared, first: seq<Change>, second: seq<Change>)
    ensures RunChanges(shared, first + second) == RunChanges(RunChanges(shared, first), second)
  {
    if second == [] {
      assert first + second == first;
    } else {
      var shorter := second[..|second| - 1];
      assert (first + second)[..|first + second| - 1] == first + shorter;
      ChangesInParts(shared, first, shorter);
    }
  }

  /** What is held is what the last change that spoke of it said, whatever came before and between:
      whether a binding is attached, the state of playback, the track, and where it is. */
  lemma LastWordIsHeld(shared: Shared, before: seq<Change>, change: Change, rest: seq<Change>)
    ensures var earlier, later := RunChanges(shared, before), RunChanges(shared, before + [change] + rest);
            match change
            case Attaching(value) => NoneAttaches(rest) ==> later.attached == value
            case Stating(playback) => NoneStates(rest) ==> later.state == playback
            case Publishing(next, playback) =>
              && (NoneStates(rest) ==> later.state == playback)
              && (NoneMoves(rest) ==> later.now == next)
            case Advancing(elapsed, rate) =>
              NoneMoves(rest) && earlier.now.Some? ==>
                later.now == Some(earlier.now.value.(elapsed := elapsed, rate := rate))
  {
    ChangesInParts(shared, before + [change], rest);
    ChangesInParts(shared, before, [change]);
    assert [change][..0] == [];
    assert RunChanges(RunChanges(shared, before), [change]) == Changed(RunChanges(shared, before), change);
    UnspokenStays(Changed(RunChanges(shared, before), change), rest);
  }

  /** A seek computed for one song never scrubs another: the path of the track loaded before is
      accepted later only while that same song is loaded. */
  lemma StaleSeekIsRefused(shared: Shared, changes: seq<Change>)
    requires RunChanges(shared, changes).IsCurrentTrack(TrackPath(shared.track))
    ensures shared.now.Some? && shared.now.value.IsSameTrack(RunChanges(shared, changes).now.value)
  {
    var later := RunChanges(shared, changes);
    var prefix := "/net/riseonly/track/";
    assert TrackPath(shared.track)[|prefix|..] == Decimal.Digits(shared.track);
    assert TrackPath(later.track)[|prefix|..] == Decimal.Digits(later.track);
    Decimal.DigitsAreInjective(shared.track, later.track);
    OrdinalNamesOneSong(shared, changes);
  }
}
