/** When the player's position is worth sending to the system again. Times in seconds, exact. */
module PositionPublishing {
  import opened Options

  const RATE_EPSILON: real := 0.001

  function Abs(x: real): real {
    if x < 0.0 then -x else x
  }

  /** Durations are never negative: a subtraction stops at zero. */
  function SaturatingSub(a: real, b: real): real {
    if a < b then 0.0 else a - b
  }

  datatype PublishedPosition = PublishedPosition(elapsed: real, rate: real, at: real) {
    /** Where the system believes playback is at `now`, having been told nothing since. */
    function Extrapolated(now: real): real {
      var advanced := SaturatingSub(now, at) * rate;
      if advanced >= 0.0 then elapsed + advanced else SaturatingSub(elapsed, -advanced)
    }
  }

  predicate ShouldRepublish(last: Option<PublishedPosition>, now: real, elapsed: real, rate: real, epsilon: real) {
    || last.None?
    || Abs(rate - last.value.rate) > RATE_EPSILON
    || Abs(last.value.Extrapolated(now) - elapsed) > epsilon
  }

  /** The system's idea moves from the reported position at the reported rate, never past the start
      of the track, and not at all before the time of the report. */
  lemma ExtrapolationIsPlayback(told: PublishedPosition, now: real)
    requires 0.0 <= told.elapsed
    ensures told.Extrapolated(now) >= 0.0
    ensures now <= told.at ==> told.Extrapolated(now) == told.elapsed
    ensures now >= told.at && told.elapsed + (now - told.at) * told.rate >= 0.0 ==>
              told.Extrapolated(now) == told.elapsed + (now - told.at) * told.rate
    ensures now >= told.at && told.elapsed + (now - told.at) * told.rate <= 0.0 ==> told.Extrapolated(now) == 0.0
  {
    if now <= told.at {
      assert SaturatingSub(now, told.at) == 0.0;
    }
  }

  /** One report of the player. */
  datatype Tick = Tick(now: real, elapsed: real, rate: real)

  class PositionPublisher {
    var last: Option<PublishedPosition>
    const epsilon: real

    constructor (epsilon: real)
      ensures this.epsilon == epsilon && last == None
    {
      this.epsilon := epsilon;
      last := None;
    }

    method ShouldPublish(now: real, elapsed: real, rate: real) returns (publish: bool)
      modifies this`last
      ensures publish == ShouldRepublish(old(last), now, elapsed, rate, epsilon)
      ensures last == Reported(old(last), Tick(now, elapsed, rate), epsilon)
    {
      if !ShouldRepublish(last, now, elapsed, rate, epsilon) {
        return false;
      }
      last := Some(PublishedPosition(elapsed, rate, now));
      return true;
    }

    method Invalidate()
      modifies this`last
      ensures last == None
    {
      last := None;
    }
  }

  /** What the system was last told, after a report. */
  function Reported(last: Option<PublishedPosition>, tick: Tick, epsilon: real): Option<PublishedPosition> {
    if ShouldRepublish(last, tick.now, tick.elapsed, tick.rate, epsilon)
    then Some(PublishedPosition(tick.elapsed, tick.rate, tick.now))
    else last
  }

  datatype Event = Report(tick: Tick) | Invalidated

  function After(events: seq<Event>, epsilon: real): Option<PublishedPosition> {
    if events == [] then None
    else
      match events[|events| - 1]
      case Invalidated => None
      case Report(tick) => Reported(After(events[..|events| - 1], epsilon), tick, epsilon)
  }

  /** Whether event `i` is a report that was published. */
  predicate Publishes(events: seq<Event>, epsilon: real, i: nat)
    requires i < |events|
  {
    && events[i].Report?
    && var tick := events[i].tick;
       ShouldRepublish(After(events[..i], epsilon), tick.now, tick.elapsed, tick.rate, epsilon)
  }

  /** After any sequence of reports and invalidations that ends in a report, the system's idea of
      the position and the rate are within tolerance of what was reported. */
  lemma AlwaysWithinTolerance(events: seq<Event>, epsilon: real)
    requires events != [] && events[|events| - 1].Report? && 0.0 <= epsilon
    requires 0.0 <= events[|events| - 1].tick.elapsed
    ensures var tick := events[|events| - 1].tick;
            var told := After(events, epsilon);
            && told.Some?
            && Abs(told.value.Extrapolated(tick.now) - tick.elapsed) <= epsilon
            && Abs(tick.rate - told.value.rate) <= 0.001
  {
    var tick := events[|events| - 1].tick;
    var sent := PublishedPosition(tick.elapsed, tick.rate, tick.now);
    assert SaturatingSub(tick.now, tick.now) * tick.rate == 0.0;
    assert sent.Extrapolated(tick.now) == tick.elapsed;
  }

  /** Playback at a constant declared rate whose real speed is off by at most `drift`. */
  ghost predicate SteadyPlayback(ticks: seq<Tick>, rate: real, drift: real) {
    && (forall i :: 0 <= i < |ticks| ==> ticks[i].rate == rate && 0.0 <= ticks[i].elapsed)
    && (forall i, j :: 0 <= i <= j < |ticks| ==> ticks[i].now <= ticks[j].now)
    && (forall i, j {:trigger WithinDrift(ticks[i], ticks[j], rate, drift)} ::
          0 <= i <= j < |ticks| ==> WithinDrift(ticks[i], ticks[j], rate, drift))
  }

  /** Between two reports the position moved at `rate`, give or take `drift`. */
  ghost predicate WithinDrift(from: Tick, to: Tick, rate: real, drift: real) {
    Abs(to.elapsed - from.elapsed - rate * (to.now - from.now)) <= drift * (to.now - from.now)
  }

  function Reports(ticks: seq<Tick>): seq<Event> {
    seq(|ticks|, i requires 0 <= i < |ticks| => Report(ticks[i]))
  }

  /** With nothing published since tick `i`, the system still extrapolates from tick `i`. */
  lemma {:induction false} ToldAtLastPublish(ticks: seq<Tick>, epsilon: real, i: nat, j: nat)
    requires i < j <= |ticks| && Publishes(Reports(ticks), epsilon, i)
    requires forall k :: i < k < j ==> !Publishes(Reports(ticks), epsilon, k)
    ensures After(Reports(ticks)[..j], epsilon)
            == Some(PublishedPosition(ticks[i].elapsed, ticks[i].rate, ticks[i].now))
    decreases j
  {
    var events := Reports(ticks);
    assert events[..j][..j - 1] == events[..j - 1];
    if i < j - 1 {
      ToldAtLastPublish(ticks, epsilon, i, j - 1);
      assert !Publishes(events, epsilon, j - 1);
    }
  }

  /** How far off the system is at `to`, having last been told at `from`. */
  function OffBy(from: Tick, to: Tick): real {
    Abs(PublishedPosition(from.elapsed, from.rate, from.now).Extrapolated(to.now) - to.elapsed)
  }

  /** Stopping at zero brings a position no further from one that is not negative. */
  lemma ClampingHelps(elapsed: real, advanced: real, actual: real, bound: real)
    requires 0.0 <= actual && Abs(actual - elapsed - advanced) <= bound
    ensures Abs((if advanced >= 0.0 then elapsed + advanced else SaturatingSub(elapsed, -advanced)) - actual) <= bound
  {
  }

  /** Extrapolating at the declared rate goes wrong by no more than the drift, also where a
      rewind would pass the start of the track. */
  lemma ExtrapolationDrifts(from: Tick, to: Tick, drift: real)
    requires from.now <= to.now && 0.0 <= to.elapsed
    requires WithinDrift(from, to, from.rate, drift)
    ensures OffBy(from, to) <= drift * (to.now - from.now)
  {
    var advanced := SaturatingSub(to.now, from.now) * from.rate;
    assert SaturatingSub(to.now, from.now) == to.now - from.now;
    assert advanced == from.rate * (to.now - from.now);
    ClampingHelps(from.elapsed, advanced, to.elapsed, drift * (to.now - from.now));
  }

  /** Consecutive publishes of steady playback are far apart: the drift between them exceeds
      the tolerance. */
  lemma PublishesAreFarApart(ticks: seq<Tick>, rate: real, drift: real, epsilon: real, i: nat, j: nat)
    requires SteadyPlayback(ticks, rate, drift)
    requires i < j < |ticks| && Publishes(Reports(ticks), epsilon, i) && Publishes(Reports(ticks), epsilon, j)
    requires forall k :: i < k < j ==> !Publishes(Reports(ticks), epsilon, k)
    ensures drift * (ticks[j].now - ticks[i].now) > epsilon
  {
    OffWhenPublished(ticks, rate, epsilon, i, j);
    OffMeansFarApart(ticks, rate, drift, epsilon, i, j);
  }

  lemma OffMeansFarApart(ticks: seq<Tick>, rate: real, drift: real, epsilon: real, i: nat, j: nat)
    requires SteadyPlayback(ticks, rate, drift) && i < j < |ticks| && OffBy(ticks[i], ticks[j]) > epsilon
    ensures drift * (ticks[j].now - ticks[i].now) > epsilon
  {
    assert WithinDrift(ticks[i], ticks[j], rate, drift);
    ExtrapolationDrifts(ticks[i], ticks[j], drift);
  }

  lemma OffWhenPublished(ticks: seq<Tick>, rate: real, epsilon: real, i: nat, j: nat)
    requires forall k :: 0 <= k < |ticks| ==> ticks[k].rate == rate
    requires i < j < |ticks| && Publishes(Reports(ticks), epsilon, i) && Publishes(Reports(ticks), epsilon, j)
    requires forall k :: i < k < j ==> !Publishes(Reports(ticks), epsilon, k)
    ensures OffBy(ticks[i], ticks[j]) > epsilon
  {
    ToldAtLastPublish(ticks, epsilon, i, j);
    MustBeOff(Reports(ticks), epsilon, j, ticks[i], ticks[j]);
  }

  /** A report at an unchanged rate is published only because the position is off. */
  lemma MustBeOff(events: seq<Event>, epsilon: real, j: nat, from: Tick, to: Tick)
    requires j < |events| && Publishes(events, epsilon, j) && events[j] == Report(to)
    requires After(events[..j], epsilon) == Some(PublishedPosition(from.elapsed, from.rate, from.now))
    requires from.rate == to.rate
    ensures OffBy(from, to) > epsilon
  {
  }

  /** Playback that keeps its declared rate is published once, however long it goes on. */
  lemma {:induction false} SteadyPlaybackPublishesOnce(ticks: seq<Tick>, rate: real, epsilon: real, j: nat)
    requires SteadyPlayback(ticks, rate, 0.0) && 0.0 <= epsilon && j < |ticks|
    ensures Publishes(Reports(ticks), epsilon, j) <==> j == 0
    decreases j
  {
    assert Reports(ticks)[..0] == [];
    if 0 < j {
      forall k | 0 <= k < j ensures Publishes(Reports(ticks), epsilon, k) <==> k == 0 {
        SteadyPlaybackPublishesOnce(ticks, rate, epsilon, k);
      }
      SteadyIsNotRepublished(ticks, rate, 0.0, epsilon, j);
    }
  }

  lemma SteadyIsNotRepublished(ticks: seq<Tick>, rate: real, drift: real, epsilon: real, j: nat)
    requires SteadyPlayback(ticks, rate, drift) && drift == 0.0 && 0.0 <= epsilon && 0 < j < |ticks|
    requires forall k :: 0 <= k < j ==> (Publishes(Reports(ticks), epsilon, k) <==> k == 0)
    ensures !Publishes(Reports(ticks), epsilon, j)
  {
    hide Publishes;
    if Publishes(Reports(ticks), epsilon, j) {
      PublishesAreFarApart(ticks, rate, drift, epsilon, 0, j);
      NothingExceeds(drift, ticks[j].now - ticks[0].now, epsilon);
    }
  }

  lemma NothingExceeds(drift: real, gap: real, epsilon: real)
    requires drift == 0.0 && 0.0 <= epsilon
    ensures drift * gap <= epsilon
  {
  }
}
