/** Request identifiers: a millisecond clock that never goes back, and a sequence number. */
module RequestIds {
  import opened Basics

  const SEQUENCE_SPAN: nat := 0x10_0000
  const TWO_TO_64: nat := 0x1_0000_0000_0000_0000

  type U64 = n: nat | n < TWO_TO_64

  datatype Clock = Clock(logicalMillis: U64, sequence: nat) {
    /** The clock as one number: milliseconds above, twenty bits of sequence below. */
    function Stamp(): nat {
      logicalMillis * SEQUENCE_SPAN + sequence
    }

    function Advanced(wallMillis: U64): Clock {
      if wallMillis > logicalMillis then Clock(wallMillis, 0)
      else if sequence >= SEQUENCE_SPAN - 1 then Clock((logicalMillis + 1) % TWO_TO_64, 0)
      else Clock(logicalMillis, sequence + 1)
    }

    /** The stamp as it comes out of a 64-bit shift, which drops what does not fit. */
    function Issued(): nat {
      var raw := logicalMillis * SEQUENCE_SPAN % TWO_TO_64 + sequence;
      if raw < 1 then 1 else raw
    }
  }

  const STARTED: Clock := Clock(0, 0)

  class RequestIdAllocator {
    var logicalMillis: U64
    var sequence: nat

    function View(): Clock
      reads this
    {
      Clock(logicalMillis, sequence)
    }

    constructor ()
      ensures View() == STARTED
    {
      logicalMillis, sequence := 0, 0;
    }

    method NextAt(wallMillis: U64) returns (id: nat)
      modifies this
      ensures View() == old(View()).Advanced(wallMillis)
      ensures id == View().Issued()
    {
      if wallMillis > logicalMillis {
        logicalMillis := wallMillis;
        sequence := 0;
      } else if sequence >= SEQUENCE_SPAN - 1 {
        logicalMillis := (logicalMillis + 1) % TWO_TO_64;
        sequence := 0;
      } else {
        sequence := sequence + 1;
      }
      var raw := logicalMillis * SEQUENCE_SPAN % TWO_TO_64 + sequence;
      id := if raw < 1 then 1 else raw;
    }
  }

  /** The clock after a call for each of `walls`. */
  function After(walls: seq<U64>): Clock {
    if walls == [] then STARTED else After(walls[..|walls| - 1]).Advanced(walls[|walls| - 1])
  }

  /** The identifier call `i` of a run returns. */
  function IdAt(walls: seq<U64>, i: nat): nat
    requires i < |walls|
  {
    After(walls[..i + 1]).Issued()
  }

  /** One call is a step of the simple rule: one more, but never behind the wall clock. */
  lemma AdvanceIsMax(clock: Clock, wallMillis: U64)
    requires clock.sequence < SEQUENCE_SPAN && clock.logicalMillis < TWO_TO_64 - 1
    ensures clock.Advanced(wallMillis).sequence < SEQUENCE_SPAN
    ensures clock.Advanced(wallMillis).Stamp() == Max(clock.Stamp() + 1, wallMillis * SEQUENCE_SPAN)
  {
  }

  /** The 64-bit identifier is the stamp exactly while the stamp fits; then the guard against
      zero has nothing to do. */
  lemma IssuedIsStampIff(clock: Clock)
    requires clock.sequence < SEQUENCE_SPAN && clock != STARTED
    ensures clock.Issued() == clock.Stamp() <==> clock.Stamp() < TWO_TO_64
  {
  }

  /** `walls` are readings of at most `latest`, few enough that every stamp fits in 64 bits. */
  ghost predicate Fits(walls: seq<U64>, latest: nat) {
    && (forall i :: 0 <= i < |walls| ==> walls[i] <= latest)
    && latest * SEQUENCE_SPAN + |walls| < TWO_TO_64
  }

  lemma {:induction false} StampIsBounded(walls: seq<U64>, latest: nat)
    requires Fits(walls, latest)
    ensures After(walls).sequence < SEQUENCE_SPAN
    ensures |walls| <= After(walls).Stamp() <= latest * SEQUENCE_SPAN + |walls|
  {
    if walls != [] {
      var earlier := walls[..|walls| - 1];
      assert forall i :: 0 <= i < |earlier| ==> earlier[i] == walls[i];
      StampIsBounded(earlier, latest);
      AdvanceIsMax(After(earlier), walls[|walls| - 1]);
      assert walls[|walls| - 1] <= latest;
    }
  }

  /** Whatever the wall clock does, forwards, backwards or stuck, every identifier is positive,
      greater than all before it, and no further ahead of the latest reading than the number
      of calls. */
  lemma {:induction false} IdsAlwaysIncrease(walls: seq<U64>, latest: nat, i: nat, j: nat)
    requires Fits(walls, latest) && i < j < |walls|
    ensures 0 < IdAt(walls, i) < IdAt(walls, j) <= latest * SEQUENCE_SPAN + j + 1
    decreases j
  {
    assert forall k: nat :: k <= |walls| ==> Fits(walls[..k], latest);
    StampIsBounded(walls[..j], latest);
    StampIsBounded(walls[..j + 1], latest);
    assert walls[..j + 1][..j] == walls[..j];
    AdvanceIsMax(After(walls[..j]), walls[j]);
    IssuedIsStampIff(After(walls[..j + 1]));
    IssuedIsStampIff(After(walls[..j]));
    if i + 1 < j {
      IdsAlwaysIncrease(walls, latest, i, j - 1);
    }
  }

  // ------------------------------------------------------- past 64 bits

  const MILLIS_SPAN: nat := 0x1000_0000_0000

  /** The shift keeps 44 bits of milliseconds. */
  lemma ShiftKeepsLowMillis(clock: Clock)
    requires clock.sequence < SEQUENCE_SPAN
    ensures clock.Issued() == Max(1, clock.logicalMillis % MILLIS_SPAN * SEQUENCE_SPAN + clock.sequence)
  {
    var high, low := clock.logicalMillis / MILLIS_SPAN, clock.logicalMillis % MILLIS_SPAN;
    assert clock.logicalMillis * SEQUENCE_SPAN == high * TWO_TO_64 + low * SEQUENCE_SPAN;
  }

  /** The next identifier will be greater than the last one: by the milliseconds that are kept if
      the wall clock is ahead or the sequence is used up, and otherwise by the sequence, but for
      the guard against zero, which takes the same value twice. */
  predicate Rises(clock: Clock, wallMillis: U64) {
    var kept := clock.logicalMillis % MILLIS_SPAN;
    if wallMillis > clock.logicalMillis then wallMillis % MILLIS_SPAN > kept
    else if clock.sequence == SEQUENCE_SPAN - 1 then kept != MILLIS_SPAN - 1
    else kept != 0 || clock.sequence != 0
  }

  /** Whatever the clock has come to, 64 bits or not, exactly that decides. */
  lemma IdRisesIff(clock: Clock, wallMillis: U64)
    requires clock.sequence < SEQUENCE_SPAN
    ensures clock.Advanced(wallMillis).Issued() > clock.Issued() <==> Rises(clock, wallMillis)
  {
    var next := clock.Advanced(wallMillis);
    ShiftKeepsLowMillis(clock);
    ShiftKeepsLowMillis(next);
    LowerPart(clock.logicalMillis % MILLIS_SPAN, clock.sequence, next.logicalMillis % MILLIS_SPAN, next.sequence);
    NextMillis(clock.logicalMillis);
  }

  lemma LowerPart(millis: nat, sequence: nat, laterMillis: nat, laterSequence: nat)
    requires sequence < SEQUENCE_SPAN && laterSequence < SEQUENCE_SPAN
    ensures laterMillis * SEQUENCE_SPAN + laterSequence > millis * SEQUENCE_SPAN + sequence
            <==> laterMillis > millis || (laterMillis == millis && laterSequence > sequence)
  {
  }

  lemma NextMillis(millis: U64)
    ensures (millis + 1) % TWO_TO_64 % MILLIS_SPAN
            == if millis % MILLIS_SPAN == MILLIS_SPAN - 1 then 0 else millis % MILLIS_SPAN + 1
  {
  }

  predicate RisesAt(walls: seq<U64>, i: nat)
    requires i < |walls|
  {
    Rises(After(walls[..i]), walls[i])
  }

  lemma {:induction false} SequenceFits(walls: seq<U64>)
    ensures After(walls).sequence < SEQUENCE_SPAN
  {
    if walls != [] {
      SequenceFits(walls[..|walls| - 1]);
    }
  }

  lemma NextIdRisesIff(walls: seq<U64>, i: nat)
    requires 0 < i < |walls|
    ensures IdAt(walls, i - 1) < IdAt(walls, i) <==> RisesAt(walls, i)
  {
    SequenceFits(walls[..i]);
    assert walls[..i + 1][..i] == walls[..i];
    IdRisesIff(After(walls[..i]), walls[i]);
  }

  lemma {:induction false} StepsAddUp(walls: seq<U64>, i: nat, j: nat)
    requires i < j < |walls| && forall k :: 0 < k < |walls| ==> RisesAt(walls, k)
    ensures IdAt(walls, i) < IdAt(walls, j)
    decreases j
  {
    hide IdAt, RisesAt;
    assert RisesAt(walls, j);
    NextIdRisesIff(walls, j);
    if i < j - 1 {
      StepsAddUp(walls, i, j - 1);
    }
  }

  /** The identifiers of a run are in order exactly when no call but the first meets a clock that
      does not rise. */
  lemma AllRiseIff(walls: seq<U64>)
    ensures (forall i, j :: 0 <= i < j < |walls| ==> IdAt(walls, i) < IdAt(walls, j))
            <==> forall i :: 0 < i < |walls| ==> RisesAt(walls, i)
  {
    hide IdAt, RisesAt;
    if forall i :: 0 < i < |walls| ==> RisesAt(walls, i) {
      forall i, j | 0 <= i < j < |walls| ensures IdAt(walls, i) < IdAt(walls, j) {
        StepsAddUp(walls, i, j);
      }
    } else {
      var i :| 0 < i < |walls| && !RisesAt(walls, i);
      NextIdRisesIff(walls, i);
    }
  }

  /** A wall clock past 44 bits of milliseconds is one way to lose the order. */
  lemma WrappedIdsGoBack()
    ensures IdAt([5, 0x1000_0000_0000], 1) < IdAt([5, 0x1000_0000_0000], 0)
  {
    var walls := [5, 0x1000_0000_0000];
    assert walls[..2] == walls && walls[..1] == [5] && [5][..0] == [];
    assert After([5]) == Clock(5, 0);
    assert After(walls) == Clock(0x1000_0000_0000, 0);
  }
}
