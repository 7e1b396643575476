/** The 64-bit field masks of a cron schedule. A machine word is the set of its bit positions, so
    the bitwise operators are set operations and a left shift drops what leaves the word. */
module CronMask {

  type Word = w: set<nat> | forall i | i in w :: i < 64

  const ALL_ONES: Word := set i: nat | i < 64
  const STAR_BIT: nat := 63

  function ShiftLeft(w: Word, n: nat): Word {
    set i | i in w && i + n < 64 :: i + n
  }

  function Complement(w: Word): Word {
    ALL_ONES - w
  }

  // The word 1 << i.
  function Single(i: nat): Word {
    ShiftLeft({0}, i)
  }

  // The values that a range with a step stands for.
  predicate InSteps(min: nat, max: nat, step: nat, i: int) {
    min <= i <= max && step > 0 && (i - min) % step == 0
  }

  // The shift form of getBits.
  function SpanByShifts(min: nat, max: nat): Word {
    Complement(ShiftLeft(ALL_ONES, max + 1)) * ShiftLeft(ALL_ONES, min)
  }

  /** getBits. A step of 0 never leaves the loop, so callers have to exclude it. */
  method GetBits(min: nat, max: nat, step: nat) returns (bits: Word)
    requires max < 64 && step >= 1
    ensures bits == set i: nat | i < 64 && InSteps(min, max, step, i)
  {
    if step == 1 {
      SpanIsRange(min, max);
      return SpanByShifts(min, max);
    }
    bits := {};
    var i := min;
    while i <= max
      invariant min <= i && (i - min) % step == 0
      invariant bits == set j: nat | j < 64 && j < i && InSteps(min, max, step, j)
      decreases max + step - i
    {
      SingleBit(i);
      assert forall j: nat | i < j < i + step :: !InSteps(min, max, step, j) by {
        forall j: nat | i < j < i + step ensures !InSteps(min, max, step, j) {
          NoMultipleBetween(i - min, j - min, step);
        }
      }
      bits := bits + Single(i);
      AddStep(i - min, step);
      i := i + step;
    }
  }

  // The value of i in the loop of getBits after n turns.
  function AfterTurns(min: nat, step: nat, n: nat): nat {
    min + n * step
  }

  /** The loop of getBits goes on for ever exactly when the step is 0. */
  lemma LoopNeverEndsIff(min: nat, max: nat, step: nat)
    requires min <= max
    ensures (forall n: nat :: AfterTurns(min, step, n) <= max) <==> step == 0
  {
    if step == 0 {
      assert forall n: nat :: AfterTurns(min, step, n) == min;
    } else {
      assert (max + 1) * step >= max + 1;
      assert AfterTurns(min, step, max + 1) > max;
    }
  }

  lemma SingleBit(i: nat)
    requires i < 64
    ensures Single(i) == {i}
  {
    assert 0 + i in Single(i);
  }

  // The shift form selects exactly min..max, and leaves the star bit alone when max < 63.
  lemma SpanIsRange(min: nat, max: nat)
    requires max < 64
    ensures SpanByShifts(min, max) == set i: nat | i < 64 && InSteps(min, max, 1, i)
  {
    forall i: nat | i < 64 ensures i in SpanByShifts(min, max) <==> InSteps(min, max, 1, i) {
      OnesFrom(max + 1, i);
      OnesFrom(min, i);
    }
  }

  lemma OnesFrom(n: nat, i: nat)
    requires i < 64
    ensures i in ShiftLeft(ALL_ONES, n) <==> n <= i
  {
    if n <= i {
      assert i - n in ALL_ONES;
    }
  }

  lemma AddStep(a: int, step: int)
    requires step > 0 && a % step == 0
    ensures (a + step) % step == 0
  {
    var q, r := (a + step) / step, (a + step) % step;
    assert r == (a / step + 1 - q) * step;
    NoSmallMultiple(a / step + 1 - q, step, r);
  }

  lemma NoMultipleBetween(a: int, b: int, step: int)
    requires step > 0 && a % step == 0 && a < b < a + step
    ensures b % step != 0
  {
    if b % step == 0 {
      assert b - a == (b / step - a / step) * step;
      NoSmallMultiple(b / step - a / step, step, b - a);
    }
  }

  lemma NoSmallMultiple(k: int, step: int, r: int)
    requires step > 0 && r == k * step && 0 <= r < step
    ensures r == 0
  {
  }
}
