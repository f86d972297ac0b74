/**
 A calendar at a fixed offset: a clock in milliseconds that is kept within bounds, and units of constant
 length.
 */
module IcuCalendar {
  import opened Wrappers

  const MIN_INT32 := -0x8000_0000

  const MAX_INT32 := 0x7FFF_FFFF

  const MIN_INT64 := -0x8000_0000_0000_0000

  const MAX_INT64 := 0x7FFF_FFFF_FFFF_FFFF

  const MILLIS_PER_DAY := 86_400_000

  /** The largest and smallest instants that the calendar can represent. */
  const MAX_MILLIS := (0x7F00_0000 - 2_440_588) * 86_400_000

  const MIN_MILLIS := (-0x7F00_0000 - 2_440_588) * 86_400_000

  /** The timestamps at positive and negative infinity. */
  const INFINITY := MAX_INT64

  datatype Interval = Interval(months: int, days: int, micros: int)
  {
    predicate Positive() {
      months > 0 || days > 0 || micros > 0
    }

    predicate Negative() {
      months < 0 || days < 0 || micros < 0
    }
  }

  predicate Finite(t: int) {
    t != INFINITY && t != -INFINITY
  }

  predicate IsInt32(x: int) {
    MIN_INT32 <= x <= MAX_INT32
  }

  predicate IsInt64(x: int) {
    MIN_INT64 <= x <= MAX_INT64
  }

  /** Division that truncates toward zero, and its remainder. */
  function TruncDiv(a: int, b: int): int
    requires b > 0
  {
    if a >= 0 then a / b else -(-a / b)
  }

  function TruncRem(a: int, b: int): int
    requires b > 0
  {
    a - TruncDiv(a, b) * b
  }

  function Clamp(millis: int): int {
    if millis < MIN_MILLIS then MIN_MILLIS else if millis > MAX_MILLIS then MAX_MILLIS else millis
  }

  datatype Unit = Millisecond | Second | Minute | Hour | Day
  {
    function Length(): (n: int)
      ensures 1 <= n <= MILLIS_PER_DAY
    {
      match this
      case Millisecond => 1
      case Second => 1_000
      case Minute => 60_000
      case Hour => 3_600_000
      case Day => 86_400_000
    }
  }

  /** An instant that some timestamp in microseconds lies in; all of them are well within the bounds. */
  predicate IsTarget(millis: int) {
    -9_300_000_000_000_000 <= millis <= 9_300_000_000_000_000
  }

  /** The length of a number of units. */
  function Span(unit: Unit, count: int): int {
    count * unit.Length()
  }

  /** Where the clock stands after adding units to an instant. */
  function Reached(start: int, unit: Unit, count: int): int {
    Clamp(start + Span(unit, count))
  }

  /** The number of whole units from start to target, toward zero. */
  function WholeUnits(start: int, target: int, unit: Unit): int {
    TruncDiv(target - start, unit.Length())
  }

  lemma Times(a: int, b: int, n: int)
    requires a <= b && n >= 0
    ensures a * n <= b * n
  {}

  lemma SpanMonotone(unit: Unit, a: int, b: int)
    requires a <= b
    ensures Span(unit, a) <= Span(unit, b)
  {
    Times(a, b, unit.Length());
  }

  lemma SpanOfNone(unit: Unit)
    ensures Span(unit, 0) == 0
  {}

  // ---------------------------------------------------------------------------
  // Counting the units of a field
  // ---------------------------------------------------------------------------

  /** The instant that the calendar comes to when it adds a count of some field to the instant it started from. */
  type Reach = int -> int

  predicate Rises(reach: Reach, n: int) {
    reach(n) < reach(n + 1)
  }

  /** One more always leads to a later instant. */
  ghost predicate Increasing(reach: Reach) {
    forall n :: Rises(reach, n)
  }

  lemma {:induction false} IncreasingOrder(reach: Reach, i: int, j: int)
    requires Increasing(reach) && i <= j
    ensures reach(i) <= reach(j) && (i < j ==> reach(i) < reach(j))
    decreases j - i
  {
    if i < j {
      IncreasingOrder(reach, i, j - 1);
      assert Rises(reach, j - 1);
    }
  }

  /** The count that leads as far toward the target as possible without passing it. */
  predicate Furthest(reach: Reach, target: int, n: int) {
    if reach(0) <= target then 0 <= n && reach(n) <= target < reach(n + 1)
    else n <= 0 && reach(n - 1) < target <= reach(n)
  }

  lemma FurthestIsUnique(reach: Reach, target: int, m: int, n: int)
    requires Increasing(reach) && Furthest(reach, target, m) && Furthest(reach, target, n)
    ensures m == n
  {
    if m < n {
      IncreasingOrder(reach, m + 1, n);
      IncreasingOrder(reach, m, n - 1);
    } else if n < m {
      IncreasingOrder(reach, n + 1, m);
      IncreasingOrder(reach, n, m - 1);
    }
  }

  lemma FurthestWhenHit(reach: Reach, target: int, n: int)
    requires Increasing(reach) && reach(n) == target
    ensures Furthest(reach, target, n)
  {
    assert Rises(reach, n) && Rises(reach, n - 1);
    if n >= 0 {
      IncreasingOrder(reach, 0, n);
    } else {
      IncreasingOrder(reach, n, 0);
    }
  }

  /** The target is further away than a 32-bit count leads. */
  predicate OutOfReach(reach: Reach, target: int) {
    target > reach(MAX_INT32) || target < reach(MIN_INT32)
  }

  /** The clock's bounds do not show for instants that timestamps lie in. */
  lemma ClampCompares(x: int, target: int)
    requires IsTarget(target)
    ensures Clamp(x) < target <==> x < target
    ensures Clamp(x) == target <==> x == target
  {}

  /** Units of constant length, from an instant. */
  function UnitReach(start: int, unit: Unit): Reach {
    (n: int) => start + Span(unit, n)
  }

  lemma UnitIncreasing(start: int, unit: Unit)
    ensures Increasing(UnitReach(start, unit)) && UnitReach(start, unit)(0) == start
  {
    forall n ensures Rises(UnitReach(start, unit), n) {
      assert (n + 1) * unit.Length() == n * unit.Length() + unit.Length();
    }
  }

  /** For units of constant length the furthest count is the number of whole units. */
  lemma FurthestIsWholeUnits(start: int, target: int, unit: Unit, n: int)
    ensures Furthest(UnitReach(start, unit), target, n) <==> n == WholeUnits(start, target, unit)
  {
    var reach, whole := UnitReach(start, unit), WholeUnits(start, target, unit);
    WholeUnitsFurthest(start, target, unit);
    UnitIncreasing(start, unit);
    hide UnitReach, WholeUnits;
    if Furthest(reach, target, n) {
      FurthestIsUnique(reach, target, n, whole);
    }
  }

  lemma WholeUnitsFurthest(start: int, target: int, unit: Unit)
    ensures Furthest(UnitReach(start, unit), target, WholeUnits(start, target, unit))
  {
    var d, l, n := target - start, unit.Length(), WholeUnits(start, target, unit);
    assert (n + 1) * l == n * l + l && (n - 1) * l == n * l - l;
    if d >= 0 {
      assert d == d / l * l + d % l;
    } else {
      assert -d == -d / l * l + -d % l;
      assert n * l == -(-d / l * l);
    }
  }

  function Pow2(k: nat): nat {
    if k == 0 then 1 else 2 * Pow2(k - 1)
  }

  lemma {:induction false} Pow2Monotone(i: nat, j: nat)
    requires i <= j
    ensures 1 <= Pow2(i) <= Pow2(j)
    decreases j
  {
    if i < j {
      Pow2Monotone(i, j - 1);
    } else if i > 0 {
      Pow2Monotone(i - 1, i - 1);
    }
  }

  class Calendar {
    var time: int
    var failed: bool

    ghost predicate Valid()
      reads this
    {
      MIN_MILLIS <= time <= MAX_MILLIS
    }

    constructor ()
      ensures Valid() && !failed && time == 0
    {
      time, failed := 0, false;
    }

    method SetTime(millis: int)
      modifies this
      ensures Valid() && !failed && time == Clamp(millis)
    {
      failed := false;
      time := Clamp(millis);
    }

    /** Sets the clock unless an earlier operation has failed. */
    method SetTimeChecked(millis: int)
      requires Valid()
      modifies this`time
      ensures Valid() && time == if failed then old(time) else Clamp(millis)
    {
      if !failed {
        time := Clamp(millis);
      }
    }

    method Add(unit: Unit, amount: int)
      requires Valid() && IsInt32(amount)
      modifies this`time
      ensures Valid() && time == if failed then old(time) else Reached(old(time), unit, amount)
    {
      if failed || amount == 0 {
        return;
      }
      var delta := amount * unit.Length();
      SetTimeChecked(time + delta);
    }

    /** Goes back to the start and adds a count of the field. */
    method Try(reach: Reach, count: int) returns (reached: int)
      requires Valid() && !failed && IsInt32(count)
      modifies this`time
      ensures Valid() && reached == time == Clamp(reach(count))
    {
      SetTimeChecked(reach(count));
      reached := time;
    }

    /** Walks from an estimate to the answer: whatever the estimate, a count that is found is the furthest one. */
    method TryGuessDifference(reach: Reach, target: int, estimate: int) returns (result: Option<int>)
      requires Valid() && !failed && IsTarget(target) && reach(0) != target && Increasing(reach)
      requires MIN_INT32 <= 2 * estimate <= MAX_INT32
      modifies this`time
      ensures Valid()
      ensures result.Some? ==> Furthest(reach, target, result.value) && MIN_INT32 < result.value < MAX_INT32
    {
      hide Clamp, Increasing, Furthest;
      var step := if target < reach(0) then -1 else 1;
      var count := estimate;
      var reached := Try(reach, count);
      if !Reaches(step, reached, target) {
        for i := 0 to 4
          invariant Valid() && count == estimate - i * step
          invariant !Reaches(step, Clamp(reach(count)), target)
        {
          count := count - step;
          reached := Try(reach, count);
          if Reaches(step, reached, target) {
            LastReached(reach, target, count, step);
            return Some(count);
          }
        }
        return None;
      }
      for i := 0 to 4
        invariant Valid() && count == estimate + i * step
        invariant Reaches(step, Clamp(reach(count)), target)
      {
        var next := Try(reach, count + step);
        if !Reaches(step, next, target) {
          LastReached(reach, target, count, step);
          return Some(count);
        }
        count := count + step;
      }
      return None;
    }

    /**
     The furthest count of a field that leads from the clock to the target, leaving the clock where it leads.  It
     fails exactly when 32 bits do not reach the target.
     */
    method FieldDifference(reach: Reach, target: int, estimate: Option<int>) returns (result: int)
      requires Valid() && reach(0) == time && Increasing(reach) && IsTarget(target)
      requires estimate.Some? ==> MIN_INT32 <= 2 * estimate.value <= MAX_INT32
      modifies this
      ensures Valid()
      ensures failed <==> OutOfReach(reach, target)
      ensures !failed ==> Furthest(reach, target, result) && time == reach(result) && IsInt32(result)
    {
      IncreasingOrder(reach, 0, MAX_INT32);
      IncreasingOrder(reach, MIN_INT32, 0);
      failed := false;
      var start := time;
      if start != target && estimate.Some? {
        var guess := TryGuessDifference(reach, target, estimate.value);
        if guess.Some? {
          result := guess.value;
          FurthestInside(reach, target, result);
          var _ := Try(reach, result);
          return;
        }
      }
      hide Clamp, Increasing;
      if start < target {
        result := SearchForward(reach, target);
      } else if start > target {
        result := SearchBack(reach, target);
      } else {
        FurthestWhenHit(reach, target, 0);
        FurthestInside(reach, target, 0);
        result := 0;
        var _ := Try(reach, result);
      }
    }

    /** Doubles the amount until it overshoots, then halves the gap. */
    method SearchForward(reach: Reach, target: int) returns (result: int)
      requires Valid() && !failed && MIN_MILLIS <= reach(0) < target && IsTarget(target) && Increasing(reach)
      modifies this
      ensures Valid()
      ensures failed <==> target > reach(MAX_INT32)
      ensures !failed ==> Furthest(reach, target, result) && time == reach(result) && IsInt32(result)
    {
      hide Clamp, Increasing, Furthest;
      var min, max := 0, 1;
      while true
        invariant Valid() && !failed
        invariant 0 <= min < max <= MAX_INT32 && reach(min) < target
        decreases MAX_INT32 - max
      {
        ClampCompares(reach(max), target);
        IncreasingOrder(reach, max, MAX_INT32);
        var ms := Try(reach, max);
        if ms == target {
          FurthestWhenHit(reach, target, max);
          return max;
        }
        if ms > target {
          break;
        }
        if max == MAX_INT32 {
          failed := true;
          return 0;
        }
        min := max;
        max := if 2 * max > MAX_INT32 then MAX_INT32 else 2 * max;
      }
      IncreasingOrder(reach, max, MAX_INT32);
      while max - min > 1
        invariant Valid() && !failed
        invariant 0 <= min < max <= MAX_INT32
        invariant reach(min) < target < reach(max)
      {
        var t := min + (max - min) / 2;
        ClampCompares(reach(t), target);
        var ms := Try(reach, t);
        if ms == target {
          FurthestWhenHit(reach, target, t);
          return t;
        } else if ms > target {
          max := t;
        } else {
          min := t;
        }
      }
      FurthestForward(reach, target, min);
      FurthestInside(reach, target, min);
      var _ := Try(reach, min);
      return min;
    }

    method SearchBack(reach: Reach, target: int) returns (result: int)
      requires Valid() && !failed && target < reach(0) <= MAX_MILLIS && IsTarget(target) && Increasing(reach)
      modifies this
      ensures Valid()
      ensures failed <==> target < reach(MIN_INT32)
      ensures !failed ==> Furthest(reach, target, result) && time == reach(result) && IsInt32(result)
    {
      hide Clamp, Increasing, Furthest, Pow2;
      var min, max := 0, -1;
      ghost var k: nat := 0;
      PowersOfTwo(k);
      while true
        invariant Valid() && !failed && k <= 31 && max + Pow2(k) == 0
        invariant MIN_INT32 <= max < min <= 0 && reach(min) > target
        decreases 31 - k
      {
        ClampCompares(reach(max), target);
        IncreasingOrder(reach, MIN_INT32, max);
        PowersOfTwo(k);
        var ms := Try(reach, max);
        if ms == target {
          FurthestWhenHit(reach, target, max);
          return max;
        }
        if ms < target {
          break;
        }
        if max == MIN_INT32 {
          failed := true;
          return 0;
        }
        min := max;
        max := 2 * max;
        k := k + 1;
        PowersOfTwo(k);
      }
      IncreasingOrder(reach, MIN_INT32, max);
      while min - max > 1
        invariant Valid() && !failed
        invariant MIN_INT32 <= max < min <= 0
        invariant reach(max) < target < reach(min)
      {
        var t := min - (min - max) / 2;
        ClampCompares(reach(t), target);
        var ms := Try(reach, t);
        if ms == target {
          FurthestWhenHit(reach, target, t);
          return t;
        } else if ms < target {
          max := t;
        } else {
          min := t;
        }
      }
      FurthestBack(reach, target, min);
      FurthestInside(reach, target, min);
      var _ := Try(reach, min);
      return min;
    }

    /** The difference in units of constant length: it is the number of whole units toward zero. */
    method UnitDifference(target: int, unit: Unit, estimate: Option<int>) returns (result: int)
      requires Valid() && IsTarget(target)
      requires estimate.Some? ==> MIN_INT32 <= 2 * estimate.value <= MAX_INT32
      modifies this
      ensures Valid()
      ensures failed <==> OutOfReach(UnitReach(old(time), unit), target)
      ensures !failed ==>
        result == WholeUnits(old(time), target, unit) && time == old(time) + Span(unit, result) && IsInt32(result)
    {
      ghost var start := time;
      UnitIncreasing(time, unit);
      result := FieldDifference(UnitReach(time, unit), target, estimate);
      FurthestIsWholeUnits(start, target, unit, result);
      assert UnitReach(start, unit)(result) == start + Span(unit, result);
      hide Furthest, WholeUnits, Span, UnitReach, Increasing;
    }
  }

  lemma FurthestForward(reach: Reach, target: int, n: int)
    requires 0 <= n && reach(0) < target && reach(n) < target < reach(n + 1)
    ensures Furthest(reach, target, n)
  {}

  lemma FurthestBack(reach: Reach, target: int, n: int)
    requires n <= 0 && reach(0) > target && reach(n - 1) < target < reach(n)
    ensures Furthest(reach, target, n)
  {}

  /** The furthest count does not lead to the bounds of the clock. */
  lemma FurthestInside(reach: Reach, target: int, n: int)
    requires IsTarget(target) && MIN_MILLIS <= reach(0) <= MAX_MILLIS && Increasing(reach) && Furthest(reach, target, n)
    ensures Clamp(reach(n)) == reach(n)
    ensures MIN_INT32 < n < MAX_INT32 ==> !OutOfReach(reach, target)
  {
    if n >= 0 {
      IncreasingOrder(reach, 0, n);
    } else {
      IncreasingOrder(reach, n, 0);
    }
    if MIN_INT32 < n < MAX_INT32 {
      IncreasingOrder(reach, n + 1, MAX_INT32);
      IncreasingOrder(reach, MIN_INT32, n - 1);
      IncreasingOrder(reach, n, MAX_INT32);
      IncreasingOrder(reach, MIN_INT32, n);
    }
  }

  lemma Pow2Of31()
    ensures Pow2(30) == 0x4000_0000 && Pow2(31) == 0x8000_0000
  {
    assert Pow2(4) == 0x10;
    assert Pow2(8) == 0x100;
    assert Pow2(12) == 0x1000;
    assert Pow2(16) == 0x1_0000;
    assert Pow2(20) == 0x10_0000;
    assert Pow2(24) == 0x100_0000;
    assert Pow2(28) == 0x1000_0000;
  }

  /** Doubling -1 gets to the smallest 32-bit number exactly, at the 31st step. */
  lemma PowersOfTwo(k: nat)
    requires k <= 31
    ensures 1 <= Pow2(k) <= 0x8000_0000 && (k == 31 <==> Pow2(k) == 0x8000_0000)
    ensures k == 0 ==> Pow2(k) == 1
    ensures k < 31 ==> Pow2(k + 1) == 2 * Pow2(k)
  {
    Pow2Of31();
    Pow2Monotone(k, 31);
    if k < 31 {
      Pow2Monotone(k, 30);
    }
  }

  predicate Reaches(step: int, reached: int, target: int) {
    if step > 0 then reached <= target else reached >= target
  }

  /** A count that reaches the target while one step more does not is the furthest one. */
  lemma LastReached(reach: Reach, target: int, count: int, step: int)
    requires IsTarget(target) && step == (if target < reach(0) then -1 else 1) && Increasing(reach)
    requires Reaches(step, Clamp(reach(count)), target) && !Reaches(step, Clamp(reach(count + step)), target)
    ensures Furthest(reach, target, count)
  {
    ClampCompares(reach(count), target);
    ClampCompares(reach(count + step), target);
    if step > 0 {
      IncreasingOrder(reach, if count < 0 then count + 1 else 0, if count < 0 then 0 else count);
    } else {
      IncreasingOrder(reach, if count > 0 then 0 else count, if count > 0 then count - 1 else 0);
    }
  }
}
