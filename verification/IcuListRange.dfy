/** range and generate_series over timestamps: count the elements first, then write them. */
module IcuListRange {
  import opened Wrappers
  import opened IcuCalendar

  const MAX_ELEMENTS := 0xFFFF_FFFF

  datatype RangeError = InfiniteBound | MixedSigns | TooManyElements | AddFailed(error: int)

  /** The calendar's Add is deterministic and may fail; it is the same one while counting and writing. */
  type Add = (int, Interval) -> Result<int, int>

  datatype Range = Range(start: int, end: int, step: Interval, inclusive: bool)
  {
    /** The loop condition, in the direction of the step. */
    predicate Within(t: int) {
      if step.Negative() then (if inclusive then t >= end else t > end)
      else (if inclusive then t <= end else t < end)
    }
  }

  /** start with the step added n times. */
  function Iterate(add: Add, r: Range, n: nat): Result<int, int> {
    if n == 0 then Ok(r.start)
    else
      match Iterate(add, r, n - 1)
      case Err(e) => Err(e)
      case Ok(t) => add(t, r.step)
  }

  predicate Passes(add: Add, r: Range, k: nat) {
    Iterate(add, r, k).Ok? && r.Within(Iterate(add, r, k).value)
  }

  /** The first n iterates exist and lie within the bound. */
  predicate PassUpTo(add: Add, r: Range, n: nat) {
    forall k :: 0 <= k < n ==> Passes(add, r, k)
  }

  function Values(add: Add, r: Range, n: nat): (vs: seq<int>)
    requires PassUpTo(add, r, n)
    ensures |vs| == n && forall k :: 0 <= k < n ==> Passes(add, r, k) && Iterate(add, r, k) == Ok(vs[k])
  {
    seq(n, k requires 0 <= k < n && Passes(add, r, k) => Iterate(add, r, k).value)
  }

  /** The counting loop from the n-th iterate on. */
  function CountFrom(add: Add, r: Range, n: nat, t: int): Result<nat, RangeError>
    requires n <= MAX_ELEMENTS
    decreases MAX_ELEMENTS - n
  {
    if !r.Within(t) then Ok(n)
    else
      match add(t, r.step)
      case Err(e) => Err(AddFailed(e))
      case Ok(next) => if n + 1 > MAX_ELEMENTS then Err(TooManyElements) else CountFrom(add, r, n + 1, next)
  }

  function Length(add: Add, r: Range): Result<nat, RangeError> {
    if !r.step.Negative() && !r.step.Positive() then Ok(0)
    else if !Finite(r.start) || !Finite(r.end) then Err(InfiniteBound)
    else if r.step.Negative() && r.step.Positive() then Err(MixedSigns)
    else if r.start > r.end && r.step.Positive() then Ok(0)
    else if r.start < r.end && r.step.Negative() then Ok(0)
    else CountFrom(add, r, 0, r.start)
  }

  method ListLength(add: Add, r: Range) returns (length: Result<nat, RangeError>)
    ensures length == Length(add, r)
  {
    var isPositive, isNegative := r.step.Positive(), r.step.Negative();
    if !isNegative && !isPositive {
      return Ok(0);
    }
    if !Finite(r.start) || !Finite(r.end) {
      return Err(InfiniteBound);
    }
    if isNegative && isPositive {
      return Err(MixedSigns);
    }
    if (r.start > r.end && isPositive) || (r.start < r.end && isNegative) {
      return Ok(0);
    }
    var startValue, totalValues := r.start, 0;
    if isNegative {
      while if r.inclusive then startValue >= r.end else startValue > r.end
        invariant totalValues <= MAX_ELEMENTS
        invariant CountFrom(add, r, totalValues, startValue) == Length(add, r)
        decreases MAX_ELEMENTS - totalValues
      {
        var next := add(startValue, r.step);
        if next.Err? {
          return Err(AddFailed(next.error));
        }
        startValue, totalValues := next.value, totalValues + 1;
        if totalValues > MAX_ELEMENTS {
          return Err(TooManyElements);
        }
      }
    } else {
      while if r.inclusive then startValue <= r.end else startValue < r.end
        invariant totalValues <= MAX_ELEMENTS
        invariant CountFrom(add, r, totalValues, startValue) == Length(add, r)
        decreases MAX_ELEMENTS - totalValues
      {
        var next := add(startValue, r.step);
        if next.Err? {
          return Err(AddFailed(next.error));
        }
        startValue, totalValues := next.value, totalValues + 1;
        if totalValues > MAX_ELEMENTS {
          return Err(TooManyElements);
        }
      }
    }
    return Ok(totalValues);
  }

  /** The count ends at i: the bound is passed, Add has failed, or there are too many elements. */
  ghost predicate EndsAt(add: Add, r: Range, count: Result<nat, RangeError>, i: nat) {
    && PassUpTo(add, r, i)
    && match count
       case Ok(n) => n == i <= MAX_ELEMENTS && Iterate(add, r, i).Ok? && !r.Within(Iterate(add, r, i).value)
       case Err(AddFailed(e)) => 0 < i <= MAX_ELEMENTS + 1 && Iterate(add, r, i) == Err(e)
       case Err(TooManyElements) => i == MAX_ELEMENTS + 1 && Iterate(add, r, i).Ok?
       case _ => false
  }

  ghost predicate CountEnds(add: Add, r: Range, count: Result<nat, RangeError>) {
    exists i :: EndsAt(add, r, count, i)
  }

  lemma {:induction false} CountFromMeaning(add: Add, r: Range, n: nat, t: int)
    requires n <= MAX_ELEMENTS && PassUpTo(add, r, n) && Iterate(add, r, n) == Ok(t)
    ensures CountEnds(add, r, CountFrom(add, r, n, t))
    decreases MAX_ELEMENTS - n
  {
    var count := CountFrom(add, r, n, t);
    if !r.Within(t) {
      assert EndsAt(add, r, count, n);
    } else {
      assert PassUpTo(add, r, n + 1);
      assert Iterate(add, r, n + 1) == add(t, r.step);
      if add(t, r.step).Ok? && n + 1 <= MAX_ELEMENTS {
        CountFromMeaning(add, r, n + 1, add(t, r.step).value);
      } else {
        assert EndsAt(add, r, count, n + 1);
      }
    }
  }

  lemma NotBeyond(add: Add, r: Range, count: Result<nat, RangeError>, i: nat, j: nat)
    requires EndsAt(add, r, count, i) && PassUpTo(add, r, j) && j <= MAX_ELEMENTS + 1
    ensures j <= i
  {
    assert i < j ==> Passes(add, r, i);
  }

  /** There is at most one way for the count to end, so the three cases determine it. */
  lemma CountIsUnique(add: Add, r: Range, a: Result<nat, RangeError>, b: Result<nat, RangeError>)
    requires CountEnds(add, r, a) && CountEnds(add, r, b)
    ensures a == b
  {
    var i :| EndsAt(add, r, a, i);
    var j :| EndsAt(add, r, b, j);
    NotBeyond(add, r, a, i, j);
    NotBeyond(add, r, b, j, i);
  }

  /** The step has one sign and the bounds are finite, so the elements are really counted. */
  predicate Countable(r: Range) {
    && r.step.Positive() != r.step.Negative()
    && Finite(r.start) && Finite(r.end)
  }

  /** Leaving early when the end lies behind the start gives what the loop would have counted. */
  lemma LengthCounts(add: Add, r: Range)
    requires Countable(r)
    ensures CountEnds(add, r, Length(add, r))
  {
    assert Iterate(add, r, 0) == Ok(r.start);
    CountFromMeaning(add, r, 0, r.start);
  }

  // ---------------------------------------------------------------------------
  // The list, element by element
  // ---------------------------------------------------------------------------

  predicate GoesUp(r: Range) {
    r.step.months > 0 || r.step.days > 0 || r.step.micros > 0
  }

  predicate GoesDown(r: Range) {
    r.step.months < 0 || r.step.days < 0 || r.step.micros < 0
  }

  /** Short of the end in the direction of the step; at the end only if that is included. */
  predicate ShortOfEnd(r: Range, t: int) {
    || (GoesUp(r) && !GoesDown(r) && t < r.end)
    || (GoesDown(r) && !GoesUp(r) && t > r.end)
    || (r.inclusive && t == r.end)
  }

  /** From the start in steps, all short of the end. */
  predicate Steps(add: Add, r: Range, vs: seq<int>) {
    && (forall k :: 0 <= k < |vs| ==> ShortOfEnd(r, vs[k]))
    && (vs != [] ==> vs[0] == r.start)
    && (forall k :: 0 < k < |vs| ==> add(vs[k - 1], r.step) == Ok(vs[k]))
  }

  /** What follows the last of the values: the start, if there are none. */
  function Next(add: Add, r: Range, vs: seq<int>): Result<int, int> {
    if vs == [] then Ok(r.start) else add(vs[|vs| - 1], r.step)
  }

  /** The values from start to the last one short of the end; or an error in reaching a value, or too many of them. */
  ghost predicate IsRange(add: Add, r: Range, list: Result<Option<seq<int>>, RangeError>) {
    if !GoesUp(r) && !GoesDown(r) then list == Ok(Some([]))
    else if !Finite(r.start) || !Finite(r.end) then list == Err(InfiniteBound)
    else if GoesUp(r) && GoesDown(r) then list == Err(MixedSigns)
    else
      match list
      case Ok(None) => false
      case Ok(Some(vs)) =>
        Steps(add, r, vs) && |vs| <= 0xFFFF_FFFF && Next(add, r, vs).Ok? && !ShortOfEnd(r, Next(add, r, vs).value)
      case Err(AddFailed(e)) => exists vs :: Steps(add, r, vs) && Next(add, r, vs) == Err(e) && |vs| <= 0x1_0000_0000
      case Err(TooManyElements) => exists vs :: Steps(add, r, vs) && |vs| == 0x1_0000_0000 && Next(add, r, vs).Ok?
      case Err(_) => false
  }

  lemma WithinMeaning(r: Range, t: int)
    requires Countable(r)
    ensures r.Within(t) <==> ShortOfEnd(r, t)
  {}

  lemma PassedValues(add: Add, r: Range, n: nat)
    requires Countable(r) && PassUpTo(add, r, n)
    ensures Steps(add, r, Values(add, r, n)) && Next(add, r, Values(add, r, n)) == Iterate(add, r, n)
  {
    var vs := Values(add, r, n);
    hide Values, Range.Within, ShortOfEnd;
    forall k | 0 <= k < n ensures ShortOfEnd(r, vs[k]) {
      assert Passes(add, r, k);
      WithinMeaning(r, vs[k]);
    }
    forall k | 0 < k < n ensures add(vs[k - 1], r.step) == Ok(vs[k]) {
      assert Passes(add, r, k) && Passes(add, r, k - 1);
    }
    if n > 0 {
      assert Passes(add, r, 0) && Passes(add, r, n - 1);
    }
  }

  lemma CountedRange(add: Add, r: Range, n: nat)
    requires Countable(r) && CountEnds(add, r, Ok(n)) && PassUpTo(add, r, n)
    ensures IsRange(add, r, Ok(Some(Values(add, r, n))))
  {
    var i :| EndsAt(add, r, Ok(n), i);
    PassedValues(add, r, n);
    WithinMeaning(r, Iterate(add, r, n).value);
    hide Values, Range.Within, ShortOfEnd, Steps;
  }

  lemma FailedRange(add: Add, r: Range, e: RangeError)
    requires Countable(r) && CountEnds(add, r, Err(e))
    ensures IsRange(add, r, Err(e))
  {
    var i :| EndsAt(add, r, Err(e), i);
    PassedValues(add, r, i);
    hide Values, Range.Within, ShortOfEnd, Steps;
    assert Steps(add, r, Values(add, r, i));
  }

  /**
   One row: NULL in, NULL out.  A zero step gives no elements, even between infinite bounds; otherwise infinite
   bounds, then mixed signs, are errors.  What can be counted gives the iterates of start that lie within the bound,
   up to the first that does not, or the error that ended the count: every Add of the writing loop was already made
   by the counting loop, so writing cannot fail.
   */
  method ListRange(add: Add, row: Option<Range>) returns (list: Result<Option<seq<int>>, RangeError>)
    ensures row.None? ==> list == Ok(None)
    ensures row.Some? ==> IsRange(add, row.value, list)
    ensures row.Some? && !Countable(row.value) ==>
      list == if !row.value.step.Positive() && !row.value.step.Negative() then Ok(Some([]))
              else if !Finite(row.value.start) || !Finite(row.value.end) then Err(InfiniteBound)
              else Err(MixedSigns)
    ensures row.Some? && Countable(row.value) && list.Err? ==> CountEnds(add, row.value, Err(list.error))
    ensures row.Some? && Countable(row.value) && list.Ok? ==>
      && list.value.Some?
      && var n := |list.value.value|;
      && CountEnds(add, row.value, Ok(n)) && PassUpTo(add, row.value, n) && list.value.value == Values(add, row.value, n)
  {
    if row.None? {
      return Ok(None);
    }
    var r := row.value;
    var length := ListLength(add, r);
    PassedWhenCounted(add, r);
    if Countable(r) {
      LengthCounts(add, r);
    }
    hide Length, CountEnds;
    if length.Err? {
      if Countable(r) {
        FailedRange(add, r, length.error);
      }
      return Err(length.error);
    }
    var values: seq<int> := [];
    var rangeValue := r.start;
    for rangeIdx := 0 to length.value
      invariant PassUpTo(add, r, length.value) && values == Values(add, r, length.value)[..rangeIdx]
      invariant Iterate(add, r, if rangeIdx > 0 then rangeIdx - 1 else 0) == Ok(rangeValue)
    {
      if rangeIdx > 0 {
        assert Passes(add, r, rangeIdx);
        rangeValue := add(rangeValue, r.step).value;
      }
      values := values + [rangeValue];
    }
    if Countable(r) {
      CountedRange(add, r, length.value);
      assert values == Values(add, r, length.value);
    }
    return Ok(Some(values));
  }

  lemma PassedWhenCounted(add: Add, r: Range)
    ensures Length(add, r).Ok? ==> PassUpTo(add, r, Length(add, r).value)
  {
    if Countable(r) {
      LengthCounts(add, r);
    }
  }
}
