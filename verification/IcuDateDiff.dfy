/** date_diff: both timestamps are truncated to the part, then subtracted in it. */
module IcuDateDiff {
  import opened Wrappers
  import opened IcuCalendar
  import opened IcuDateAdd
  import opened IcuDateTrunc

  // ---------------------------------------------------------------------------
  // Adding months
  // ---------------------------------------------------------------------------

  /** The clock time at which a month starts. */
  function MonthMillis(z: Zone, k: int): int {
    z.first(k) * MILLIS_PER_DAY - z.offset
  }

  /** The calendar's Add for months: the day is kept within the resulting month. */
  function AddMonths(z: Zone, t: int, n: int): int
    requires Ordered(z.first)
  {
    var day := (t + z.offset) / MILLIS_PER_DAY;
    var k := MonthOf(z.first, day);
    var lastDay := z.first(k + n + 1) - z.first(k + n) - 1;
    var dayOfMonth := day - z.first(k);
    MonthMillis(z, k + n) + (if dayOfMonth < lastDay then dayOfMonth else lastDay) * MILLIS_PER_DAY +
      (t + z.offset) % MILLIS_PER_DAY
  }

  /** Where adding a count of fields of `months` months leads. */
  function MonthReach(z: Zone, start: int, months: int): Reach
    requires Ordered(z.first)
  {
    (n: int) => AddMonths(z, start, n * months)
  }

  /** The result lies in the month that was counted to. */
  lemma AddMonthsWithin(z: Zone, t: int, n: int)
    requires Ordered(z.first)
    ensures var k := MonthOf(z.first, (t + z.offset) / MILLIS_PER_DAY);
      MonthMillis(z, k + n) <= AddMonths(z, t, n) < MonthMillis(z, k + n + 1)
  {
    var k := MonthOf(z.first, (t + z.offset) / MILLIS_PER_DAY);
    assert MonthStep(z.first, k + n);
  }

  lemma MonthMillisOrdered(z: Zone, i: int, j: int)
    requires Ordered(z.first)
    ensures MonthMillis(z, i) <= MonthMillis(z, j) <==> i <= j
  {
    if i <= j {
      MonthsOrdered(z.first, i, j);
    } else {
      MonthsOrdered(z.first, j, i);
    }
  }

  /** Adding more months always leads to a later instant, although the day may be cut to the end of a month. */
  lemma MonthReachIncreasing(z: Zone, start: int, months: int)
    requires Ordered(z.first) && months > 0
    ensures Increasing(MonthReach(z, start, months)) && MonthReach(z, start, months)(0) == start
  {
    var reach := MonthReach(z, start, months);
    var k := MonthOf(z.first, (start + z.offset) / MILLIS_PER_DAY);
    AddNoMonths(z, start);
    hide AddMonths, MonthMillis;
    forall n ensures Rises(reach, n) {
      assert (n + 1) * months == n * months + months;
      AddMonthsWithin(z, start, n * months);
      AddMonthsWithin(z, start, (n + 1) * months);
      MonthMillisOrdered(z, k + n * months + 1, k + (n + 1) * months);
    }
  }

  lemma AddNoMonths(z: Zone, t: int)
    requires Ordered(z.first)
    ensures AddMonths(z, t, 0) == t
  {}

  /** From the start of a month, adding months leads to the start of a month. */
  lemma AddMonthsToStart(z: Zone, k: int, n: int)
    requires Ordered(z.first)
    ensures AddMonths(z, MonthMillis(z, k), n) == MonthMillis(z, k + n)
  {
    MonthOfBetween(z.first, z.first(k), k);
    MonthOfBetween(z.first, z.first(k), k + 1);
    assert MonthStep(z.first, k) && MonthStep(z.first, k + n);
    assert (MonthMillis(z, k) + z.offset) / MILLIS_PER_DAY == z.first(k);
  }

  lemma StartsCompare(z: Zone, i: int, j: int, months: int)
    requires Ordered(z.first) && months > 0
    ensures MonthMillis(z, i * months) <= MonthMillis(z, j * months) <==> i <= j
  {
    MonthMillisOrdered(z, i * months, j * months);
    if i <= j {
      Times(i, j, months);
    } else {
      Times(j + 1, i, months);
      assert (j + 1) * months == j * months + months;
    }
  }

  /** A count of fields from the start of a field leads to, or beyond, the start of another. */
  lemma StartReaches(z: Zone, i: int, j: int, months: int, n: int)
    requires Ordered(z.first) && months > 0
    ensures
      var reach := MonthReach(z, MonthMillis(z, i * months), months);
      && reach(n) == MonthMillis(z, (i + n) * months)
      && (reach(n) <= MonthMillis(z, j * months) <==> n <= j - i)
      && (MonthMillis(z, j * months) <= reach(n) <==> j - i <= n)
  {
    AddMonthsToStart(z, i * months, n * months);
    assert i * months + n * months == (i + n) * months;
    hide AddMonths;
    StartsCompare(z, i + n, j, months);
    StartsCompare(z, j, i + n, months);
  }

  /** Between starts of parts of the same kind the furthest count is the number of parts between them. */
  lemma FurthestBetweenStarts(z: Zone, i: int, j: int, months: int, n: int)
    requires Ordered(z.first) && months > 0
    ensures
      var reach, target := MonthReach(z, MonthMillis(z, i * months), months), MonthMillis(z, j * months);
      && (Furthest(reach, target, n) <==> n == j - i)
      && (OutOfReach(reach, target) <==> j - i > MAX_INT32 || j - i < MIN_INT32)
  {
    hide MonthReach, MonthMillis, Ordered;
    StartReaches(z, i, j, months, 0);
    StartReaches(z, i, j, months, n);
    StartReaches(z, i, j, months, n + 1);
    StartReaches(z, i, j, months, n - 1);
    StartReaches(z, i, j, months, MAX_INT32);
    StartReaches(z, i, j, months, MIN_INT32);
  }

  // ---------------------------------------------------------------------------
  // The difference of two truncated timestamps
  // ---------------------------------------------------------------------------

  /** SubtractField for the fields that the parts from hours on are counted in. */
  predicate FieldsApart(reach: Reach, target: int, n: int) {
    !OutOfReach(reach, target) && Furthest(reach, target, n)
  }

  /** The field that a part from hours on is subtracted in, from an instant; quarters are subtracted in months. */
  function FieldReach(z: Zone, part: Part, start: int): Reach
    requires Ordered(z.first) && part.Rank() >= 4
  {
    match part
    case Hours => UnitReach(start, Hour)
    case Days => UnitReach(start, Day)
    case Year => MonthReach(z, start, 12)
    case _ => MonthReach(z, start, 1)
  }

  /** The subtraction function of the part, on truncated timestamps, gives n without an error. */
  ghost predicate Subtracts(z: Zone, part: Part, a: int, b: int, n: int)
    requires Ordered(z.first)
  {
    if part.Rank() < 4 then IsInt64(b - a) && n == TruncDiv(b - a, part.Micros())
    else
      var reach, target := FieldReach(z, part, a / MICROS_PER_MSEC), TruncDiv(b, MICROS_PER_MSEC);
      if part.Quarter? then exists m :: FieldsApart(reach, target, m) && n == TruncDiv(m, 3)
      else FieldsApart(reach, target, n)
  }

  /** date_diff gives n without an error. */
  ghost predicate Differs(z: Zone, part: Part, a: int, b: int, n: int)
    requires Ordered(z.first)
  {
    Subtracts(z, part, Truncated(z, part, a), Truncated(z, part, b), n)
  }

  /** The subtraction does not overflow: 64 bits below hours, and 32 bits of the field that is counted. */
  predicate InBounds(z: Zone, part: Part, a: int, b: int)
    requires Ordered(z.first)
  {
    var n := Index(z, part, b) - Index(z, part, a);
    if part.Rank() < 4 then IsInt64(Truncated(z, part, b) - Truncated(z, part, a))
    else IsInt32(if part.Quarter? then 3 * n else n)
  }

  lemma ExactQuotient(i: int, j: int, l: int)
    requires l > 0
    ensures TruncDiv(j * l - i * l, l) == j - i
  {
    var n := j - i;
    assert j * l - i * l == n * l;
    Quotient(n * l, l, n);
    if n < 0 {
      assert -(n * l) == -n * l;
      Quotient(-n * l, l, -n);
    }
  }

  lemma WholeMillis(t: int, millis: int)
    requires t == millis * MICROS_PER_MSEC
    ensures t / MICROS_PER_MSEC == TruncDiv(t, MICROS_PER_MSEC) == millis
  {}

  lemma UnitsCompare(l: int, i: int, j: int)
    requires l > 0
    ensures i * l <= j * l <==> i <= j
  {
    if i <= j {
      Times(i, j, l);
    } else {
      Times(j + 1, i, l);
      assert (j + 1) * l == j * l + l;
    }
  }

  /** Between starts of hours or days the whole units are the parts between them. */
  lemma UnitsBetweenStarts(offset: int, unit: Unit, i: int, j: int, n: int)
    ensures
      var l := unit.Length();
      FieldsApart(UnitReach(i * l - offset, unit), j * l - offset, n) <==> IsInt32(j - i) && n == j - i
  {
    hide Furthest, TruncDiv;
    var l := unit.Length();
    var a, b := i * l - offset, j * l - offset;
    FurthestIsWholeUnits(a, b, unit, n);
    ExactQuotient(i, j, l);
    UnitsCompare(l, j - i, MAX_INT32);
    UnitsCompare(l, MIN_INT32, j - i);
    assert b - a == (j - i) * l;
    hide Unit.Length;
  }

  /** The clock times of the starts of parts from hours on. */
  function StartMillis(z: Zone, part: Part, i: int): int
    requires part.Rank() >= 4
  {
    if part.Constant() then i * (if part == Hours then Hour else Day).Length() - z.offset
    else MonthMillis(z, i * part.MonthCount())
  }

  lemma StartIsWholeMillis(z: Zone, part: Part, i: int)
    requires part.Rank() >= 4
    ensures Start(z, part, i) / MICROS_PER_MSEC == TruncDiv(Start(z, part, i), MICROS_PER_MSEC) == StartMillis(z, part, i)
  {
    WholeMillis(Start(z, part, i), StartMillis(z, part, i));
  }

  /** Subtraction between starts of parts from hours on. */
  lemma FieldsBetweenStarts(z: Zone, part: Part, i: int, j: int, n: int)
    requires Ordered(z.first) && part.Rank() >= 4
    ensures Subtracts(z, part, Start(z, part, i), Start(z, part, j), n) <==>
      n == j - i && IsInt32(if part.Quarter? then 3 * (j - i) else j - i)
  {
    StartIsWholeMillis(z, part, i);
    StartIsWholeMillis(z, part, j);
    hide Start, TruncDiv, MonthReach, UnitReach, MonthMillis, Unit.Length, FieldsApart;
    match part
    case Hours => UnitsBetweenStarts(z.offset, Hour, i, j, n);
    case Days => UnitsBetweenStarts(z.offset, Day, i, j, n);
    case Month => MonthsApart(z, i, j, 1, n);
    case Year => MonthsApart(z, i, j, 12, n);
    case Quarter => QuartersApart(z, i, j, n);
  }

  lemma QuartersApart(z: Zone, i: int, j: int, n: int)
    requires Ordered(z.first)
    ensures (exists m :: FieldsApart(MonthReach(z, MonthMillis(z, i * 3), 1), MonthMillis(z, j * 3), m) && n == TruncDiv(m, 3)) <==>
      IsInt32(3 * (j - i)) && n == j - i
  {
    hide FieldsApart, MonthReach, MonthMillis, TruncDiv;
    ThreeQuotient(i, j);
    forall m ensures FieldsApart(MonthReach(z, MonthMillis(z, i * 3), 1), MonthMillis(z, j * 3), m) <==>
      IsInt32(3 * (j - i)) && m == j * 3 - i * 3
    {
      MonthsApart(z, i * 3, j * 3, 1, m);
    }
  }

  lemma ThreeQuotient(i: int, j: int)
    ensures TruncDiv(j * 3 - i * 3, 3) == j - i
  {
    ExactQuotient(i, j, 3);
  }

  lemma MonthsApart(z: Zone, i: int, j: int, months: int, n: int)
    requires Ordered(z.first) && months > 0
    ensures FieldsApart(MonthReach(z, MonthMillis(z, i * months), months), MonthMillis(z, j * months), n) <==>
      IsInt32(j - i) && n == j - i
  {
    FurthestBetweenStarts(z, i, j, months, n);
    hide Furthest, OutOfReach, MonthReach, MonthMillis;
  }

  /**
   Unless the subtraction overflows, date_diff is the number of boundaries of the part from the one
   timestamp to the other.
   */
  lemma DiffersMeaning(z: Zone, part: Part, a: int, b: int, n: int)
    requires Ordered(z.first)
    ensures Differs(z, part, a, b, n) <==> InBounds(z, part, a, b) && n == Index(z, part, b) - Index(z, part, a)
  {
    hide Index, Subtracts, Start;
    if part.Rank() < 4 {
      MicrosBetweenStarts(z, part, Index(z, part, a), Index(z, part, b), n);
    } else {
      FieldsBetweenStarts(z, part, Index(z, part, a), Index(z, part, b), n);
    }
  }

  /** Subtraction between starts of parts below hours. */
  lemma MicrosBetweenStarts(z: Zone, part: Part, i: int, j: int, n: int)
    requires Ordered(z.first) && part.Rank() < 4
    ensures Subtracts(z, part, Start(z, part, i), Start(z, part, j), n) <==>
      n == j - i && IsInt64(Start(z, part, j) - Start(z, part, i))
  {
    ExactQuotient(i, j, part.Micros());
    hide TruncDiv, Part.Micros;
  }

  /** In months, quarters and years no two 64-bit timestamps are too far apart. */
  lemma MonthsNeverOverflow(z: Zone, part: Part, a: int, b: int)
    requires Ordered(z.first) && !part.Constant() && IsInt64(a) && IsInt64(b)
    ensures InBounds(z, part, a, b)
  {
    var i, j := MonthOf(z.first, z.DayOf(a)), MonthOf(z.first, z.DayOf(b));
    if a <= b {
      MonthsWithinDays(z.first, z.DayOf(a), z.DayOf(b));
    } else {
      MonthsWithinDays(z.first, z.DayOf(b), z.DayOf(a));
    }
    assert -300_000_000 < z.DayOf(b) - z.DayOf(a) < 300_000_000;
    assert -300_000_002 < j - i < 300_000_002;
    QuotientsApart(i, j, part.MonthCount());
    hide Ordered;
  }

  /** A month has at least one day. */
  lemma MonthsWithinDays(first: Months, day: int, later: int)
    requires Ordered(first) && day <= later
    ensures 0 <= MonthOf(first, later) - MonthOf(first, day) <= later - day + 1
  {
    var i, j := MonthOf(first, day), MonthOf(first, later);
    MonthOfBetween(first, later, i);
    MonthsApartByDays(first, i + 1, j);
  }

  lemma {:induction false} MonthsApartByDays(first: Months, i: int, j: int)
    requires Ordered(first)
    ensures i <= j ==> first(j) - first(i) >= j - i
    decreases j - i
  {
    if i < j {
      MonthsApartByDays(first, i, j - 1);
      assert MonthStep(first, j - 1);
    }
  }

  lemma QuotientsApart(i: int, j: int, n: int)
    requires n == 1 || n == 3 || n == 12
    ensures -400_000_000 < j - i < 400_000_000 ==> -500_000_000 < j / n - i / n < 500_000_000
  {}

  /** The hours between the outer 64-bit timestamps are more than 32 bits count, in any zone. */
  lemma HoursOverflow(z: Zone)
    requires Ordered(z.first)
    ensures var a, b := -9_200_000_000_000_000_000, 9_200_000_000_000_000_000;
      IsInt64(a) && IsInt64(b) && Finite(a) && Finite(b) && !InBounds(z, Hours, a, b)
  {}

  /** Swapping the arguments negates date_diff. */
  lemma Antisymmetric(z: Zone, part: Part, a: int, b: int, n: int, m: int)
    requires Ordered(z.first) && Differs(z, part, a, b, n) && Differs(z, part, b, a, m)
    ensures m == -n
  {
    DiffersMeaning(z, part, a, b, n);
    DiffersMeaning(z, part, b, a, m);
    hide Index, Differs, InBounds;
  }

  /** date_diff from a to b and from b to c add up to that from a to c. */
  lemma Telescopes(z: Zone, part: Part, a: int, b: int, c: int, n: int, m: int, r: int)
    requires Ordered(z.first)
    requires Differs(z, part, a, b, n) && Differs(z, part, b, c, m) && Differs(z, part, a, c, r)
    ensures r == n + m
  {
    DiffersMeaning(z, part, a, b, n);
    DiffersMeaning(z, part, b, c, m);
    DiffersMeaning(z, part, a, c, r);
    hide Index, Differs, InBounds;
  }

  /** A later end gives no smaller date_diff, and it is positive exactly if a boundary was passed. */
  lemma Monotone(z: Zone, part: Part, a: int, b: int, c: int, n: int, m: int)
    requires Ordered(z.first) && b <= c && Differs(z, part, a, b, n) && Differs(z, part, a, c, m)
    ensures n <= m
    ensures n < m <==> exists s :: Boundary(z, part, s) && b < s <= c
  {
    DiffersMeaning(z, part, a, b, n);
    DiffersMeaning(z, part, a, c, m);
    hide Differs, InBounds;
    var i, j := Index(z, part, b), Index(z, part, c);
    hide Index, Start;
    StartedBy(z, part, i, b);
    StartedBy(z, part, i, c);
    StartedBy(z, part, j, b);
    StartedBy(z, part, j, c);
    if i < j {
      assert Boundary(z, part, Start(z, part, j));
    }
    if s :| Boundary(z, part, s) && b < s <= c {
      var k :| Start(z, part, k) == s;
      StartedBy(z, part, k, b);
      StartedBy(z, part, k, c);
    }
  }

  // ---------------------------------------------------------------------------
  // The functions
  // ---------------------------------------------------------------------------

  /** Truncates both timestamps and subtracts; an error where a truncation or the subtraction overflows. */
  method DateDiff(fields: FieldCalendar, calendar: Calendar, part: Part, a: int, b: int, guess: Option<int>)
    returns (result: Result<int, DateError>)
    requires Ordered(fields.zone.first) && IsInt64(a) && IsInt64(b) && Finite(a) && Finite(b)
    requires guess.Some? ==> MIN_INT32 <= 2 * guess.value <= MAX_INT32
    modifies fields, calendar
    ensures result.Ok? ==> Differs(fields.zone, part, a, b, result.value)
    ensures result.Err? <==>
      !TruncFits(fields.zone, part, a) || !TruncFits(fields.zone, part, b) || !InBounds(fields.zone, part, a, b)
  {
    hide Truncated, Subtracts, InBounds;
    var truncatedStart := fields.DateTrunc(part, a);
    if truncatedStart.Err? {
      return Err(truncatedStart.error);
    }
    var truncatedEnd := fields.DateTrunc(part, b);
    if truncatedEnd.Err? {
      return Err(truncatedEnd.error);
    }
    var start, end := truncatedStart.value, truncatedEnd.value;
    result := SubtractTruncated(fields.zone, calendar, part, start, end, guess);
    if result.Ok? {
      DiffersMeaning(fields.zone, part, a, b, result.value);
    }
    NotInBounds(fields.zone, part, a, b);
  }

  /** The subtraction functions of the parts, on truncated timestamps. */
  method SubtractTruncated(z: Zone, calendar: Calendar, part: Part, start: int, end: int, guess: Option<int>)
    returns (result: Result<int, DateError>)
    requires Ordered(z.first) && IsInt64(start) && IsInt64(end)
    requires guess.Some? ==> MIN_INT32 <= 2 * guess.value <= MAX_INT32
    modifies calendar
    ensures result.Ok? ==> Subtracts(z, part, start, end, result.value)
    ensures result.Err? ==> forall n :: !Subtracts(z, part, start, end, n)
  {
    if part.Rank() < 4 {
      if !IsInt64(end - start) {
        return Err(OutOfRange);
      }
      return Ok(TruncDiv(end - start, part.Micros()));
    }
    var _ := SetTime(calendar, start);
    var target := TruncDiv(end, MICROS_PER_MSEC);
    assert calendar.time == start / MICROS_PER_MSEC && IsTarget(target);
    FieldReachIncreasing(z, part, calendar.time);
    hide OutOfReach, Furthest, FieldReach, Increasing;
    var n := calendar.FieldDifference(FieldReach(z, part, calendar.time), target, guess);
    if calendar.failed {
      return Err(FieldOverflow);
    }
    return Ok(if part.Quarter? then TruncDiv(n, 3) else n);
  }

  lemma FieldReachIncreasing(z: Zone, part: Part, start: int)
    requires Ordered(z.first) && part.Rank() >= 4
    ensures Increasing(FieldReach(z, part, start)) && FieldReach(z, part, start)(0) == start
  {
    UnitIncreasing(start, Hour);
    UnitIncreasing(start, Day);
    MonthReachIncreasing(z, start, 1);
    MonthReachIncreasing(z, start, 12);
    hide Increasing, MonthReach, UnitReach;
  }

  lemma NotInBounds(z: Zone, part: Part, a: int, b: int)
    requires Ordered(z.first)
    ensures (forall n :: !Subtracts(z, part, Truncated(z, part, a), Truncated(z, part, b), n)) ==>
      !InBounds(z, part, a, b)
  {
    DiffersMeaning(z, part, a, b, Index(z, part, b) - Index(z, part, a));
    hide Index, InBounds, Truncated, Subtracts;
  }
}
