/** Timestamps, parts and intervals in plain numbers: what the calendar functions compute, without their own helpers. */
module IcuMeaning {
  import opened Wrappers
  import opened IcuCalendar
  import opened IcuDateAdd
  import opened IcuDateTrunc
  import opened IcuDateDiff
  import opened IcuDateMonths
  import opened IcuDateSubtract

  // ---------------------------------------------------------------------------
  // Gregorian months
  // ---------------------------------------------------------------------------

  function MonthLength(year: int, month: int): int {
    match month
    case 1 => if (year % 4 == 0 && year % 100 != 0) || year % 400 == 0 then 29 else 28
    case 3 => 30
    case 5 => 30
    case 8 => 30
    case 10 => 30
    case _ => 31
  }

  /** Counted from January of year 0, every month has its number of days, with 29 for February of a leap year. */
  lemma GregorianLengths(k: int)
    ensures Gregorian(0) == 0 && Gregorian(k + 1) - Gregorian(k) == MonthLength(k / 12, k % 12)
  {
    hide Gregorian, DaysBeforeYear, DaysBeforeMonth;
    var year, month := k / 12, k % 12;
    GregorianAt(k, year, month);
    FirstMonth();
    if month == 11 {
      GregorianAt(k + 1, year + 1, 0);
      YearLength(year);
    } else {
      GregorianAt(k + 1, year, month + 1);
      MonthStepDays(month);
    }
  }

  lemma GregorianAt(k: int, year: int, month: int)
    requires 0 <= month < 12 && k == 12 * year + month
    ensures Gregorian(k) == DaysBeforeYear(year) + DaysBeforeMonth(month) + if month > 1 && IsLeap(year) then 1 else 0
  {
    assert k / 12 == year && k % 12 == month;
    hide DaysBeforeYear, DaysBeforeMonth, IsLeap;
  }

  lemma FirstMonth()
    ensures Gregorian(0) == 0 && DaysBeforeMonth(0) == 0 && DaysBeforeMonth(11) == 334
  {}

  lemma MonthStepDays(month: int)
    requires 0 <= month < 11
    ensures DaysBeforeMonth(month + 1) - DaysBeforeMonth(month) ==
      if month == 1 then 28 else if month == 3 || month == 5 || month == 8 || month == 10 then 30 else 31
  {}

  // ---------------------------------------------------------------------------
  // Truncation
  // ---------------------------------------------------------------------------

  /** The length of the parts of constant length, in microseconds. */
  predicate LengthOf(part: Part, micros: int) {
    match part
    case Microseconds => micros == 1
    case Milliseconds => micros == 1_000
    case Seconds => micros == 1_000_000
    case Minutes => micros == 60 * 1_000_000
    case Hours => micros == 3_600 * 1_000_000
    case Days => micros == 86_400 * 1_000_000
    case _ => false
  }

  predicate MonthsOf(part: Part, months: int) {
    (part == Month && months == 1) || (part == Quarter && months == 3) || (part == Year && months == 12)
  }

  /** Truncation to a part of constant length cuts the local time to a multiple of the length. */
  lemma ConstantTruncation(z: Zone, part: Part, t: int, micros: int)
    requires Ordered(z.first) && LengthOf(part, micros)
    ensures
      var r := Truncated(z, part, t);
      && r <= t < r + micros
      && exists n :: r + z.offset * 1_000 == n * micros
  {
    var n := z.Local(t) / micros;
    assert n * micros <= z.Local(t) < n * micros + micros;
    assert Truncated(z, part, t) + z.offset * 1_000 == n * micros;
  }

  /** Truncation to months, quarters or years goes back to the local midnight of the first day of a month that starts one. */
  lemma MonthTruncation(z: Zone, part: Part, t: int, months: int)
    requires Ordered(z.first) && MonthsOf(part, months)
    ensures exists n :: InMonths(z, Truncated(z, part, t), t, n * months, months)
  {
    var day := z.DayOf(t);
    var k := MonthOf(z.first, day);
    var n := k / months;
    assert n * months <= k < n * months + months;
    assert (n + 1) * months == n * months + months;
    MonthOfBetween(z.first, day, n * months);
    MonthOfBetween(z.first, day, (n + 1) * months);
    assert Truncated(z, part, t) == z.MonthStart(n * months);
    assert day * 86_400_000_000 <= z.Local(t) < day * 86_400_000_000 + 86_400_000_000;
    assert InMonths(z, Truncated(z, part, t), t, n * months, months);
  }

  /** t lies in the given number of months that start at r. */
  predicate InMonths(z: Zone, r: int, t: int, first: int, months: int) {
    MonthBoundary(z, r, first) && r <= t && t + z.offset * 1_000 < z.first(first + months) * 86_400_000_000
  }

  /** The instant is the local start of the month. */
  predicate MonthBoundary(z: Zone, r: int, month: int) {
    r + z.offset * 1_000 == z.first(month) * 86_400_000_000
  }

  // ---------------------------------------------------------------------------
  // date_diff
  // ---------------------------------------------------------------------------

  /** For parts of constant length date_diff is the distance of the truncated timestamps in that length. */
  lemma ConstantDifference(z: Zone, part: Part, a: int, b: int, n: int, micros: int)
    requires Ordered(z.first) && LengthOf(part, micros) && Differs(z, part, a, b, n)
    ensures Truncated(z, part, b) - Truncated(z, part, a) == n * micros
  {
    hide Index, Differs, InBounds, Ordered;
    DiffersMeaning(z, part, a, b, n);
    var i, j := Index(z, part, a), Index(z, part, b);
    ConstantStart(z, part, i, micros);
    ConstantStart(z, part, j, micros);
    hide Start, LengthOf;
    assert j * micros - i * micros == (j - i) * micros;
  }

  lemma ConstantStart(z: Zone, part: Part, i: int, micros: int)
    requires LengthOf(part, micros)
    ensures Start(z, part, i) == i * micros - z.offset * 1_000
  {}

  /** For months, quarters and years it is the number of months from truncated start to truncated end, over those of a part. */
  lemma MonthDifference(z: Zone, part: Part, a: int, b: int, n: int, months: int)
    requires Ordered(z.first) && MonthsOf(part, months) && Differs(z, part, a, b, n)
    ensures exists i ::
      MonthBoundary(z, Truncated(z, part, a), i * months) && MonthBoundary(z, Truncated(z, part, b), (i + n) * months)
  {
    hide Index, Differs, Start;
    DiffersMeaning(z, part, a, b, n);
    var i := Index(z, part, a);
    StartBoundary(z, part, i, months);
    StartBoundary(z, part, i + n, months);
    assert MonthBoundary(z, Truncated(z, part, a), i * months) && MonthBoundary(z, Truncated(z, part, b), (i + n) * months);
  }

  lemma StartBoundary(z: Zone, part: Part, i: int, months: int)
    requires MonthsOf(part, months)
    ensures MonthBoundary(z, Start(z, part, i), i * months)
  {}

  // ---------------------------------------------------------------------------
  // Adding and subtracting
  // ---------------------------------------------------------------------------

  /** A field of the interval is negative, so that its time is added first. */
  predicate TimeFirst(r: Interval) {
    r.months < 0 || r.days < 0 || r.micros < 0
  }

  /** The clock lies within the bounds of the calendar. */
  predicate OnCalendar(time: int) {
    (-0x7F00_0000 - 2_440_588) * 86_400_000 <= time <= (0x7F00_0000 - 2_440_588) * 86_400_000
  }

  /**
   The sum is the timestamp with days and microseconds added, moved by what the months move the clock: before the days,
   and after the time if a field is negative.
   */
  lemma SumMeaning(t: int, r: Interval, addMonths: (int, int) -> int)
    requires IsInt64(t) && t != 0x7FFF_FFFF_FFFF_FFFF && t != -0x7FFF_FFFF_FFFF_FFFF && IsInt64(r.micros)
    ensures
      var (millis, rest) := Carried(t, r.micros);
      var clock := if TimeFirst(r) then (t + r.micros - rest) / 1_000 else millis;
      var moved := if r.months == 0 then clock else addMonths(clock, r.months);
      var dated := moved + r.days * 86_400_000;
      OnCalendar(moved) && OnCalendar(dated) && Sum(t, r, addMonths).Ok? ==>
        Sum(t, r, addMonths).value == t + r.micros + r.days * 86_400_000_000 + (moved - clock) * 1_000
  {
    hide Carried, TruncDiv, Added, OnCalendar, TimeFits, DateInRange, Clamp;
    CarriedIsExact(t, r.micros);
    var (millis, rest) := Carried(t, r.micros);
    var length := TruncDiv(r.micros, MICROS_PER_MSEC);
    ClockMeaning(millis, r, addMonths);
    var clock := if TimeFirst(r) then millis + length else millis;
    var moved := if r.months == 0 then clock else addMonths(clock, r.months);
    ClampedFits(moved + r.days * 86_400_000 + length, rest);
  }

  /** Inside the bounds of the calendar the clock moves by the months and the days, and by the time before or after them. */
  lemma ClockMeaning(millis: int, r: Interval, addMonths: (int, int) -> int)
    ensures
      var length := TruncDiv(r.micros, MICROS_PER_MSEC);
      var clock := if TimeFirst(r) then millis + length else millis;
      var moved := if r.months == 0 then clock else addMonths(clock, r.months);
      var dated := moved + r.days * 86_400_000;
      OnCalendar(moved) && OnCalendar(dated) ==>
        Added(millis, r, addMonths) == if TimeFirst(r) then dated else Clamp(dated + length)
  {
    hide TruncDiv;
    assert Span(Day, r.days) == r.days * 86_400_000;
  }

  /** Whichever timestamp is later, the interval between them adds up to their difference, unless a borrow is lost. */
  lemma DifferenceAddsUp(start: int, end: int)
    requires IsInt64(start) && IsInt64(end)
    ensures
      var r := if start <= end then DifferenceOf(start, end) else Negate(DifferenceOf(end, start));
      var (early, late) := if start <= end then (start, end) else (end, start);
      && r.months == 0 && (if start <= end then r.days >= 0 else r.days <= 0)
      && (r.days * 86_400_000_000 + r.micros == end - start <==>
            !(early < 0 < late < 1_000 && late < early % 1_000))
  {
    hide DifferenceOf;
    if start <= end {
      DifferenceIsExact(start, end);
    } else {
      DifferenceIsExact(end, start);
    }
  }

  // ---------------------------------------------------------------------------
  // Bounds
  // ---------------------------------------------------------------------------

  /** A 64-bit number whose day also starts at one. */
  predicate Representable(t: int) {
    -9_223_372_036_854_775_808 <= t / 86_400_000_000 * 86_400_000_000 && t <= 9_223_372_036_854_775_807
  }

  lemma RepresentableMeaning(t: int)
    ensures Finite(t) && IsInt64(t) && DateInRange(t) ==> Representable(t)
    ensures Finite(t) && Representable(t) ==> IsInt64(t) && DateInRange(t)
    ensures Finite(t) <==> t != 9_223_372_036_854_775_807 && t != -9_223_372_036_854_775_807
  {
    if Finite(t) {
      DateIsFloor(t);
    }
    hide DateOf;
  }

  /** date_trunc succeeds if the truncated timestamp and its whole milliseconds are 64-bit numbers. */
  lemma TruncationFits(z: Zone, part: Part, t: int)
    requires Ordered(z.first)
    ensures TruncFits(z, part, t) <==>
      var r := Truncated(z, part, t);
      -9_223_372_036_854_775_808 <= r / 1_000 * 1_000 && r <= 9_223_372_036_854_775_807
  {
    hide Truncated;
  }

  /** date_diff succeeds if the distance is a 64-bit number below hours, and a 32-bit number of hours or days. */
  lemma DifferenceFits(z: Zone, part: Part, a: int, b: int, micros: int)
    requires Ordered(z.first) && LengthOf(part, micros)
    ensures
      var d := Truncated(z, part, b) - Truncated(z, part, a);
      InBounds(z, part, a, b) <==>
        if part == Hours || part == Days then -2_147_483_648 * micros <= d <= 2_147_483_647 * micros
        else -9_223_372_036_854_775_808 <= d <= 9_223_372_036_854_775_807
  {
    var i, j := Index(z, part, a), Index(z, part, b);
    hide Index;
    assert j * micros - i * micros == (j - i) * micros;
    if part == Hours || part == Days {
      UnitsCompare(micros, -2_147_483_648, j - i);
      UnitsCompare(micros, j - i, 2_147_483_647);
    }
  }

  /**
   Without months a sum exists exactly if the days of the carried start and of the sum are in range, and the sum without
   its left-over microseconds is a 64-bit number.
   */
  lemma SumFits(t: int, r: Interval, addMonths: (int, int) -> int)
    requires IsInt64(t) && Finite(t) && IsInt64(r.micros) && r.months == 0
    ensures
      var (millis, rest) := Carried(t, r.micros);
      var sum := t + r.micros + r.days * 86_400_000_000;
      Finite(millis * 1_000) && Finite(sum) ==>
        (Sum(t, r, addMonths).Ok? <==>
          Representable(millis * 1_000) && Representable(sum) && IsInt64(sum - rest))
  {
    hide Carried, Added, TruncDiv, Representable, Clamp, Span, DateInRange, IsInt64;
    CarriedIsExact(t, r.micros);
    CarriedTarget(t, r.micros);
    var (millis, rest) := Carried(t, r.micros);
    AddedWithoutMonths(millis, r, addMonths);
    ReadBack(millis, rest, r.days, TruncDiv(r.micros, MICROS_PER_MSEC));
    RepresentableMeaning(millis * 1_000);
    RepresentableMeaning(t + r.micros + r.days * 86_400_000_000);
  }

  /** The only end whose borrow leaves 64 bits is the smallest whole millisecond. */
  lemma BorrowOverflowMeaning(start: int, end: int)
    requires IsInt64(start) && IsInt64(end) && start <= end
    ensures BorrowOverflows(start, end) <==> end == -9_223_372_036_854_775_000 && start % 1_000 > 0
  {
    if Borrows(start, end) {
      BorrowCases(start, end);
    }
  }
}
