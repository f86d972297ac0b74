/** Month intervals: what adding months to a timestamp keeps, what it undoes, and where it loses the order. */
module IcuDateMonths {
  import opened Wrappers
  import opened IcuCalendar
  import opened IcuDateAdd
  import opened IcuDateTrunc
  import opened IcuDateDiff

  // ---------------------------------------------------------------------------
  // The fields of an instant, in milliseconds
  // ---------------------------------------------------------------------------

  function MonthAt(z: Zone, t: int): int
    requires Ordered(z.first)
  {
    MonthOf(z.first, (t + z.offset) / MILLIS_PER_DAY)
  }

  /** The day of the month, from 0. */
  function DayInMonth(z: Zone, t: int): int
    requires Ordered(z.first)
  {
    (t + z.offset) / MILLIS_PER_DAY - z.first(MonthAt(z, t))
  }

  function TimeOfDay(z: Zone, t: int): int {
    (t + z.offset) % MILLIS_PER_DAY
  }

  function LastDay(z: Zone, k: int): int {
    z.first(k + 1) - z.first(k) - 1
  }

  function Least(a: int, b: int): int {
    if a < b then a else b
  }

  /** The instant with the given fields. */
  function InstantOf(z: Zone, month: int, day: int, time: int): int {
    MonthMillis(z, month) + day * MILLIS_PER_DAY + time
  }

  lemma FieldsInRange(z: Zone, t: int)
    requires Ordered(z.first)
    ensures 0 <= DayInMonth(z, t) <= LastDay(z, MonthAt(z, t)) && 0 <= TimeOfDay(z, t) < MILLIS_PER_DAY
    ensures t == InstantOf(z, MonthAt(z, t), DayInMonth(z, t), TimeOfDay(z, t))
  {
    var local := t + z.offset;
    assert local == local / MILLIS_PER_DAY * MILLIS_PER_DAY + local % MILLIS_PER_DAY;
  }

  /** An instant has no other fields than those it is made of. */
  lemma FieldsOfInstant(z: Zone, month: int, day: int, time: int)
    requires Ordered(z.first) && 0 <= day <= LastDay(z, month) && 0 <= time < MILLIS_PER_DAY
    ensures var t := InstantOf(z, month, day, time);
      MonthAt(z, t) == month && DayInMonth(z, t) == day && TimeOfDay(z, t) == time
  {
    var t := InstantOf(z, month, day, time);
    var d := z.first(month) + day;
    assert t + z.offset == d * MILLIS_PER_DAY + time;
    FloorOfDay(d, time);
    MonthOfBetween(z.first, d, month);
    MonthOfBetween(z.first, d, month + 1);
  }

  lemma FloorOfDay(d: int, time: int)
    requires 0 <= time < MILLIS_PER_DAY
    ensures (d * MILLIS_PER_DAY + time) / MILLIS_PER_DAY == d && (d * MILLIS_PER_DAY + time) % MILLIS_PER_DAY == time
  {}

  /** Instants are ordered by month, then day, then time. */
  predicate FieldsBefore(k1: int, d1: int, t1: int, k2: int, d2: int, t2: int) {
    k1 < k2 || (k1 == k2 && (d1 < d2 || (d1 == d2 && t1 <= t2)))
  }

  lemma OrderOfFields(z: Zone, k1: int, d1: int, t1: int, k2: int, d2: int, t2: int)
    requires Ordered(z.first) && 0 <= d1 <= LastDay(z, k1) && 0 <= t1 < MILLIS_PER_DAY
    requires 0 <= d2 <= LastDay(z, k2) && 0 <= t2 < MILLIS_PER_DAY
    ensures InstantOf(z, k1, d1, t1) <= InstantOf(z, k2, d2, t2) <==> FieldsBefore(k1, d1, t1, k2, d2, t2)
  {
    if k1 < k2 {
      MonthMillisOrdered(z, k1 + 1, k2);
    } else if k2 < k1 {
      MonthMillisOrdered(z, k2 + 1, k1);
    }
  }

  // ---------------------------------------------------------------------------
  // What adding months does
  // ---------------------------------------------------------------------------

  /** The month moves by the count, the time of day stays, and the day stays unless the month is too short for it. */
  lemma MonthsKeepFields(z: Zone, t: int, n: int)
    requires Ordered(z.first)
    ensures
      var r, k := AddMonths(z, t, n), MonthAt(z, t) + n;
      && MonthAt(z, r) == k && TimeOfDay(z, r) == TimeOfDay(z, t)
      && DayInMonth(z, r) == Least(DayInMonth(z, t), LastDay(z, k))
  {
    var k := MonthAt(z, t) + n;
    FieldsInRange(z, t);
    assert MonthStep(z.first, k);
    AddedInstant(z, t, n);
    hide AddMonths, InstantOf, MonthAt, DayInMonth, TimeOfDay;
    FieldsOfInstant(z, k, Least(DayInMonth(z, t), LastDay(z, k)), TimeOfDay(z, t));
  }

  lemma AddedInstant(z: Zone, t: int, n: int)
    requires Ordered(z.first)
    ensures AddMonths(z, t, n) ==
      InstantOf(z, MonthAt(z, t) + n, Least(DayInMonth(z, t), LastDay(z, MonthAt(z, t) + n)), TimeOfDay(z, t))
  {}

  lemma SameFields(z: Zone, s: int, t: int)
    requires Ordered(z.first)
    ensures s == t <==>
      MonthAt(z, s) == MonthAt(z, t) && DayInMonth(z, s) == DayInMonth(z, t) && TimeOfDay(z, s) == TimeOfDay(z, t)
  {
    FieldsInRange(z, s);
    FieldsInRange(z, t);
    hide MonthAt, DayInMonth, TimeOfDay, InstantOf;
  }

  /** Taking the months off again leads back exactly if the month in between has the day. */
  lemma MonthsUndone(z: Zone, t: int, n: int)
    requires Ordered(z.first)
    ensures AddMonths(z, AddMonths(z, t, n), -n) == t <==> DayInMonth(z, t) <= LastDay(z, MonthAt(z, t) + n)
  {
    var there := AddMonths(z, t, n);
    MonthsKeepFields(z, t, n);
    MonthsKeepFields(z, there, -n);
    FieldsInRange(z, t);
    SameFields(z, AddMonths(z, there, -n), t);
    hide AddMonths, MonthAt, DayInMonth, TimeOfDay, InstantOf, LastDay;
  }

  /** Adding in two steps is adding at once exactly if the month in between does not cut the day more than the last one. */
  lemma MonthsInTwoSteps(z: Zone, t: int, n: int, m: int)
    requires Ordered(z.first)
    ensures AddMonths(z, AddMonths(z, t, n), m) == AddMonths(z, t, n + m) <==>
      DayInMonth(z, t) <= LastDay(z, MonthAt(z, t) + n) || LastDay(z, MonthAt(z, t) + n + m) <= LastDay(z, MonthAt(z, t) + n)
  {
    var there := AddMonths(z, t, n);
    MonthsKeepFields(z, t, n);
    MonthsKeepFields(z, there, m);
    MonthsKeepFields(z, t, n + m);
    SameFields(z, AddMonths(z, there, m), AddMonths(z, t, n + m));
    hide AddMonths, MonthAt, DayInMonth, TimeOfDay, InstantOf, LastDay;
  }

  /** The later of two instants overtakes the earlier one: both days are cut to the end of the month, and its time is less. */
  predicate Overtaken(z: Zone, s: int, t: int, n: int)
    requires Ordered(z.first)
  {
    && MonthAt(z, s) == MonthAt(z, t) && LastDay(z, MonthAt(z, s) + n) <= DayInMonth(z, s)
    && TimeOfDay(z, t) < TimeOfDay(z, s)
  }

  /** Adding the same months keeps the order of two instants, except where both days are cut to one. */
  lemma MonthsKeepOrder(z: Zone, s: int, t: int, n: int)
    requires Ordered(z.first) && s <= t
    ensures AddMonths(z, s, n) <= AddMonths(z, t, n) <==> !Overtaken(z, s, t, n)
  {
    var k1, d1, t1 := MonthAt(z, s), DayInMonth(z, s), TimeOfDay(z, s);
    var k2, d2, t2 := MonthAt(z, t), DayInMonth(z, t), TimeOfDay(z, t);
    FieldsInRange(z, s);
    FieldsInRange(z, t);
    AddedInstant(z, s, n);
    AddedInstant(z, t, n);
    assert MonthStep(z.first, k1 + n) && MonthStep(z.first, k2 + n);
    hide AddMonths, InstantOf, MonthAt, DayInMonth, TimeOfDay;
    OrderOfFields(z, k1, d1, t1, k2, d2, t2);
    OrderOfFields(z, k1 + n, Least(d1, LastDay(z, k1 + n)), t1, k2 + n, Least(d2, LastDay(z, k2 + n)), t2);
  }

  /** More months lead to a later instant. */
  lemma MoreMonthsLater(z: Zone, t: int, n: int, m: int)
    requires Ordered(z.first)
    ensures AddMonths(z, t, n) < AddMonths(z, t, m) <==> n < m
  {
    MonthReachIncreasing(z, t, 1);
    hide AddMonths;
    if n < m {
      IncreasingOrder(MonthReach(z, t, 1), n, m);
    } else {
      IncreasingOrder(MonthReach(z, t, 1), m, n);
    }
  }

  // ---------------------------------------------------------------------------
  // Intervals of months
  // ---------------------------------------------------------------------------

  function InZone(z: Zone): (int, int) -> int
    requires Ordered(z.first)
  {
    (t: int, n: int) => AddMonths(z, t, n)
  }

  /** The timestamp that months lead to, with its microseconds. */
  function PlusMonths(z: Zone, t: int, n: int): int
    requires Ordered(z.first)
  {
    AddMonths(z, t / MICROS_PER_MSEC, n) * MICROS_PER_MSEC + t % MICROS_PER_MSEC
  }

  lemma CarriedNothing(t: int)
    requires IsInt64(t)
    ensures Carried(t, 0) == (t / MICROS_PER_MSEC, t % MICROS_PER_MSEC)
  {}

  /** A clock that was stopped at a bound is out of range, as the unbounded one is. */
  lemma ClampedFits(time: int, rest: int)
    requires -MICROS_PER_MSEC < rest < MICROS_PER_MSEC
    ensures TimeFits(Clamp(time), rest) <==> TimeFits(time, rest)
    ensures TimeFits(time, rest) ==> Clamp(time) == time
  {
    hide DateInRange;
  }

  lemma MonthsOnly(time: int, n: int, addMonths: (int, int) -> int)
    requires n != 0
    ensures Added(time, Interval(n, 0, 0), addMonths) == Clamp(addMonths(time, n))
  {
    assert TruncDiv(0, MICROS_PER_MSEC) == 0;
    SpanOfNone(Day);
    hide Span, TruncDiv;
  }

  /** Adding an interval of months moves the months of a timestamp and nothing else, unless the result is out of range. */
  lemma MonthIntervalIsExact(z: Zone, t: int, n: int)
    requires Ordered(z.first) && IsInt64(t) && Finite(t) && n != 0
    ensures Sum(t, Interval(n, 0, 0), InZone(z)) ==
      (var millis := t / MICROS_PER_MSEC;
       if !IsInt64(millis * MICROS_PER_MSEC) || !DateInRange(millis * MICROS_PER_MSEC) then Err(OutOfRange)
       else if !TimeFits(AddMonths(z, millis, n), t % MICROS_PER_MSEC) then Err(DateOverflow)
       else Ok(PlusMonths(z, t, n)))
  {
    CarriedNothing(t);
    MonthsOnly(t / MICROS_PER_MSEC, n, InZone(z));
    hide AddMonths, Carried, Clamp, Added, TimeFits, DateInRange;
    ClampedFits(AddMonths(z, t / MICROS_PER_MSEC, n), t % MICROS_PER_MSEC);
  }

  /** Subtracting the interval again leads back exactly if the month in between has the day. */
  lemma MonthIntervalUndone(z: Zone, t: int, n: int)
    requires Ordered(z.first)
    ensures PlusMonths(z, PlusMonths(z, t, n), -n) == t <==>
      var millis := t / MICROS_PER_MSEC; DayInMonth(z, millis) <= LastDay(z, MonthAt(z, millis) + n)
  {
    hide AddMonths, DayInMonth, LastDay, MonthAt;
    MonthsUndone(z, t / MICROS_PER_MSEC, n);
    Microseconds(AddMonths(z, t / MICROS_PER_MSEC, n), t % MICROS_PER_MSEC);
  }

  /** The time of day in microseconds. */
  function MicrosOfDay(z: Zone, t: int): int {
    TimeOfDay(z, t / MICROS_PER_MSEC) * MICROS_PER_MSEC + t % MICROS_PER_MSEC
  }

  /** Two instants lead to the same one exactly if they have one month and time, and their days are equal or both cut. */
  lemma SameAdded(z: Zone, a: int, b: int, n: int)
    requires Ordered(z.first)
    ensures AddMonths(z, a, n) == AddMonths(z, b, n) <==>
      && MonthAt(z, a) == MonthAt(z, b) && TimeOfDay(z, a) == TimeOfDay(z, b)
      && var last := LastDay(z, MonthAt(z, a) + n); Least(DayInMonth(z, a), last) == Least(DayInMonth(z, b), last)
  {
    MonthsKeepFields(z, a, n);
    MonthsKeepFields(z, b, n);
    SameFields(z, AddMonths(z, a, n), AddMonths(z, b, n));
    hide AddMonths, MonthAt, DayInMonth, TimeOfDay, LastDay;
  }

  /**
   Adding one interval of months keeps the order of two timestamps, except where the days of both are cut to the same
   end of a month and the later one has the earlier time of day.
   */
  lemma MonthIntervalsKeepOrder(z: Zone, s: int, t: int, n: int)
    requires Ordered(z.first) && s <= t
    ensures PlusMonths(z, s, n) <= PlusMonths(z, t, n) <==>
      var a, b := s / MICROS_PER_MSEC, t / MICROS_PER_MSEC;
      !(&& MonthAt(z, a) == MonthAt(z, b) && LastDay(z, MonthAt(z, a) + n) <= DayInMonth(z, a)
        && MicrosOfDay(z, t) < MicrosOfDay(z, s))
  {
    hide AddMonths, MonthAt, DayInMonth, TimeOfDay, LastDay;
    var a, b := s / MICROS_PER_MSEC, t / MICROS_PER_MSEC;
    MonthsKeepOrder(z, a, b, n);
    SameAdded(z, a, b, n);
    SameFields(z, a, b);
    LaterFields(z, a, b);
  }

  lemma LaterFields(z: Zone, a: int, b: int)
    requires Ordered(z.first) && a <= b
    ensures FieldsBefore(MonthAt(z, a), DayInMonth(z, a), TimeOfDay(z, a), MonthAt(z, b), DayInMonth(z, b), TimeOfDay(z, b))
  {
    FieldsInRange(z, a);
    FieldsInRange(z, b);
    hide MonthAt, DayInMonth, TimeOfDay, InstantOf;
    OrderOfFields(z, MonthAt(z, a), DayInMonth(z, a), TimeOfDay(z, a), MonthAt(z, b), DayInMonth(z, b), TimeOfDay(z, b));
  }

  /** A month after January 30 at 20:00 is later than a month after January 31 at 10:00. */
  lemma JanuaryOvertaken()
    ensures Ordered(Gregorian)
    ensures
      var z := Zone(Gregorian, 0);
      var s, t := InstantOf(z, 12, 29, 72_000_000), InstantOf(z, 12, 30, 36_000_000);
      s < t && AddMonths(z, s, 1) > AddMonths(z, t, 1)
  {
    GregorianIsOrdered();
    var z := Zone(Gregorian, 0);
    assert LastDay(z, 12) == 30 && LastDay(z, 13) == 27;
    hide Gregorian, InstantOf, MonthAt, DayInMonth, TimeOfDay, AddMonths, Ordered;
    FieldsOfInstant(z, 12, 29, 72_000_000);
    FieldsOfInstant(z, 12, 30, 36_000_000);
    OrderOfFields(z, 12, 29, 72_000_000, 12, 30, 36_000_000);
    OrderOfFields(z, 12, 30, 36_000_000, 12, 29, 72_000_000);
    MonthsKeepOrder(z, InstantOf(z, 12, 29, 72_000_000), InstantOf(z, 12, 30, 36_000_000), 1);
  }

  lemma Microseconds(millis: int, rest: nat)
    requires rest < MICROS_PER_MSEC
    ensures (millis * MICROS_PER_MSEC + rest) / MICROS_PER_MSEC == millis
    ensures (millis * MICROS_PER_MSEC + rest) % MICROS_PER_MSEC == rest
  {}
}
