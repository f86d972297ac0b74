/** The interval between two timestamps, field by field, with its borrow and its unsigned microseconds. */
module IcuDateSubtract {
  import opened Wrappers
  import opened IcuCalendar
  import opened IcuDateAdd

  /** The left-over microseconds of the end, as an unsigned number: huge for most ends before the epoch. */
  function EndMicros(end: int): nat {
    ToUint64(TruncRem(end, MICROS_PER_MSEC))
  }

  /** One millisecond is borrowed when the microseconds are out of order. */
  predicate Borrows(start: int, end: int) {
    start % MICROS_PER_MSEC > EndMicros(end)
  }

  /** The borrow leaves the 64-bit range; in the original that is an overflow of a signed number. */
  predicate BorrowOverflows(start: int, end: int) {
    Borrows(start, end) && end - MICROS_PER_MSEC < MIN_INT64
  }

  /** The clock time of the end after the borrow. */
  function Target(start: int, end: int): int {
    TruncDiv(if Borrows(start, end) then end - MICROS_PER_MSEC else end, MICROS_PER_MSEC)
  }

  /** The borrow crosses the epoch, and truncation takes it back: the end lies in its first millisecond. */
  predicate BorrowLost(start: int, end: int) {
    start < 0 < end < MICROS_PER_MSEC && start % MICROS_PER_MSEC > end
  }

  /** The microseconds between the two after the borrow, as a signed number. */
  function MicrosApart(start: int, end: int): int {
    TruncRem(end, MICROS_PER_MSEC) + (if Borrows(start, end) then MICROS_PER_MSEC else 0) - start % MICROS_PER_MSEC
  }

  lemma BorrowCases(start: int, end: int)
    requires IsInt64(end) && Borrows(start, end)
    ensures end >= 0 || TruncRem(end, MICROS_PER_MSEC) == 0
  {}

  /** The clock of the start is never behind that of the end, borrow included. */
  lemma BorrowStaysAhead(start: int, end: int)
    requires IsInt64(start) && IsInt64(end) && start <= end
    ensures start / MICROS_PER_MSEC <= Target(start, end)
  {
    if Borrows(start, end) {
      BorrowCases(start, end);
    }
  }

  /** The clocks and microseconds add up to the difference, except that a lost borrow adds a millisecond. */
  lemma ApartIsExact(start: int, end: int)
    requires IsInt64(start) && IsInt64(end) && start <= end
    ensures (Target(start, end) - start / MICROS_PER_MSEC) * MICROS_PER_MSEC + MicrosApart(start, end) ==
      end - start + if BorrowLost(start, end) then MICROS_PER_MSEC else 0
    ensures -2 * MICROS_PER_MSEC < MicrosApart(start, end) < MICROS_PER_MSEC
    ensures end >= 0 ==> MicrosApart(start, end) >= 0
  {
    if Borrows(start, end) {
      BorrowCases(start, end);
      hide EndMicros;
      TruncatesTowardZero(end - MICROS_PER_MSEC, MICROS_PER_MSEC);
    }
    TruncatesTowardZero(end, MICROS_PER_MSEC);
  }

  /** A span of clock time as days, hours, minutes, seconds and milliseconds. */
  predicate BrokenDown(span: nat, days: int, h: int, m: int, s: int, ms: int) {
    && span == Span(Day, days) + Span(Hour, h) + Span(Minute, m) + Span(Second, s) + Span(Millisecond, ms)
    && 0 <= days && 0 <= h < 24 && 0 <= m < 60 && 0 <= s < 60 && 0 <= ms < 1_000
  }

  /** Subtracting a field leaves less than one unit of it. */
  lemma FieldLeaves(start: int, target: int, unit: Unit)
    requires start <= target
    ensures var n := WholeUnits(start, target, unit);
      0 <= n && 0 <= target - (start + Span(unit, n)) < unit.Length() && Span(unit, n) <= target - start
  {
    var d, l := target - start, unit.Length();
    assert d == d / l * l + d % l;
  }

  lemma FieldBound(start: int, target: int, unit: Unit, limit: int)
    requires start <= target && target - start < Span(unit, limit) && 0 < limit <= MAX_INT32
    ensures 0 <= WholeUnits(start, target, unit) < limit && !OutOfReach(UnitReach(start, unit), target)
  {
    FieldLeaves(start, target, unit);
    var n := WholeUnits(start, target, unit);
    if n >= limit {
      SpanMonotone(unit, limit, n);
    }
    SpanMonotone(unit, limit, MAX_INT32);
    SpanMonotone(unit, MIN_INT32, 0);
    SpanOfNone(unit);
  }

  /** SubtractField for a field of which fewer than `limit` units are left; it cannot fail. */
  method SubtractField(calendar: Calendar, unit: Unit, target: int, guess: Option<int>, ghost limit: int)
    returns (n: int)
    requires calendar.Valid() && calendar.time <= target && IsTarget(target)
    requires guess.Some? ==> MIN_INT32 <= 2 * guess.value <= MAX_INT32
    requires target - calendar.time < Span(unit, limit) && 0 < limit <= MAX_INT32
    modifies calendar
    ensures calendar.Valid() && 0 <= n < limit
    ensures calendar.time == old(calendar.time) + Span(unit, n)
    ensures 0 <= target - calendar.time < unit.Length()
  {
    FieldLeaves(calendar.time, target, unit);
    FieldBound(calendar.time, target, unit, limit);
    hide Span, OutOfReach, WholeUnits, UnitReach;
    n := calendar.UnitDifference(target, unit, guess);
  }

  method SubtractFields(calendar: Calendar, target: int, guess: Unit -> Option<int>)
    returns (days: int, h: int, m: int, s: int, ms: int)
    requires calendar.Valid() && IsTarget(calendar.time) && calendar.time <= target && IsTarget(target)
    requires forall u :: guess(u).Some? ==> MIN_INT32 <= 2 * guess(u).value <= MAX_INT32
    modifies calendar
    ensures BrokenDown(target - old(calendar.time), days, h, m, s, ms)
  {
    days := SubtractField(calendar, Day, target, guess(Day), MAX_INT32);
    h := SubtractField(calendar, Hour, target, guess(Hour), 24);
    m := SubtractField(calendar, Minute, target, guess(Minute), 60);
    s := SubtractField(calendar, Second, target, guess(Second), 60);
    ms := SubtractField(calendar, Millisecond, target, guess(Millisecond), 1_000);
  }

  /** Time::FromTime. */
  function FromTime(h: int, m: int, s: int, micros: int): int {
    ((h * 60 + m) * 60 + s) * 1_000_000 + micros
  }

  /** The days and the rest of the day, put together again. */
  lemma FieldsAddUp(span: nat, days: int, h: int, m: int, s: int, ms: int, apart: int)
    requires BrokenDown(span, days, h, m, s, ms)
    ensures days == span / MILLIS_PER_DAY
    ensures FromTime(h, m, s, ms * MICROS_PER_MSEC + apart) == span % MILLIS_PER_DAY * MICROS_PER_MSEC + apart
  {}

  /** The unsigned difference of the microseconds, cut to 32 bits, is the signed one. */
  lemma UnsignedApart(start: int, end: int, ms: int)
    requires IsInt64(end) && 0 <= ms < 1_000
    ensures
      var micros := ToUint64(EndMicros(end) + if Borrows(start, end) then MICROS_PER_MSEC else 0);
      ToInt32(ToUint64(ms * MICROS_PER_MSEC + micros - start % MICROS_PER_MSEC)) ==
        ms * MICROS_PER_MSEC + MicrosApart(start, end)
  {
    var rest, borrow := TruncRem(end, MICROS_PER_MSEC), if Borrows(start, end) then MICROS_PER_MSEC else 0;
    assert -MICROS_PER_MSEC < rest < MICROS_PER_MSEC;
    var a := ms * MICROS_PER_MSEC - start % MICROS_PER_MSEC;
    hide TruncRem, ToUint64, ToInt32;
    WrapLater(borrow, rest);
    WrapLater(a, rest + borrow);
    assert ms * MICROS_PER_MSEC + MicrosApart(start, end) == a + rest + borrow;
    SmallSurvives(a + rest + borrow);
  }

  lemma WrapLater(a: int, b: int)
    ensures ToUint64(a + ToUint64(b)) == ToUint64(a + b)
  {}

  lemma SmallSurvives(x: int)
    requires IsInt32(x)
    ensures ToInt32(ToUint64(x)) == x
  {}

  /** The interval from an earlier to a later timestamp: whole days of clock time, and the rest. */
  function DifferenceOf(start: int, end: int): Interval {
    var span := Target(start, end) - start / MICROS_PER_MSEC;
    Interval(0, span / MILLIS_PER_DAY, span % MILLIS_PER_DAY * MICROS_PER_MSEC + MicrosApart(start, end))
  }

  function Negate(r: Interval): Interval {
    Interval(-r.months, -r.days, -r.micros)
  }

  /** Swapping the arguments negates the interval. */
  method Subtract(end: int, start: int, calendar: Calendar, guess: Unit -> Option<int>)
    returns (result: Result<Interval, DateError>)
    requires IsInt64(end) && IsInt64(start)
    requires forall u :: guess(u).Some? ==> MIN_INT32 <= 2 * guess(u).value <= MAX_INT32
    requires !BorrowOverflows(if start <= end then start else end, if start <= end then end else start)
    modifies calendar
    ensures result ==
      if !Finite(end) || !Finite(start) then Err(InfiniteTimestamp)
      else if start <= end then Ok(DifferenceOf(start, end))
      else Ok(Negate(DifferenceOf(end, start)))
    decreases if start > end then 1 else 0
  {
    if !Finite(end) || !Finite(start) {
      return Err(InfiniteTimestamp);
    }
    if start > end {
      var negated := Subtract(start, end, calendar, guess);
      return Ok(Negate(negated.value));
    }
    var r := SubtractOrdered(end, start, calendar, guess);
    return Ok(r);
  }

  method SubtractOrdered(end: int, start: int, calendar: Calendar, guess: Unit -> Option<int>)
    returns (r: Interval)
    requires IsInt64(end) && IsInt64(start) && start <= end && !BorrowOverflows(start, end)
    requires forall u :: guess(u).Some? ==> MIN_INT32 <= 2 * guess(u).value <= MAX_INT32
    modifies calendar
    ensures r == DifferenceOf(start, end)
  {
    var startMicros := SetTime(calendar, start);
    ghost var begin := calendar.time;
    assert startMicros == start % MICROS_PER_MSEC && begin == start / MICROS_PER_MSEC;
    var target, endMicros := Borrow(end, start, startMicros);
    hide MicrosApart, Target, ToUint64, ToInt32, EndMicros, Borrows;
    BorrowStaysAhead(start, end);
    var days, h, m, s, ms := SubtractFields(calendar, target, guess);
    UnsignedApart(start, end, ms);
    FieldsAddUp(target - begin, days, h, m, s, ms, MicrosApart(start, end));
    hide BrokenDown, FromTime;
    var micros := ToInt32(ToUint64(ms * MICROS_PER_MSEC + endMicros - startMicros));
    r := Interval(0, days, FromTime(h, m, s, micros));
  }

  /** Borrows a millisecond from the end if the microseconds are out of order. */
  method Borrow(end: int, start: int, startMicros: nat) returns (target: int, endMicros: nat)
    requires IsInt64(end) && IsInt64(start) && start <= end && !BorrowOverflows(start, end)
    requires startMicros == start % MICROS_PER_MSEC
    ensures target == Target(start, end) && IsTarget(target)
    ensures endMicros == ToUint64(EndMicros(end) + if Borrows(start, end) then MICROS_PER_MSEC else 0)
  {
    var endDate := end;
    endMicros := ToUint64(TruncRem(end, MICROS_PER_MSEC));
    EndMicrosFit(end);
    if startMicros > endMicros {
      endDate := endDate - MICROS_PER_MSEC;
      endMicros := ToUint64(endMicros + MICROS_PER_MSEC);
    }
    target := TruncDiv(endDate, MICROS_PER_MSEC);
  }

  lemma EndMicrosFit(end: int)
    ensures ToUint64(EndMicros(end)) == EndMicros(end)
  {}

  /**
   The interval is the exact difference if and only if the borrow is not lost; the days are not negative, and
   from the epoch on the microseconds are those of a day.
   */
  lemma DifferenceIsExact(start: int, end: int)
    requires IsInt64(start) && IsInt64(end) && start <= end
    ensures
      var r := DifferenceOf(start, end);
      && r.months == 0 && r.days >= 0
      && (r.days * MICROS_PER_DAY + r.micros == end - start <==> !BorrowLost(start, end))
      && (BorrowLost(start, end) ==> r.days * MICROS_PER_DAY + r.micros == end - start + MICROS_PER_MSEC)
      && -2 * MICROS_PER_MSEC < r.micros < MICROS_PER_DAY
      && (end >= 0 ==> r.micros >= 0)
  {
    ApartIsExact(start, end);
    BorrowStaysAhead(start, end);
    hide Target, MicrosApart;
    var span := Target(start, end) - start / MICROS_PER_MSEC;
    assert span == span / MILLIS_PER_DAY * MILLIS_PER_DAY + span % MILLIS_PER_DAY;
  }

  /** From half a millisecond before the epoch to a tenth after it, the result is a millisecond too long. */
  lemma BorrowLostAtEpoch()
    ensures DifferenceOf(-500, 100) == Interval(0, 0, 1_600)
  {
    assert -500 % MICROS_PER_MSEC == 500 && -500 / MICROS_PER_MSEC == -1;
  }

  /**
   The microseconds are negative exactly if the end lies before the epoch, within a millisecond, and the rest of the
   day between the timestamps is within the microseconds that both of them have in their milliseconds of its end.
   */
  lemma NegativeMicros(start: int, end: int)
    requires IsInt64(start) && IsInt64(end) && start <= end
    ensures DifferenceOf(start, end).micros < 0 <==>
      && end < 0 && end % MICROS_PER_MSEC != 0
      && (end - start) % MICROS_PER_DAY + start % MICROS_PER_MSEC + -end % MICROS_PER_MSEC >= MICROS_PER_DAY
  {
    if end >= 0 {
      hide Target, MicrosApart;
      DifferenceIsExact(start, end);
    } else {
      NegativeApart(start, end);
      hide Target, MicrosApart;
      RestOfDay(Target(start, end) - start / MICROS_PER_MSEC, MicrosApart(start, end), end - start);
    }
  }

  lemma NegativeApart(start: int, end: int)
    requires IsInt64(start) && IsInt64(end) && start <= end < 0
    ensures
      var span, apart := Target(start, end) - start / MICROS_PER_MSEC, MicrosApart(start, end);
      && span >= 0 && span * MICROS_PER_MSEC + apart == end - start && -2 * MICROS_PER_MSEC < apart < MICROS_PER_MSEC
      && (apart < 0 <==> end % MICROS_PER_MSEC != 0)
      && (apart < 0 ==> apart == -(start % MICROS_PER_MSEC) - -end % MICROS_PER_MSEC)
  {
    hide Target, MicrosApart;
    ApartBeforeEpoch(start, end);
    OppositeRest(end);
  }

  lemma OppositeRest(x: int)
    ensures -x % MICROS_PER_MSEC == 0 <==> x % MICROS_PER_MSEC == 0
  {}

  /** Before the epoch there is no borrow but from a whole millisecond, and the end's microseconds count backwards. */
  lemma ApartBeforeEpoch(start: int, end: int)
    requires IsInt64(start) && IsInt64(end) && start <= end < 0
    ensures MicrosApart(start, end) ==
      (if end % MICROS_PER_MSEC == 0 && start % MICROS_PER_MSEC > 0 then MICROS_PER_MSEC else 0)
        - -end % MICROS_PER_MSEC - start % MICROS_PER_MSEC
    ensures Target(start, end) - start / MICROS_PER_MSEC >= 0
    ensures (Target(start, end) - start / MICROS_PER_MSEC) * MICROS_PER_MSEC + MicrosApart(start, end) == end - start
  {
    ApartIsExact(start, end);
    BorrowStaysAhead(start, end);
    hide Target;
    var rest := TruncRem(end, MICROS_PER_MSEC);
    assert rest == -(-end % MICROS_PER_MSEC);
    OppositeRest(end);
  }

  /** A negative amount taken from whole milliseconds makes the rest of a day negative when the day wraps round. */
  lemma RestOfDay(span: nat, apart: int, total: int)
    requires span * MICROS_PER_MSEC + apart == total >= 0 && -2 * MICROS_PER_MSEC < apart < MICROS_PER_MSEC
    ensures span % MILLIS_PER_DAY * MICROS_PER_MSEC + apart < 0 <==> apart < 0 && total % MICROS_PER_DAY - apart >= MICROS_PER_DAY
  {
    var q, r := span / MILLIS_PER_DAY, span % MILLIS_PER_DAY;
    var rest := r * MICROS_PER_MSEC + apart;
    assert total == q * MICROS_PER_DAY + rest;
    if rest < 0 {
      assert total == (q - 1) * MICROS_PER_DAY + (rest + MICROS_PER_DAY);
      assert total % MICROS_PER_DAY == rest + MICROS_PER_DAY;
    } else {
      assert rest < MICROS_PER_DAY;
      assert total % MICROS_PER_DAY == rest;
    }
  }

  /** A day less a microsecond, ending just before the epoch, comes out as one day and minus one microsecond. */
  lemma NegativeMicrosBeforeEpoch()
    ensures DifferenceOf(-86_400_000_000, -1) == Interval(0, 1, -1)
  {}
}
