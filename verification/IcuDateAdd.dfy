/** Adding intervals to timestamps and subtracting timestamps, on the calendar. */
module IcuDateAdd {
  import opened Wrappers
  import opened IcuCalendar

  const MICROS_PER_MSEC := 1_000

  const MICROS_PER_DAY := 86_400_000_000

  datatype DateError = OutOfRange | DateOverflow | InfiniteTimestamp | FieldOverflow

  // ---------------------------------------------------------------------------
  // Between timestamps and the calendar
  // ---------------------------------------------------------------------------

  function ToUint64(x: int): nat {
    x % 0x1_0000_0000_0000_0000
  }

  function ToInt64(u: int): int {
    var m := u % 0x1_0000_0000_0000_0000;
    if m > MAX_INT64 then m - 0x1_0000_0000_0000_0000 else m
  }

  function ToInt32(u: int): int {
    var m := u % 0x1_0000_0000;
    if m > MAX_INT32 then m - 0x1_0000_0000 else m
  }

  /** The date of a timestamp, as the truncating expression computes it; infinity has a date of its own. */
  function DateOf(t: int): int {
    if t == INFINITY then MAX_INT32
    else if t == -INFINITY then -MAX_INT32
    else
      var before := if t < 0 then 1 else 0;
      TruncDiv(t + before, MICROS_PER_DAY) - before
  }

  lemma DateIsFloor(t: int)
    requires Finite(t)
    ensures DateOf(t) == t / MICROS_PER_DAY
  {}

  /** The first microsecond of the timestamp's date is a 64-bit number. */
  predicate DateInRange(t: int) {
    IsInt64(DateOf(t) * MICROS_PER_DAY)
  }

  /** Sets the calendar; the microseconds below the clock's milliseconds are left over. */
  method SetTime(calendar: Calendar, date: int) returns (micros: nat)
    requires IsInt64(date)
    modifies calendar
    ensures calendar.Valid() && !calendar.failed && IsTarget(calendar.time)
    ensures micros < MICROS_PER_MSEC && calendar.time * MICROS_PER_MSEC + micros == date
  {
    var millis, rest := TruncDiv(date, MICROS_PER_MSEC), TruncRem(date, MICROS_PER_MSEC);
    if rest < 0 {
      millis := millis - 1;
      rest := rest + MICROS_PER_MSEC;
    }
    calendar.SetTime(millis);
    micros := ToUint64(rest);
  }

  /** The clock's time and the left-over microseconds make a timestamp, if 64 bits hold it. */
  predicate TimeFits(millis: int, micros: int) {
    && IsInt64(millis * MICROS_PER_MSEC) && IsInt64(millis * MICROS_PER_MSEC + micros)
    && DateInRange(millis * MICROS_PER_MSEC + micros)
  }

  /** `micros` is passed as an unsigned number and read back as a signed one. */
  method GetTime(calendar: Calendar, micros: nat) returns (result: Result<int, DateError>)
    requires calendar.Valid() && !calendar.failed
    ensures result ==
      if TimeFits(calendar.time, ToInt64(micros)) then Ok(calendar.time * MICROS_PER_MSEC + ToInt64(micros))
      else Err(DateOverflow)
  {
    var millis := calendar.time * MICROS_PER_MSEC;
    if !IsInt64(millis) {
      return Err(DateOverflow);
    }
    millis := millis + ToInt64(micros);
    if !IsInt64(millis) {
      return Err(DateOverflow);
    }
    if !IsInt64(DateOf(millis) * MICROS_PER_DAY) {
      return Err(DateOverflow);
    }
    return Ok(millis);
  }

  lemma UnsignedRoundTrip(x: int)
    requires IsInt64(x)
    ensures ToInt64(ToUint64(x)) == x
  {}

  // ---------------------------------------------------------------------------
  // Adding hours
  // ---------------------------------------------------------------------------

  /** Staying within the bounds after every step is staying within them once, if all steps have one sign. */
  lemma ClampTwice(x: int, a: int)
    requires (a >= 0 && x >= MIN_MILLIS) || (a <= 0 && x <= MAX_MILLIS)
    ensures Clamp(Clamp(x) + a) == Clamp(x + a)
  {}

  lemma SpanOfSum(unit: Unit, a: int, b: int)
    ensures Span(unit, a + b) == Span(unit, a) + Span(unit, b)
  {}

  lemma SpanSign(unit: Unit, a: int)
    ensures a >= 0 ==> Span(unit, a) >= 0
    ensures a <= 0 ==> Span(unit, a) <= 0
  {
    SpanOfNone(unit);
    if a >= 0 {
      SpanMonotone(unit, 0, a);
    } else {
      SpanMonotone(unit, a, 0);
    }
  }

  /** Adds any 64-bit number of hours, in chunks of 32 bits. */
  method CalendarAddHour(calendar: Calendar, hours: int)
    requires calendar.Valid() && !calendar.failed && IsInt64(hours)
    modifies calendar`time
    ensures calendar.Valid() && calendar.time == Clamp(old(calendar.time) + Span(Hour, hours))
  {
    var intervalHour := hours;
    ghost var start, done := calendar.time, 0;
    hide Clamp, Span;
    assert Clamp(start) == start by { ClampInside(start); }
    SpanOfNone(Hour);
    if intervalHour >= 0 {
      while intervalHour > 0
        invariant calendar.Valid() && !calendar.failed
        invariant 0 <= done <= hours && (intervalHour > 0 ==> done + intervalHour == hours)
        invariant intervalHour <= 0 ==> done == hours
        invariant calendar.time == Clamp(start + Span(Hour, done))
        decreases intervalHour
      {
        var amount := if intervalHour > MAX_INT32 then MAX_INT32 else intervalHour;
        SpanSign(Hour, done);
        SpanSign(Hour, amount);
        SpanOfSum(Hour, done, amount);
        ClampTwice(start + Span(Hour, done), Span(Hour, amount));
        calendar.Add(Hour, amount);
        intervalHour := intervalHour - MAX_INT32;
        done := done + amount;
      }
    } else {
      while intervalHour < 0
        invariant calendar.Valid() && !calendar.failed
        invariant hours <= done <= 0 && (intervalHour < 0 ==> done + intervalHour == hours)
        invariant intervalHour >= 0 ==> done == hours
        invariant calendar.time == Clamp(start + Span(Hour, done))
        decreases -intervalHour
      {
        var amount := if intervalHour < MIN_INT32 then MIN_INT32 else intervalHour;
        SpanSign(Hour, done);
        SpanSign(Hour, amount);
        SpanOfSum(Hour, done, amount);
        ClampTwice(start + Span(Hour, done), Span(Hour, amount));
        calendar.Add(Hour, amount);
        intervalHour := intervalHour - MIN_INT32;
        done := done + amount;
      }
    }
  }

  lemma ClampInside(x: int)
    requires MIN_MILLIS <= x <= MAX_MILLIS
    ensures Clamp(x) == x
  {}

  // ---------------------------------------------------------------------------
  // Adding an interval
  // ---------------------------------------------------------------------------

  /** The clock time that the addition starts from, and the microseconds that are kept beside it. */
  function Carried(t: int, micros: int): (int, int) {
    var millis := TruncDiv(t, MICROS_PER_MSEC);
    var rest := TruncRem(t, MICROS_PER_MSEC) + TruncRem(micros, MICROS_PER_MSEC);
    if rest >= MICROS_PER_MSEC then (millis + 1, rest - MICROS_PER_MSEC)
    else if rest < 0 then (millis - 1, rest + MICROS_PER_MSEC)
    else (millis, rest)
  }

  /** The carry moves time between the two parts and loses none; the microseconds can stay negative. */
  lemma CarriedIsExact(t: int, micros: int)
    ensures var (millis, rest) := Carried(t, micros);
      && (millis + TruncDiv(micros, MICROS_PER_MSEC)) * MICROS_PER_MSEC + rest == t + micros
      && -MICROS_PER_MSEC < rest < MICROS_PER_MSEC
  {}

  /** The time parts of an interval, by truncating division. */
  datatype Parts = Parts(hours: int, minutes: int, seconds: int, millis: int)
  {
    function Length(): int {
      Span(Hour, hours) + Span(Minute, minutes) + Span(Second, seconds) + Span(Millisecond, millis)
    }
  }

  function PartsOf(micros: int): Parts {
    var ms := TruncDiv(micros, MICROS_PER_MSEC);
    var s := TruncDiv(ms, 1_000);
    var m := TruncDiv(s, 60);
    Parts(TruncDiv(m, 60), TruncRem(m, 60), TruncRem(s, 60), TruncRem(ms, 1_000))
  }

  /** Breaking the interval apart loses nothing, and all parts have its sign. */
  lemma PartsAddUp(micros: int)
    requires IsInt64(micros)
    ensures var p := PartsOf(micros);
      && p.Length() == TruncDiv(micros, MICROS_PER_MSEC)
      && (micros >= 0 ==> p.hours >= 0 && 0 <= p.minutes < 60 && 0 <= p.seconds < 60 && 0 <= p.millis < 1_000)
      && (micros <= 0 ==> p.hours <= 0 && -60 < p.minutes <= 0 && -60 < p.seconds <= 0 && -1_000 < p.millis <= 0)
      && -2_600_000_000 < p.hours < 2_600_000_000
  {
    var ms := TruncDiv(micros, MICROS_PER_MSEC);
    var s := TruncDiv(ms, 1_000);
    var m := TruncDiv(s, 60);
    TruncatesTowardZero(micros, MICROS_PER_MSEC);
    TruncatesTowardZero(ms, 1_000);
    TruncatesTowardZero(s, 60);
    TruncatesTowardZero(m, 60);
    hide TruncDiv, TruncRem;
  }

  /** Quotient and remainder have the sign of the dividend and make it up again. */
  lemma TruncatesTowardZero(x: int, n: int)
    requires n == 60 || n == 1_000
    ensures x == TruncDiv(x, n) * n + TruncRem(x, n) && -n < TruncRem(x, n) < n
    ensures x >= 0 ==> TruncDiv(x, n) >= 0 && TruncRem(x, n) >= 0
    ensures x <= 0 ==> TruncDiv(x, n) <= 0 && TruncRem(x, n) <= 0
  {
    if n == 60 {
      assert TruncDiv(x, 60) * 60 + TruncRem(x, 60) == x;
    }
  }

  /** The whole interval in microseconds, when it has no months. */
  function IntervalMicros(interval: Interval): int {
    interval.days * MICROS_PER_DAY + interval.micros
  }

  /** From the smallest unit to the largest; no bound is near. */
  method AddTimeUp(calendar: Calendar, p: Parts)
    requires calendar.Valid() && !calendar.failed && IsTarget(calendar.time)
    requires -2_600_000_000 < p.hours < 2_600_000_000 && -60 < p.minutes < 60 && -60 < p.seconds < 60
    requires -1_000 < p.millis < 1_000
    modifies calendar`time
    ensures calendar.Valid() && calendar.time == old(calendar.time) + p.Length()
  {
    calendar.Add(Millisecond, p.millis);
    calendar.Add(Second, p.seconds);
    calendar.Add(Minute, p.minutes);
    CalendarAddHour(calendar, p.hours);
  }

  /** From the largest unit to the smallest, all of them forward: a bound that is reached holds. */
  method AddTimeDown(calendar: Calendar, p: Parts)
    requires calendar.Valid() && !calendar.failed
    requires 0 <= p.hours < 2_600_000_000 && 0 <= p.minutes < 60 && 0 <= p.seconds < 60 && 0 <= p.millis < 1_000
    modifies calendar`time
    ensures calendar.Valid() && calendar.time == Clamp(old(calendar.time) + p.Length())
  {
    CalendarAddHour(calendar, p.hours);
    calendar.Add(Minute, p.minutes);
    calendar.Add(Second, p.seconds);
    calendar.Add(Millisecond, p.millis);
  }

  /** The clock after months, then days, were added; each is kept within the calendar's bounds. */
  function DateAdded(time: int, interval: Interval, addMonths: (int, int) -> int): int {
    Clamp((if interval.months == 0 then time else Clamp(addMonths(time, interval.months))) + Span(Day, interval.days))
  }

  /** The clock after the whole interval was added: the time first if a field is negative, and last otherwise. */
  function Added(time: int, interval: Interval, addMonths: (int, int) -> int): int {
    var length := TruncDiv(interval.micros, MICROS_PER_MSEC);
    if interval.Negative() then DateAdded(time + length, interval, addMonths)
    else Clamp(DateAdded(time, interval, addMonths) + length)
  }

  lemma AddedWithoutMonths(time: int, interval: Interval, addMonths: (int, int) -> int)
    requires IsTarget(time) && interval.months == 0 && IsInt64(interval.micros)
    ensures Added(time, interval, addMonths) ==
      Clamp(time + Span(Day, interval.days) + TruncDiv(interval.micros, MICROS_PER_MSEC))
  {
    hide Span, TruncDiv, Clamp;
    if !interval.Negative() {
      TruncatesTowardZero(interval.micros, MICROS_PER_MSEC);
      SpanSign(Day, interval.days);
      ClampForward(time + Span(Day, interval.days), TruncDiv(interval.micros, MICROS_PER_MSEC));
    }
  }

  /** Months, then days. */
  method AddDate(calendar: Calendar, interval: Interval, addMonths: (int, int) -> int)
    requires calendar.Valid() && !calendar.failed && IsInt32(interval.days)
    modifies calendar`time
    ensures calendar.Valid() && calendar.time == DateAdded(old(calendar.time), interval, addMonths)
  {
    if interval.months != 0 {
      calendar.SetTimeChecked(addMonths(calendar.time, interval.months));
    }
    calendar.Add(Day, interval.days);
  }

  /** The clock and the carried microseconds as a timestamp, if they were in range before and are after. */
  function Sum(timestamp: int, interval: Interval, addMonths: (int, int) -> int): Result<int, DateError> {
    if !Finite(timestamp) then Ok(timestamp)
    else
      var (millis, rest) := Carried(timestamp, interval.micros);
      var time := Added(millis, interval, addMonths);
      if !IsInt64(millis * MICROS_PER_MSEC) || !DateInRange(millis * MICROS_PER_MSEC) then Err(OutOfRange)
      else if !TimeFits(time, rest) then Err(DateOverflow)
      else Ok(time * MICROS_PER_MSEC + rest)
  }

  /**
   The result is the clock after adding the interval, with the carried microseconds, if the carried start and the
   result are in range, and an error otherwise.  Without months it is the exact sum, whatever the signs of the parts
   and the order in which they are added.
   */
  method Add(timestamp: int, interval: Interval, calendar: Calendar, addMonths: (int, int) -> int)
    returns (result: Result<int, DateError>)
    requires IsInt64(timestamp) && IsInt32(interval.months) && IsInt32(interval.days) && IsInt64(interval.micros)
    modifies calendar
    ensures result == Sum(timestamp, interval, addMonths)
    ensures Finite(timestamp) && interval.months == 0 ==>
      var (millis, rest) := Carried(timestamp, interval.micros);
      var sum := timestamp + IntervalMicros(interval);
      result ==
        if !IsInt64(millis * MICROS_PER_MSEC) || !DateInRange(millis * MICROS_PER_MSEC) then Err(OutOfRange)
        else if !IsInt64(sum - rest) || !IsInt64(sum) || !DateInRange(sum) then Err(DateOverflow)
        else Ok(sum)
  {
    if !Finite(timestamp) {
      return Ok(timestamp);
    }
    var millis, micros := Carry(timestamp, interval.micros);
    CarriedIsExact(timestamp, interval.micros);
    CarriedTarget(timestamp, interval.micros);
    UnsignedRoundTrip(micros);
    ghost var length := TruncDiv(interval.micros, MICROS_PER_MSEC);
    ReadBack(millis, micros, interval.days, length);
    if interval.months == 0 {
      AddedWithoutMonths(millis, interval, addMonths);
    }
    hide Carried, Clamp, Span, DateInRange, TruncDiv, TimeFits, ToUint64, ToInt64, Added;
    if !IsInt64(millis * MICROS_PER_MSEC) || !DateInRange(millis * MICROS_PER_MSEC) {
      return Err(OutOfRange);
    }
    AddParts(calendar, millis, interval, addMonths);
    result := GetTime(calendar, ToUint64(micros));
  }

  /** Moving whole milliseconds out of the left-over microseconds. */
  method Carry(timestamp: int, intervalMicros: int) returns (millis: int, micros: int)
    ensures (millis, micros) == Carried(timestamp, intervalMicros)
  {
    millis, micros := TruncDiv(timestamp, MICROS_PER_MSEC), TruncRem(timestamp, MICROS_PER_MSEC);
    micros := micros + TruncRem(intervalMicros, MICROS_PER_MSEC);
    if micros >= MICROS_PER_MSEC {
      micros := micros - MICROS_PER_MSEC;
      millis := millis + 1;
    } else if micros < 0 {
      micros := micros + MICROS_PER_MSEC;
      millis := millis - 1;
    }
  }

  lemma CarriedTarget(timestamp: int, micros: int)
    requires IsInt64(timestamp)
    ensures IsTarget(Carried(timestamp, micros).0)
  {}

  /** Adds the fields in the order that the interval's signs ask for. */
  method AddParts(calendar: Calendar, millis: int, interval: Interval, addMonths: (int, int) -> int)
    requires IsTarget(millis) && IsInt32(interval.days) && IsInt64(interval.micros)
    modifies calendar
    ensures calendar.Valid() && !calendar.failed && calendar.time == Added(millis, interval, addMonths)
  {
    hide PartsOf, Parts.Length, TruncDiv, Clamp, DateAdded;
    calendar.SetTime(millis);
    ClampInside(millis);
    PartsAddUp(interval.micros);
    var p := PartsOf(interval.micros);
    if interval.Negative() {
      AddTimeUp(calendar, p);
      AddDate(calendar, interval, addMonths);
    } else {
      AddDate(calendar, interval, addMonths);
      AddTimeDown(calendar, p);
    }
  }

  /** Going forward, stopping at the upper bound twice is stopping once. */
  lemma ClampForward(x: int, more: int)
    requires x >= MIN_MILLIS && more >= 0
    ensures Clamp(Clamp(x) + more) == Clamp(x + more)
  {}

  /** Reading back a clock that was stopped at a bound fails, as the exact sum does. */
  lemma ReadBack(millis: int, rest: int, days: int, length: int)
    requires IsTarget(millis) && -MICROS_PER_MSEC < rest < MICROS_PER_MSEC
    ensures
      var time := millis + Span(Day, days) + length;
      var sum := (millis + length) * MICROS_PER_MSEC + rest + days * MICROS_PER_DAY;
      && time * MICROS_PER_MSEC + rest == sum
      && (TimeFits(Clamp(time), rest) <==> IsInt64(sum - rest) && IsInt64(sum) && DateInRange(sum))
      && (TimeFits(Clamp(time), rest) ==> Clamp(time) == time)
  {
    hide DateInRange;
  }
}
