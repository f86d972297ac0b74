/**
 date_trunc on a calendar at a fixed offset.  The days of the calendar are divided into months by the first day
 of each month, counted through all years from January of year 0; any such division will do, and the Gregorian
 one is an instance.
 */
module IcuDateTrunc {
  import opened Wrappers
  import opened IcuCalendar
  import opened IcuDateAdd

  type Months = int -> int

  predicate MonthStep(first: Months, k: int) {
    first(k) < first(k + 1)
  }

  /** Later months start on later days. */
  ghost predicate Ordered(first: Months) {
    forall k :: MonthStep(first, k)
  }

  /** The month that a day lies in, searched from month k. */
  function Seek(first: Months, day: int, k: int): (m: int)
    requires Ordered(first)
    ensures first(m) <= day < first(m + 1)
    decreases if day < first(k) then 1 else 0, if day < first(k) then first(k) - day else day - first(k)
  {
    assert MonthStep(first, k) && MonthStep(first, k - 1);
    if day < first(k) then Seek(first, day, k - 1)
    else if day >= first(k + 1) then Seek(first, day, k + 1)
    else k
  }

  function MonthOf(first: Months, day: int): (m: int)
    requires Ordered(first)
    ensures first(m) <= day < first(m + 1)
  {
    Seek(first, day, 0)
  }

  lemma {:induction false} MonthsOrdered(first: Months, i: int, j: int)
    requires Ordered(first) && i <= j
    ensures first(i) <= first(j) && (i < j ==> first(i) < first(j))
    decreases j - i
  {
    if i < j {
      MonthsOrdered(first, i, j - 1);
      assert MonthStep(first, j - 1);
    }
  }

  /** A day in month m is on or after the first day of month j exactly if m is j or later. */
  lemma MonthOfBetween(first: Months, day: int, j: int)
    requires Ordered(first)
    ensures first(j) <= day <==> j <= MonthOf(first, day)
  {
    var m := MonthOf(first, day);
    if j <= m {
      MonthsOrdered(first, j, m);
    } else {
      MonthsOrdered(first, m + 1, j);
    }
  }

  // ---------------------------------------------------------------------------
  // The Gregorian months
  // ---------------------------------------------------------------------------

  predicate IsLeap(year: int) {
    year % 4 == 0 && (year % 100 != 0 || year % 400 == 0)
  }

  /** The days before a year, from January 1 of year 0. */
  function DaysBeforeYear(year: int): int {
    365 * year + (year + 3) / 4 - (year + 99) / 100 + (year + 399) / 400
  }

  /** The days of a common year before a month, from 0 for January. */
  function DaysBeforeMonth(month: int): int
    requires 0 <= month <= 12
  {
    [0, 31, 59, 90, 120, 151, 181, 212, 243, 273, 304, 334, 365][month]
  }

  function Gregorian(k: int): int {
    var year, month := k / 12, k % 12;
    DaysBeforeYear(year) + DaysBeforeMonth(month) + if month > 1 && IsLeap(year) then 1 else 0
  }

  lemma YearLength(year: int)
    ensures DaysBeforeYear(year + 1) == DaysBeforeYear(year) + if IsLeap(year) then 366 else 365
  {
    FourthYears(year);
    HundredthYears(year);
    FourHundredthYears(year);
    Centuries(year);
  }

  lemma FourthYears(year: int)
    ensures (year + 4) / 4 == (year + 3) / 4 + if year % 4 == 0 then 1 else 0
  {}

  lemma HundredthYears(year: int)
    ensures (year + 100) / 100 == (year + 99) / 100 + if year % 100 == 0 then 1 else 0
  {}

  lemma FourHundredthYears(year: int)
    ensures (year + 400) / 400 == (year + 399) / 400 + if year % 400 == 0 then 1 else 0
  {}

  lemma Quotient(x: int, n: int, q: int)
    requires n > 0 && q * n <= x < q * n + n
    ensures x / n == q
  {
    FloorCases(x, n, q);
    FloorCases(x, n, q + 1);
    assert (q + 1) * n == q * n + n;
  }

  lemma Centuries(year: int)
    ensures year % 400 == 0 ==> year % 100 == 0
    ensures year % 100 == 0 ==> year % 4 == 0
  {
    Multiples(year / 400, 4, 100);
    Multiples(year / 100, 25, 4);
  }

  lemma Multiples(q: int, m: nat, n: nat)
    requires (m == 4 && n == 100) || (m == 25 && n == 4)
    ensures q * (m * n) % n == 0
  {
    if n == 4 {
      assert q * 100 == (q * 25) * 4;
    } else {
      assert q * 400 == (q * 4) * 100;
    }
  }

  /** Every Gregorian month has between 28 and 31 days. */
  lemma GregorianMonth(k: int)
    ensures 28 <= Gregorian(k + 1) - Gregorian(k) <= 31
  {
    var year, month := k / 12, k % 12;
    if month == 11 {
      assert (k + 1) / 12 == year + 1 && (k + 1) % 12 == 0;
      YearLength(year);
    } else {
      assert (k + 1) / 12 == year && (k + 1) % 12 == month + 1;
    }
    hide DaysBeforeYear, IsLeap;
  }

  lemma GregorianIsOrdered()
    ensures Ordered(Gregorian)
  {
    forall k ensures MonthStep(Gregorian, k) {
      GregorianMonth(k);
    }
  }

  // ---------------------------------------------------------------------------
  // Truncation
  // ---------------------------------------------------------------------------

  datatype Part = Microseconds | Milliseconds | Seconds | Minutes | Hours | Days | Month | Quarter | Year
  {
    /** From finer to coarser. */
    function Rank(): nat {
      match this
      case Microseconds => 0
      case Milliseconds => 1
      case Seconds => 2
      case Minutes => 3
      case Hours => 4
      case Days => 5
      case Month => 6
      case Quarter => 7
      case Year => 8
    }

    predicate Constant() {
      Rank() <= 5
    }

    /** The length of a part of constant length, in microseconds. */
    function Micros(): (n: int)
      requires Constant()
      ensures n > 0
    {
      match this
      case Microseconds => 1
      case Milliseconds => 1_000
      case Seconds => 1_000_000
      case Minutes => 60_000_000
      case Hours => 3_600_000_000
      case Days => 86_400_000_000
    }

    /** The months in a part that consists of months. */
    function MonthCount(): (n: int)
      requires !Constant()
      ensures n > 0
    {
      match this
      case Month => 1
      case Quarter => 3
      case Year => 12
    }
  }

  /** The months of the calendar and its offset in milliseconds. */
  datatype Zone = Zone(first: Months, offset: int)
  {
    /** Local microseconds. */
    function Local(t: int): int {
      t + offset * MICROS_PER_MSEC
    }

    function DayOf(t: int): int {
      Local(t) / MICROS_PER_DAY
    }

    /** The instant at which a month starts. */
    function MonthStart(k: int): int {
      first(k) * MICROS_PER_DAY - offset * MICROS_PER_MSEC
    }
  }

  /** Which part of the calendar an instant lies in, all parts of a kind numbered in order. */
  function Index(z: Zone, part: Part, t: int): int
    requires Ordered(z.first)
  {
    if part.Constant() then z.Local(t) / part.Micros() else MonthOf(z.first, z.DayOf(t)) / part.MonthCount()
  }

  /** The instant at which a part starts. */
  function Start(z: Zone, part: Part, index: int): int {
    if part.Constant() then index * part.Micros() - z.offset * MICROS_PER_MSEC
    else z.MonthStart(index * part.MonthCount())
  }

  /** The start of the part that the instant lies in. */
  function Truncated(z: Zone, part: Part, t: int): int
    requires Ordered(z.first)
  {
    Start(z, part, Index(z, part, t))
  }

  /** The instants at which some part of the kind starts. */
  ghost predicate Boundary(z: Zone, part: Part, b: int) {
    exists i :: Start(z, part, i) == b
  }

  lemma FloorCases(x: int, n: int, i: int)
    requires n > 0
    ensures i * n <= x <==> i <= x / n
  {
    var q := x / n;
    assert q * n <= x < q * n + n;
    if i <= q {
      Times(i, q, n);
    } else {
      Times(q + 1, i, n);
      assert (q + 1) * n == q * n + n;
    }
  }

  /** A part has started by an instant exactly if its number is not beyond that of the instant's part. */
  lemma StartedBy(z: Zone, part: Part, i: int, t: int)
    requires Ordered(z.first)
    ensures Start(z, part, i) <= t <==> i <= Index(z, part, t)
  {
    if part.Constant() {
      FloorCases(z.Local(t), part.Micros(), i);
    } else {
      var k := i * part.MonthCount();
      FloorCases(z.Local(t), MICROS_PER_DAY, z.first(k));
      MonthOfBetween(z.first, z.DayOf(t), k);
      FloorCases(MonthOf(z.first, z.DayOf(t)), part.MonthCount(), i);
    }
  }

  /** Truncation gives the latest boundary that is not after the instant, and only that. */
  lemma TruncatedIsLatestBoundary(z: Zone, part: Part, t: int, b: int)
    requires Ordered(z.first)
    ensures b == Truncated(z, part, t) <==>
      Boundary(z, part, b) && b <= t && forall c :: Boundary(z, part, c) && c <= t ==> c <= b
  {
    hide Start, Index;
    var r := Truncated(z, part, t);
    StartedBy(z, part, Index(z, part, t), t);
    assert Boundary(z, part, r) && r <= t;
    forall c | Boundary(z, part, c) && c <= t ensures c <= r {
      var i :| Start(z, part, i) == c;
      StartedBy(z, part, i, t);
      StartsOrdered(z, part, i, Index(z, part, t));
    }
  }

  lemma StartsOrdered(z: Zone, part: Part, i: int, j: int)
    requires Ordered(z.first)
    ensures i <= j ==> Start(z, part, i) <= Start(z, part, j)
    ensures i < j ==> Start(z, part, i) < Start(z, part, j)
  {
    if i <= j {
      if part.Constant() {
        Times(i, j, part.Micros());
        if i < j {
          Times(i + 1, j, part.Micros());
          assert (i + 1) * part.Micros() == i * part.Micros() + part.Micros();
        }
      } else {
        var n := part.MonthCount();
        Times(i, j, n);
        if i < j {
          Times(i + 1, j, n);
          assert (i + 1) * n == i * n + n;
        }
        MonthsOrdered(z.first, i * n, j * n);
      }
    }
  }

  /** A coarser part of constant length is made of finer ones. */
  lemma MicrosDivide(fine: Part, coarse: Part) returns (n: int)
    requires fine.Rank() <= coarse.Rank() && coarse.Constant()
    ensures coarse.Micros() == n * fine.Micros()
  {
    n := coarse.Micros() / fine.Micros();
  }

  lemma MonthsDivide(fine: Part, coarse: Part) returns (n: int)
    requires fine.Rank() <= coarse.Rank() && !fine.Constant()
    ensures coarse.MonthCount() == n * fine.MonthCount()
  {
    n := coarse.MonthCount() / fine.MonthCount();
  }

  /** Starts of coarser parts are starts of finer ones. */
  lemma BoundariesNest(z: Zone, fine: Part, coarse: Part, b: int)
    requires fine.Rank() <= coarse.Rank() && Boundary(z, coarse, b)
    ensures Boundary(z, fine, b)
  {
    var i :| Start(z, coarse, i) == b;
    if coarse.Constant() {
      var n := MicrosDivide(fine, coarse);
      Regroup(i, n, fine.Micros());
      FineStart(z, fine, b, i * n);
    } else if fine.Constant() {
      var n := MicrosDivide(fine, Days);
      var day := z.first(i * coarse.MonthCount());
      Regroup(day, n, fine.Micros());
      FineStart(z, fine, b, day * n);
    } else {
      var n := MonthsDivide(fine, coarse);
      Regroup(i, n, fine.MonthCount());
      FineStart(z, fine, b, i * n);
    }
  }

  lemma Regroup(a: int, b: int, c: int)
    ensures a * (b * c) == (a * b) * c
  {}

  lemma FineStart(z: Zone, fine: Part, b: int, j: int)
    requires Start(z, fine, j) == b
    ensures Boundary(z, fine, b)
  {}

  /** Truncation is monotone. */
  lemma TruncatedMonotone(z: Zone, part: Part, s: int, t: int)
    requires Ordered(z.first) && s <= t
    ensures Truncated(z, part, s) <= Truncated(z, part, t)
  {
    TruncatedIsLatestBoundary(z, part, s, Truncated(z, part, s));
    TruncatedIsLatestBoundary(z, part, t, Truncated(z, part, t));
    hide Truncated, Boundary;
  }

  /** Truncation to a finer part before or after one to a coarser part changes nothing; so it is idempotent. */
  lemma TruncatedTwice(z: Zone, fine: Part, coarse: Part, t: int)
    requires Ordered(z.first) && fine.Rank() <= coarse.Rank()
    ensures Truncated(z, coarse, Truncated(z, fine, t)) == Truncated(z, coarse, t)
    ensures Truncated(z, fine, Truncated(z, coarse, t)) == Truncated(z, coarse, t)
  {
    var f, c := Truncated(z, fine, t), Truncated(z, coarse, t);
    TruncatedIsLatestBoundary(z, fine, t, f);
    TruncatedIsLatestBoundary(z, coarse, t, c);
    BoundariesNest(z, fine, coarse, c);
    TruncatedIsLatestBoundary(z, coarse, f, c);
    TruncatedIsLatestBoundary(z, fine, c, c);
    hide Truncated, Boundary;
  }

  /** The truncated timestamp, and its whole milliseconds, are 64-bit numbers. */
  predicate TruncFits(z: Zone, part: Part, t: int)
    requires Ordered(z.first)
  {
    var r := Truncated(z, part, t);
    IsInt64(r - r % MICROS_PER_MSEC) && IsInt64(r)
  }

  // ---------------------------------------------------------------------------
  // The chain of truncation functions
  // ---------------------------------------------------------------------------

  /** The calendar's fields; months are counted through the years, days of a month from 0. */
  class FieldCalendar {
    const zone: Zone
    var month: int
    var day: int
    var hour: int
    var minute: int
    var second: int
    var millisecond: int

    constructor (zone: Zone)
      requires Ordered(zone.first)
      ensures this.zone == zone && InRange()
    {
      this.zone := zone;
      month, day, hour, minute, second, millisecond := 0, 0, 0, 0, 0, 0;
      new;
      assert MonthStep(zone.first, 0);
    }

    ghost predicate InRange()
      reads this
    {
      && Ordered(zone.first)
      && 0 <= day < zone.first(month + 1) - zone.first(month)
      && 0 <= hour < 24 && 0 <= minute < 60 && 0 <= second < 60 && 0 <= millisecond < 1_000
    }

    function DayNumber(): int
      reads this
    {
      zone.first(month) + day
    }

    function TimeOfDay(): int
      reads this
    {
      hour * 3_600_000 + minute * 60_000 + second * 1_000 + millisecond
    }

    /** The clock time that the fields make up. */
    function Millis(): int
      reads this
    {
      DayNumber() * MILLIS_PER_DAY + TimeOfDay() - zone.offset
    }

    method SetMillis(millis: int)
      requires Ordered(zone.first)
      modifies this
      ensures InRange() && Millis() == millis
    {
      var local := millis + zone.offset;
      var dayNumber, rest := local / MILLIS_PER_DAY, local % MILLIS_PER_DAY;
      month := MonthOf(zone.first, dayNumber);
      day := dayNumber - zone.first(month);
      hour, rest := rest / 3_600_000, rest % 3_600_000;
      minute, rest := rest / 60_000, rest % 60_000;
      second, millisecond := rest / 1_000, rest % 1_000;
    }

    method TruncMillisecond(micros: nat) returns (rest: nat)
      ensures rest == 0
    {
      rest := 0;
    }

    method TruncSecond(micros: nat) returns (rest: nat)
      modifies this`millisecond
      ensures rest == 0 && millisecond == 0
    {
      rest := TruncMillisecond(micros);
      millisecond := 0;
    }

    method TruncMinute(micros: nat) returns (rest: nat)
      modifies this`second, this`millisecond
      ensures rest == 0 && second == 0 && millisecond == 0
    {
      rest := TruncSecond(micros);
      second := 0;
    }

    method TruncHour(micros: nat) returns (rest: nat)
      modifies this`minute, this`second, this`millisecond
      ensures rest == 0 && minute == 0 && second == 0 && millisecond == 0
    {
      rest := TruncMinute(micros);
      minute := 0;
    }

    method TruncDay(micros: nat) returns (rest: nat)
      modifies this`hour, this`minute, this`second, this`millisecond
      ensures rest == 0 && hour == 0 && minute == 0 && second == 0 && millisecond == 0
    {
      rest := TruncHour(micros);
      hour := 0;
    }

    method TruncMonth(micros: nat) returns (rest: nat)
      requires InRange()
      modifies this
      ensures InRange() && rest == 0 && month == old(month) && day == 0 && TimeOfDay() == 0
    {
      rest := TruncDay(micros);
      day := 0;
    }

    method TruncQuarter(micros: nat) returns (rest: nat)
      requires InRange()
      modifies this
      ensures InRange() && rest == 0 && month == old(month) / 3 * 3 && day == 0 && TimeOfDay() == 0
    {
      rest := TruncMonth(micros);
      var mm := month % 12;
      month := month - mm + mm / 3 * 3;
      assert MonthStep(zone.first, month);
    }

    method TruncYear(micros: nat) returns (rest: nat)
      requires InRange()
      modifies this
      ensures InRange() && rest == 0 && month == old(month) / 12 * 12 && day == 0 && TimeOfDay() == 0
    {
      rest := TruncMonth(micros);
      month := month - month % 12;
      assert MonthStep(zone.first, month);
    }

    /** The microseconds in the fields below a part of constant length, or below the day. */
    function Below(part: Part, micros: nat): nat
      requires InRange()
      reads this
    {
      match part
      case Microseconds => 0
      case Milliseconds => micros
      case Seconds => millisecond * MICROS_PER_MSEC + micros
      case Minutes => (second * 1_000 + millisecond) * MICROS_PER_MSEC + micros
      case Hours => (minute * 60_000 + second * 1_000 + millisecond) * MICROS_PER_MSEC + micros
      case _ => TimeOfDay() * MICROS_PER_MSEC + micros
    }

    /** The function of a part of constant length clears the fields below it. */
    method TruncTime(part: Part, micros: nat) returns (rest: nat)
      requires InRange() && micros < MICROS_PER_MSEC && part.Constant()
      modifies this`hour, this`minute, this`second, this`millisecond
      ensures Millis() * MICROS_PER_MSEC + rest == old(Millis()) * MICROS_PER_MSEC + micros - old(Below(part, micros))
      ensures rest < MICROS_PER_MSEC
    {
      match part
      case Microseconds => rest := micros;
      case Milliseconds => rest := TruncMillisecond(micros);
      case Seconds => rest := TruncSecond(micros);
      case Minutes => rest := TruncMinute(micros);
      case Hours => rest := TruncHour(micros);
      case Days => rest := TruncDay(micros);
    }

    method Trunc(part: Part, micros: nat) returns (rest: nat)
      requires InRange() && micros < MICROS_PER_MSEC
      modifies this
      ensures Millis() * MICROS_PER_MSEC + rest == Truncated(zone, part, old(Millis()) * MICROS_PER_MSEC + micros)
      ensures rest < MICROS_PER_MSEC
    {
      FieldsTruncated(this, part, micros);
      hide Truncated, Millis, Zone.MonthStart, TimeOfDay, Below, Ordered;
      match part
      case Month => rest := TruncMonth(micros);
      case Quarter => rest := TruncQuarter(micros);
      case Year => rest := TruncYear(micros);
      case _ => rest := TruncTime(part, micros);
      if !part.Constant() {
        StartOfMonthMillis(this);
      }
    }

    /** date_trunc of a timestamp; an infinite one is returned as it is. */
    method DateTrunc(part: Part, date: int) returns (result: Result<int, DateError>)
      requires Ordered(zone.first) && IsInt64(date)
      modifies this
      ensures !Finite(date) ==> result == Ok(date)
      ensures Finite(date) ==>
        result == if TruncFits(zone, part, date) then Ok(Truncated(zone, part, date)) else Err(OutOfRange)
    {
      hide Truncated, Millis, InRange, Ordered;
      if !Finite(date) {
        return Ok(date);
      }
      var micros := date % MICROS_PER_MSEC;
      SetMillis(date / MICROS_PER_MSEC);
      var rest := Trunc(part, micros);
      var millis := Millis() * MICROS_PER_MSEC;
      RestOfMillis(Millis(), rest);
      if !IsInt64(millis) || !IsInt64(millis + rest) {
        return Err(OutOfRange);
      }
      return Ok(millis + rest);
    }
  }

  lemma StartOfMonthMillis(c: FieldCalendar)
    requires c.day == 0 && c.TimeOfDay() == 0
    ensures c.Millis() * MICROS_PER_MSEC == c.zone.MonthStart(c.month)
  {}

  lemma RestOfMillis(millis: int, rest: nat)
    requires rest < MICROS_PER_MSEC
    ensures (millis * MICROS_PER_MSEC + rest) % MICROS_PER_MSEC == rest
  {}

  /** The fields of the calendar are those of its time. */
  lemma FieldsOfTime(c: FieldCalendar, micros: nat)
    requires c.InRange() && micros < MICROS_PER_MSEC
    ensures var t := c.Millis() * MICROS_PER_MSEC + micros;
      c.zone.DayOf(t) == c.DayNumber() && MonthOf(c.zone.first, c.zone.DayOf(t)) == c.month
  {
    var t := c.Millis() * MICROS_PER_MSEC + micros;
    assert c.zone.Local(t) == c.DayNumber() * MICROS_PER_DAY + (c.TimeOfDay() * MICROS_PER_MSEC + micros);
    assert 0 <= c.TimeOfDay() * MICROS_PER_MSEC + micros < MICROS_PER_DAY;
    FloorCases(c.zone.Local(t), MICROS_PER_DAY, c.DayNumber());
    FloorCases(c.zone.Local(t), MICROS_PER_DAY, c.DayNumber() + 1);
    MonthOfBetween(c.zone.first, c.DayNumber(), c.month);
    MonthOfBetween(c.zone.first, c.DayNumber(), c.month + 1);
  }

  /** Truncation to a part of constant length, once the part and the rest are known. */
  lemma ConstantTruncated(z: Zone, part: Part, t: int, index: int, rest: int)
    requires Ordered(z.first) && part.Constant()
    requires z.Local(t) == index * part.Micros() + rest && 0 <= rest < part.Micros()
    ensures Truncated(z, part, t) == t - rest
  {
    Quotient(z.Local(t), part.Micros(), index);
  }

  /** The number of the part that the fields lie in. */
  function FieldIndex(c: FieldCalendar, part: Part, micros: nat): int
    requires part.Constant()
    reads c
  {
    var minutes := c.DayNumber() * 1_440 + c.hour * 60 + c.minute;
    var seconds := minutes * 60 + c.second;
    match part
    case Microseconds => (seconds * 1_000 + c.millisecond) * MICROS_PER_MSEC + micros
    case Milliseconds => seconds * 1_000 + c.millisecond
    case Seconds => seconds
    case Minutes => minutes
    case Hours => c.DayNumber() * 24 + c.hour
    case Days => c.DayNumber()
  }

  lemma FieldIndexRest(c: FieldCalendar, part: Part, micros: nat)
    requires c.InRange() && part.Constant() && micros < MICROS_PER_MSEC
    ensures
      var local := c.zone.Local(c.Millis() * MICROS_PER_MSEC + micros);
      local == FieldIndex(c, part, micros) * part.Micros() + c.Below(part, micros) && c.Below(part, micros) < part.Micros()
  {}

  /** Truncation clears the fields below the part, and counts the month back to the start of the part. */
  lemma FieldsTruncated(c: FieldCalendar, part: Part, micros: nat)
    requires c.InRange() && micros < MICROS_PER_MSEC
    ensures
      var t := c.Millis() * MICROS_PER_MSEC + micros;
      Truncated(c.zone, part, t) ==
        if part.Constant() then t - c.Below(part, micros)
        else c.zone.MonthStart(c.month / part.MonthCount() * part.MonthCount())
  {
    hide FieldIndex, FieldCalendar.Below, FieldCalendar.Millis, Truncated, Zone.Local, Zone.MonthStart;
    var t := c.Millis() * MICROS_PER_MSEC + micros;
    if part.Constant() {
      FieldIndexRest(c, part, micros);
      ConstantTruncated(c.zone, part, t, FieldIndex(c, part, micros), c.Below(part, micros));
    } else {
      FieldsOfTime(c, micros);
      MonthsTruncated(c.zone, part, t);
    }
  }

  lemma MonthsTruncated(z: Zone, part: Part, t: int)
    requires Ordered(z.first) && !part.Constant()
    ensures Truncated(z, part, t) ==
      z.MonthStart(MonthOf(z.first, z.DayOf(t)) / part.MonthCount() * part.MonthCount())
  {
    hide Zone.DayOf, Zone.MonthStart;
  }
}
