/**
 * The parts of .NET's System.DateTime and System.DateTimeOffset that the
 * availability engine relies on.  A DateTime is a count of 100-nanosecond
 * ticks since 0001-01-01T00:00:00 on the proleptic Gregorian calendar; its
 * calendar fields are recovered from the day number with .NET's own
 * 400/100/4/1-year cycle decomposition.
 */
module DateTimes {

  import opened Wrappers

  const TicksPerMillisecond: int := 10_000
  const TicksPerSecond: int := 10_000_000
  const TicksPerMinute: int := 600_000_000
  const TicksPerHour: int := 36_000_000_000
  const TicksPerDay: int := 864_000_000_000

  const DaysPer400Years: int := 146097
  const DaysPer100Years: int := 36524
  const DaysPer4Years: int := 1461
  const DaysPerYear: int := 365
  /** Days from 0001-01-01 to 10000-01-01: one past the last representable day. */
  const DaysTo10000: int := 3652059
  /** DateTime.MaxValue.Ticks */
  const MaxTicks: int := DaysTo10000 * TicksPerDay - 1

  /** System.DayOfWeek numbering */
  const Sunday: int := 0
  const Monday: int := 1

  predicate IsLeapYear(year: int) {
    year % 4 == 0 && (year % 100 != 0 || year % 400 == 0)
  }

  function DaysInYear(year: int): int {
    if IsLeapYear(year) then 366 else 365
  }

  function DaysInMonth(year: int, month: int): int
    requires 1 <= month <= 12
  {
    if month == 2 then (if IsLeapYear(year) then 29 else 28)
    else if month == 4 || month == 6 || month == 9 || month == 11 then 30
    else 31
  }

  /** Days of the year that precede the first of `month`; month 13 stands for the next year. */
  function DaysBeforeMonth(year: int, month: int): int
    requires 1 <= month <= 13
  {
    var common :=
      match month
      case 1 => 0 case 2 => 31 case 3 => 59 case 4 => 90 case 5 => 120
      case 6 => 151 case 7 => 181 case 8 => 212 case 9 => 243 case 10 => 273
      case 11 => 304 case 12 => 334 case 13 => 365;
    if month > 2 && IsLeapYear(year) then common + 1 else common
  }

  /** Days from 0001-01-01 to the first of January of `year`. */
  function DaysBeforeYear(year: int): int
    requires year >= 1
  {
    var y := year - 1;
    y * 365 + y / 4 - y / 100 + y / 400
  }

  datatype Date = Date(year: int, month: int, day: int)

  predicate ValidDate(d: Date) {
    1 <= d.year <= 9999 && 1 <= d.month <= 12 && 1 <= d.day <= DaysInMonth(d.year, d.month)
  }

  /** Days since 0001-01-01 (which is day 0). */
  function DayNumber(d: Date): int
    requires ValidDate(d)
  {
    DaysBeforeYear(d.year) + DaysBeforeMonth(d.year, d.month) + d.day - 1
  }

  lemma MonthLengths(year: int, month: int)
    requires 1 <= month <= 12
    ensures DaysBeforeMonth(year, month + 1) - DaysBeforeMonth(year, month) == DaysInMonth(year, month)
    ensures DaysBeforeMonth(year, 1) == 0 && DaysBeforeMonth(year, 13) == DaysInYear(year)
  {
  }

  /** The month whose days contain day `dayOfYear` (0-based) of `year`, searched from December down. */
  function MonthOf(year: int, dayOfYear: int, month: int): (m: int)
    requires 1 <= month <= 12
    requires 0 <= dayOfYear < DaysBeforeMonth(year, month + 1)
    ensures 1 <= m <= month
    ensures DaysBeforeMonth(year, m) <= dayOfYear < DaysBeforeMonth(year, m + 1)
    decreases month
  {
    if DaysBeforeMonth(year, month) <= dayOfYear || month == 1 then month
    else MonthOf(year, dayOfYear, month - 1)
  }

  /**
   * The count of days before a year written as 400*a + 100*b + 4*c + e + 1,
   * and when that year is a leap year, in terms of its cycle digits.
   */
  lemma YearCycles(a: int, b: int, c: int, e: int)
    requires 0 <= a && 0 <= b <= 3 && 0 <= c <= 24 && 0 <= e <= 3
    ensures DaysBeforeYear(400 * a + 100 * b + 4 * c + e + 1)
            == DaysPer400Years * a + DaysPer100Years * b + DaysPer4Years * c + DaysPerYear * e
    ensures IsLeapYear(400 * a + 100 * b + 4 * c + e + 1) <==> e == 3 && (c != 24 || b == 3)
  {
    var y := 400 * a + 100 * b + 4 * c + e;
    assert y == 4 * (100 * a + 25 * b + c) + e;
    assert y / 4 == 100 * a + 25 * b + c;
    assert y == 100 * (4 * a + b) + (4 * c + e);
    assert y / 100 == 4 * a + b;
    assert y == 400 * a + (100 * b + 4 * c + e);
    assert y / 400 == a;
    var year := y + 1;
    assert year % 4 == 0 <==> e == 3 by {
      assert year == 4 * (100 * a + 25 * b + c) + (e + 1);
    }
    assert year % 100 == 0 <==> c == 24 && e == 3 by {
      assert year == 100 * (4 * a + b) + (4 * c + e + 1);
    }
    assert year % 400 == 0 <==> b == 3 && c == 24 && e == 3 by {
      assert year == 400 * a + (100 * b + 4 * c + e + 1);
    }
  }

  lemma MulLe(a: int, b: int, d: int)
    requires a <= b && d >= 0
    ensures a * d <= b * d
  {
  }

  /** Quotient and remainder are determined by any decomposition with a remainder in range. */
  lemma DivModUnique(x: int, d: int, q: int, r: int)
    requires d > 0 && x == q * d + r && 0 <= r < d
    ensures x / d == q && x % d == r
  {
    var q', r' := x / d, x % d;
    assert x == q' * d + r';
    if q > q' {
      MulLe(q' + 1, q, d);
      assert false;
    } else if q < q' {
      MulLe(q + 1, q', d);
      assert false;
    }
  }

  /** Dividing by `m` and then by `k` is dividing by `m * k`, and what is left says how many `m` remain. */
  lemma DivDiv(x: int, m: int, k: int)
    requires x >= 0 && m > 0 && k > 0
    ensures x / (m * k) == x / m / k
    ensures x % (m * k) / m == x / m % k
  {
    var q, r := x / m, x % m;
    var rest := q % k * m + r;
    MulLe(q % k, k - 1, m);
    assert x == q / k * (m * k) + rest;
    DivModUnique(x, m * k, q / k, rest);
    DivModUnique(rest, m, q % k, r);
  }

  /** Year and 0-based day of year of day number `n`, as .NET's GetDatePart splits it. */
  function YearAndDayOf(n: int): (r: (int, int))
    requires 0 <= n < DaysTo10000
    ensures 1 <= r.0 <= 9999
    ensures 0 <= r.1 < DaysInYear(r.0)
    ensures DaysBeforeYear(r.0) + r.1 == n
  {
    var a := n / DaysPer400Years;
    var r1 := n % DaysPer400Years;
    var b := if r1 / DaysPer100Years == 4 then 3 else r1 / DaysPer100Years;
    var r2 := r1 - b * DaysPer100Years;
    var c := r2 / DaysPer4Years;
    var r3 := r2 % DaysPer4Years;
    var e := if r3 / DaysPerYear == 4 then 3 else r3 / DaysPerYear;
    var dayOfYear := r3 - e * DaysPerYear;
    var year := 400 * a + 100 * b + 4 * c + e + 1;
    assert 0 <= a <= 24 && 0 <= b <= 3 && 0 <= c <= 24 && 0 <= e <= 3;
    YearCycles(a, b, c, e);
    assert year <= 9999 by {
      if a == 24 {
        assert r1 <= 145730;
        if b == 3 {
          assert r2 <= 36158;
          if c == 24 {
            assert r3 <= 1094;
          }
        }
      }
    }
    assert dayOfYear < DaysInYear(year) by {
      if dayOfYear == 365 {
        assert e == 3;
        if c == 24 {
          assert r2 >= 24 * DaysPer4Years + 3 * DaysPerYear + 365;
          assert b == 3;
        }
      }
    }
    (year, dayOfYear)
  }

  /** The calendar date of day number `n`, exactly inverting DayNumber. */
  function DateOf(n: int): (d: Date)
    requires 0 <= n < DaysTo10000
    ensures ValidDate(d)
    ensures DayNumber(d) == n
  {
    var (year, dayOfYear) := YearAndDayOf(n);
    MonthLengths(year, 12);
    var month := MonthOf(year, dayOfYear, 12);
    MonthLengths(year, month);
    Date(year, month, dayOfYear - DaysBeforeMonth(year, month) + 1)
  }

  /** DateOf picks the month whose days hold the day of the year, and numbers the day from 1 within it. */
  lemma DateOfInMonth(n: int, year: int, dayOfYear: int, month: int)
    requires 0 <= n < DaysTo10000
    requires YearAndDayOf(n) == (year, dayOfYear)
    requires 1 <= month <= 12 && DaysBeforeMonth(year, month) <= dayOfYear < DaysBeforeMonth(year, month + 1)
    ensures DateOf(n) == Date(year, month, dayOfYear - DaysBeforeMonth(year, month) + 1)
  {
    MonthLengths(year, 12);
  }

  /** The calendar and clock fields that make up a DateTime. */
  datatype ClockFields = ClockFields(year: int, month: int, day: int,
                                     hour: int, minute: int, second: int, millisecond: int)

  predicate ValidTicks(ticks: int) {
    0 <= ticks <= MaxTicks
  }

  /** The fields of a DateTime, computed as the .NET Year, Month, Day, Hour, Minute, Second and Millisecond properties do. */
  function FieldsOf(ticks: int): (f: ClockFields)
    requires ValidTicks(ticks)
    ensures 1 <= f.year <= 9999 && 1 <= f.month <= 12 && 1 <= f.day <= DaysInMonth(f.year, f.month)
    ensures 0 <= f.hour < 24 && 0 <= f.minute < 60 && 0 <= f.second < 60 && 0 <= f.millisecond < 1000
  {
    var d := DateOf(ticks / TicksPerDay);
    ClockFields(d.year, d.month, d.day,
                ticks / TicksPerHour % 24, ticks / TicksPerMinute % 60,
                ticks / TicksPerSecond % 60, ticks / TicksPerMillisecond % 1000)
  }

  /** The fields of a clock add back up to its ticks, less the ticks below one millisecond. */
  lemma FieldsRecompose(ticks: int)
    requires ValidTicks(ticks)
    ensures var f := FieldsOf(ticks);
      DayNumber(Date(f.year, f.month, f.day)) * TicksPerDay + f.hour * TicksPerHour
      + f.minute * TicksPerMinute + f.second * TicksPerSecond + f.millisecond * TicksPerMillisecond
      == ticks - ticks % TicksPerMillisecond
  {
    assert TicksPerSecond == TicksPerMillisecond * 1000 && TicksPerMinute == TicksPerSecond * 60;
    assert TicksPerHour == TicksPerMinute * 60 && TicksPerDay == TicksPerHour * 24;
    DivDiv(ticks, TicksPerMillisecond, 1000);
    DivDiv(ticks, TicksPerSecond, 60);
    DivDiv(ticks, TicksPerMinute, 60);
    DivDiv(ticks, TicksPerHour, 24);
    var ms, s, m, h := ticks / TicksPerMillisecond, ticks / TicksPerSecond, ticks / TicksPerMinute, ticks / TicksPerHour;
    assert ms == s * 1000 + ms % 1000;
    assert s == m * 60 + s % 60;
    assert m == h * 60 + m % 60;
    assert h == ticks / TicksPerDay * 24 + h % 24;
  }

  /** DateTime.DayOfWeek: 0001-01-01 was a Monday, and Sunday is 0. */
  function DayOfWeek(ticks: int): (w: int)
    requires ticks >= 0
    ensures 0 <= w < 7
  {
    (ticks / TicksPerDay + 1) % 7
  }

  /** DateTime.AddDays: None where .NET throws because the result is out of range. */
  function AddDays(ticks: int, days: int): Option<int> {
    var t := ticks + days * TicksPerDay;
    if ValidTicks(t) then Some(t) else None
  }

  /** The ticks of midnight at the start of a calendar date. */
  function MidnightOf(d: Date): (t: int)
    requires ValidDate(d)
    ensures ValidTicks(t) && t % TicksPerDay == 0
  {
    DayNumber(d) * TicksPerDay
  }

  /**
   * A DateTimeOffset: the wall-clock time it shows and its offset from UTC in
   * minutes.  .NET compares two of them by the instant, UtcTicks.
   */
  datatype DateTimeOffset = DateTimeOffset(clockTicks: int, offsetMinutes: int)

  function UtcTicks(v: DateTimeOffset): int {
    v.clockTicks - v.offsetMinutes * TicksPerMinute
  }

  /** What the DateTimeOffset constructors accept: both clocks in range and an offset within 14 hours. */
  predicate ValidDateTimeOffset(v: DateTimeOffset) {
    ValidTicks(v.clockTicks) && -840 <= v.offsetMinutes <= 840 && ValidTicks(UtcTicks(v))
  }
}
