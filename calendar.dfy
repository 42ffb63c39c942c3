/**
 * The proleptic Gregorian calendar as Python's `datetime` implements it: which
 * year/month/day/hour/minute/second combinations exist (`valid_datetime` in
 * reminder.py), and the conversion between a date-time and a count of seconds
 * that `datetime + timedelta` performs.
 */
module Calendar {

  /** The six fields of a date-time, as `parse_time` keeps them in a dict. */
  datatype DateTime = DateTime(year: int, month: int, day: int, hour: int, minute: int, second: int)

  const MinYear := 1
  const MaxYear := 9999
  const SecondsPerDay := 86400
  /** Ordinal of 9999-12-31, counting 0001-01-01 as day 1. */
  const MaxOrdinal := 3652059
  /** Seconds from 0001-01-01 00:00:00 to 9999-12-31 23:59:59. */
  const MaxSeconds := MaxOrdinal * SecondsPerDay - 1

  predicate IsLeapYear(y: int) {
    y % 4 == 0 && (y % 100 != 0 || y % 400 == 0)
  }

  function DaysInYear(y: int): int {
    if IsLeapYear(y) then 366 else 365
  }

  function DaysInMonth(y: int, m: int): int
    requires 1 <= m <= 12
  {
    if m == 2 then (if IsLeapYear(y) then 29 else 28)
    else if m == 4 || m == 6 || m == 9 || m == 11 then 30
    else 31
  }

  /** The range of a C `int`, to which `datetime.datetime(...)` converts each field first. */
  const CIntMin := -0x8000_0000
  const CIntMax := 0x7fff_ffff

  predicate FitsCInt(t: DateTime) {
    && CIntMin <= t.year <= CIntMax && CIntMin <= t.month <= CIntMax && CIntMin <= t.day <= CIntMax
    && CIntMin <= t.hour <= CIntMax && CIntMin <= t.minute <= CIntMax && CIntMin <= t.second <= CIntMax
  }

  /** What `datetime.datetime(year, month, day, hour, minute, second)` accepts. */
  predicate ValidDateTime(t: DateTime) {
    && MinYear <= t.year <= MaxYear
    && 1 <= t.month <= 12
    && 1 <= t.day <= DaysInMonth(t.year, t.month)
    && 0 <= t.hour < 24
    && 0 <= t.minute < 60
    && 0 <= t.second < 60
  }

  /** Chronological order read field by field, year first. */
  predicate Before(a: DateTime, b: DateTime) {
    || a.year < b.year
    || (a.year == b.year && a.month < b.month)
    || (a.year == b.year && a.month == b.month && a.day < b.day)
    || (a.year == b.year && a.month == b.month && a.day == b.day && a.hour < b.hour)
    || (a.year == b.year && a.month == b.month && a.day == b.day && a.hour == b.hour && a.minute < b.minute)
    || (a.year == b.year && a.month == b.month && a.day == b.day && a.hour == b.hour && a.minute == b.minute
        && a.second < b.second)
  }

  /** Days in the years 1 .. y-1 (closed form of Python's `_days_before_year`). */
  function DaysBeforeYear(y: int): int
    requires y >= 1
  {
    var k := y - 1;
    k * 365 + k / 4 - k / 100 + k / 400
  }

  const MonthStarts: seq<int> := [0, 31, 59, 90, 120, 151, 181, 212, 243, 273, 304, 334]

  /** Days in the months 1 .. m-1 of year y. */
  function DaysBeforeMonth(y: int, m: int): int
    requires 1 <= m <= 12
  {
    MonthStarts[m - 1] + (if m > 2 && IsLeapYear(y) then 1 else 0)
  }

  /** Day number of a date, 0001-01-01 being day 1. */
  function Ordinal(t: DateTime): int
    requires ValidDateTime(t)
  {
    DaysBeforeYear(t.year) + DaysBeforeMonth(t.year, t.month) + t.day
  }

  /**
   * Seconds elapsed since 0001-01-01 00:00:00. Every valid date-time lies between the
   * start of year 1 and the end of year 9999.
   */
  function ToSeconds(t: DateTime): (r: int)
    requires ValidDateTime(t)
    ensures 0 <= r <= MaxSeconds
  {
    OrdinalInRange(t);
    (Ordinal(t) - 1) * SecondsPerDay + t.hour * 3600 + t.minute * 60 + t.second
  }

  lemma DaysBeforeYearStep(y: int)
    requires y >= 1
    ensures DaysBeforeYear(y + 1) == DaysBeforeYear(y) + DaysInYear(y)
  {
    var k := y - 1;
    DivStep(k, 4);
    DivStep(k, 100);
    DivStep(k, 400);
    MultipleOfMultiple(y, 100, 4);
    MultipleOfMultiple(y, 400, 100);
  }

  /** A multiple of a multiple of d is a multiple of d. */
  lemma MultipleOfMultiple(y: int, big: int, d: int)
    requires d > 0 && big > 0 && big % d == 0
    ensures y % big == 0 ==> y % d == 0
  {
    if y % big == 0 {
      var q, c := y / big, big / d;
      DivMod(q, 0, big);
      DivMod(c, 0, d);
      assert y == q * big;
      assert big == c * d;
      assert y == (q * c) * d;
      DivMod(q * c, 0, d);
    }
  }

  /** Euclidean division recovers quotient and remainder. */
  lemma DivMod(q: int, r: int, p: int)
    requires p > 0 && 0 <= r < p
    ensures (q * p + r) / p == q && (q * p + r) % p == r
  {
    var n := q * p + r;
    var d := q - n / p;
    assert d * p == n % p - r;
    SmallMultiple(d, p);
  }

  lemma SmallMultiple(d: int, p: int)
    requires p > 0 && -p < d * p < p
    ensures d == 0
  {
    MultipleSign(d, p);
  }

  lemma MultipleSign(d: int, p: int)
    requires p > 0
    ensures d >= 1 ==> d * p >= p
    ensures d <= -1 ==> d * p <= -p
  {
    if d >= 1 {
      assert d * p == p + (d - 1) * p;
    } else if d <= -1 {
      assert d * p == -p + (d + 1) * p;
    }
  }

  /** Counting one further: the quotient goes up by one exactly at a multiple of d. */
  lemma DivStep(k: int, d: int)
    requires k >= 0 && d > 0
    ensures (k + 1) / d == k / d + (if (k + 1) % d == 0 then 1 else 0)
  {
    var q, r := k / d, k % d;
    DivMod(q, r, d);
    if r == d - 1 {
      DivMod(q + 1, 0, d);
      assert k + 1 == (q + 1) * d + 0;
    } else {
      DivMod(q, r + 1, d);
      assert k + 1 == q * d + (r + 1);
    }
  }

  lemma {:induction false} DaysBeforeYearMonotone(y1: int, y2: int)
    requires 1 <= y1 <= y2
    ensures DaysBeforeYear(y1) + 365 * (y2 - y1) <= DaysBeforeYear(y2)
    decreases y2 - y1
  {
    if y1 < y2 {
      DaysBeforeYearStep(y1);
      DaysBeforeYearMonotone(y1 + 1, y2);
    }
  }

  lemma DaysBeforeMonthStep(y: int, m: int)
    requires 1 <= m < 12
    ensures DaysBeforeMonth(y, m + 1) == DaysBeforeMonth(y, m) + DaysInMonth(y, m)
  {
  }

  lemma DaysBeforeMonthLast(y: int)
    ensures DaysBeforeMonth(y, 12) + DaysInMonth(y, 12) == DaysInYear(y)
  {
  }

  lemma {:induction false} DaysBeforeMonthMonotone(y: int, m1: int, m2: int)
    requires 1 <= m1 < m2 <= 12
    ensures DaysBeforeMonth(y, m1) + DaysInMonth(y, m1) <= DaysBeforeMonth(y, m2)
    decreases m2 - m1
  {
    DaysBeforeMonthStep(y, m1);
    if m1 + 1 < m2 {
      DaysBeforeMonthMonotone(y, m1 + 1, m2);
    }
  }

  lemma DaysBeforeMonthBound(y: int, m: int)
    requires 1 <= m <= 12
    ensures 0 <= DaysBeforeMonth(y, m)
    ensures DaysBeforeMonth(y, m) + DaysInMonth(y, m) <= DaysInYear(y)
  {
    DaysBeforeMonthLast(y);
    if m < 12 {
      DaysBeforeMonthMonotone(y, m, 12);
    }
  }

  /**
   * The year holding day n of the span of days that starts at 1 January of year y,
   * with the day's number within that year.
   */
  function YearOf(y: int, n: int): (r: (int, int))
    requires y >= 1 && n >= 1
    ensures r.0 >= y && 1 <= r.1 <= DaysInYear(r.0)
    ensures YearsSpan(y, r.0) + r.1 == n
    decreases n
  {
    if n <= DaysInYear(y) then (y, n)
    else YearOf(y + 1, n - DaysInYear(y))
  }

  /** Counted from year 1, the year and day that `YearOf` finds make up the day number. */
  lemma YearOfOrdinal(n: int)
    requires n >= 1
    ensures DaysBeforeYear(YearOf(1, n).0) + YearOf(1, n).1 == n
  {
    SpanIsDaysBefore(1, YearOf(1, n).0);
  }

  /**
   * The month holding day n of the span of days of year y that starts at 1 January
   * of month m, with the day's number within that month.
   */
  function MonthOf(y: int, m: int, n: int): (r: (int, int))
    requires 1 <= m <= 12 && 1 <= n <= DaysInYear(y) - DaysBeforeMonth(y, m)
    ensures m <= r.0 <= 12 && 1 <= r.1 <= DaysInMonth(y, r.0)
    ensures DaysBeforeMonth(y, r.0) - DaysBeforeMonth(y, m) + r.1 == n
    decreases 12 - m
  {
    if n <= DaysInMonth(y, m) then (m, n)
    else
      DaysBeforeMonthLast(y);
      DaysBeforeMonthStep(y, m);
      MonthOf(y, m + 1, n - DaysInMonth(y, m))
  }

  /**
   * The date-time that lies n seconds after 0001-01-01 00:00:00. Up to the end of year
   * 9999 it is a valid date-time, and it lies exactly n seconds after the start.
   */
  function FromSeconds(n: int): (t: DateTime)
    requires n >= 0
    ensures n <= MaxSeconds ==> ValidDateTime(t) && ToSeconds(t) == n
  {
    var days, rest := n / SecondsPerDay, n % SecondsPerDay;
    var yd := YearOf(1, days + 1);
    var md := MonthOf(yd.0, 1, yd.1);
    var t := DateTime(yd.0, md.0, md.1, rest / 3600, rest % 3600 / 60, rest % 60);
    assert n <= MaxSeconds ==> ValidDateTime(t) && ToSeconds(t) == n by {
      if n <= MaxSeconds {
        SecondsParts(n, days, rest, t);
      }
    }
    t
  }

  lemma SecondsParts(n: int, days: int, rest: int, t: DateTime)
    requires 0 <= n <= MaxSeconds && days == n / SecondsPerDay && rest == n % SecondsPerDay
    requires var yd := YearOf(1, days + 1);
      var md := MonthOf(yd.0, 1, yd.1);
      t == DateTime(yd.0, md.0, md.1, rest / 3600, rest % 3600 / 60, rest % 60)
    ensures ValidDateTime(t) && ToSeconds(t) == n
  {
    DateParts(days);
    ClockParts(rest);
    assert Ordinal(t) == days + 1;
    assert n == days * SecondsPerDay + rest;
    assert ToSeconds(t) == days * SecondsPerDay + (t.hour * 3600 + t.minute * 60 + t.second);
  }

  lemma YearOfUnique(y0: int, y: int, k: int)
    requires 1 <= y0 <= y && 1 <= k <= DaysInYear(y)
    ensures DaysBeforeYear(y) - DaysBeforeYear(y0) + k >= 1
    ensures YearOf(y0, DaysBeforeYear(y) - DaysBeforeYear(y0) + k) == (y, k)
  {
    SpanIsDaysBefore(y0, y);
    YearOfSpan(y0, y, k);
  }

  /** The days of the years y0 .. y-1, counted one year at a time. */
  function YearsSpan(y0: int, y: int): (r: int)
    requires y0 <= y
    ensures r >= 365 * (y - y0)
    decreases y - y0
  {
    if y0 == y then 0 else DaysInYear(y0) + YearsSpan(y0 + 1, y)
  }

  lemma {:induction false} SpanIsDaysBefore(y0: int, y: int)
    requires 1 <= y0 <= y
    ensures YearsSpan(y0, y) == DaysBeforeYear(y) - DaysBeforeYear(y0)
    decreases y - y0
  {
    if y0 < y {
      DaysBeforeYearStep(y0);
      SpanIsDaysBefore(y0 + 1, y);
    }
  }

  lemma {:induction false} YearOfSpan(y0: int, y: int, k: int)
    requires 1 <= y0 <= y && 1 <= k <= DaysInYear(y)
    ensures YearOf(y0, YearsSpan(y0, y) + k) == (y, k)
    decreases y - y0
  {
    var n := YearsSpan(y0, y) + k;
    if y0 < y {
      var n' := YearsSpan(y0 + 1, y) + k;
      YearOfSpan(y0 + 1, y, k);
      YearOfStep(y0, n, n');
      assert YearOf(y0, n) == (y, k);
    } else {
      assert n == k;
      YearOfWithin(y, k);
      assert YearOf(y0, n) == (y, k);
    }
  }

  lemma YearOfWithin(y: int, k: int)
    requires y >= 1 && 1 <= k <= DaysInYear(y)
    ensures DaysBeforeYear(y) - DaysBeforeYear(y) + k == k && YearOf(y, k) == (y, k)
  {
  }

  lemma YearOfStep(y0: int, n: int, n': int)
    requires y0 >= 1 && n' >= 1 && n == n' + DaysInYear(y0)
    ensures YearOf(y0, n) == YearOf(y0 + 1, n')
  {
  }

  lemma {:induction false} MonthOfUnique(y: int, m0: int, m: int, d: int)
    requires 1 <= m0 <= m <= 12 && 1 <= d <= DaysInMonth(y, m)
    ensures 1 <= DaysBeforeMonth(y, m) - DaysBeforeMonth(y, m0) + d <= DaysInYear(y) - DaysBeforeMonth(y, m0)
    ensures MonthOf(y, m0, DaysBeforeMonth(y, m) - DaysBeforeMonth(y, m0) + d) == (m, d)
    decreases m - m0
  {
    DaysBeforeMonthBound(y, m);
    if m0 < m {
      DaysBeforeMonthMonotone(y, m0, m);
      DaysBeforeMonthStep(y, m0);
      MonthOfUnique(y, m0 + 1, m, d);
    }
  }

  lemma YearOfBounded(n: int)
    requires 1 <= n <= MaxOrdinal
    ensures YearOf(1, n).0 <= MaxYear
  {
    var y := YearOf(1, n).0;
    YearOfOrdinal(n);
    assert DaysBeforeYear(MaxYear + 1) == MaxOrdinal;
    if y > MaxYear {
      DaysBeforeYearMonotone(MaxYear + 1, y);
    }
  }

  /** Seconds and date-time convert back: every valid date-time is reproduced. */
  lemma FromToSeconds(t: DateTime)
    requires ValidDateTime(t)
    ensures ToSeconds(t) >= 0 && FromSeconds(ToSeconds(t)) == t
  {
    var n := ToSeconds(t);
    var doy := DaysBeforeMonth(t.year, t.month) + t.day;
    DayOfSeconds(t, n);
    ClockOfSeconds(t, n);
    FromSecondsParts(n, t.year, doy, t.month, t.day, t.hour, t.minute, t.second);
  }

  /** The day part of a date-time's second count names its year, month and day. */
  lemma DayOfSeconds(t: DateTime, n: int)
    requires ValidDateTime(t) && n == ToSeconds(t)
    ensures var doy := DaysBeforeMonth(t.year, t.month) + t.day;
      && n >= 0 && YearOf(1, n / SecondsPerDay + 1) == (t.year, doy)
      && 1 <= doy <= DaysInYear(t.year) && MonthOf(t.year, 1, doy) == (t.month, t.day)
  {
    SplitDays(t);
    DateOfOrdinal(t);
  }

  /** The second-of-day part of a date-time's second count names its hour, minute and second. */
  lemma ClockOfSeconds(t: DateTime, n: int)
    requires ValidDateTime(t) && n == ToSeconds(t)
    ensures n >= 0 && n % SecondsPerDay / 3600 == t.hour && n % SecondsPerDay % 3600 / 60 == t.minute
    ensures n % SecondsPerDay % 60 == t.second
  {
    var tod := t.hour * 3600 + t.minute * 60 + t.second;
    SplitDays(t);
    TimeOfDay(t.hour, t.minute, t.second);
    assert n % SecondsPerDay == tod;
  }

  /** The whole days and the second of the day that a date-time lies at. */
  lemma SplitDays(t: DateTime)
    requires ValidDateTime(t)
    ensures var n, tod := ToSeconds(t), t.hour * 3600 + t.minute * 60 + t.second;
      n >= 0 && n / SecondsPerDay + 1 == Ordinal(t) && n % SecondsPerDay == tod
  {
    DaysBeforeMonthBound(t.year, t.month);
    DivMod(Ordinal(t) - 1, t.hour * 3600 + t.minute * 60 + t.second, SecondsPerDay);
  }

  /** The day number of a date-time names its year, then its month and day. */
  lemma DateOfOrdinal(t: DateTime)
    requires ValidDateTime(t)
    ensures var doy := DaysBeforeMonth(t.year, t.month) + t.day;
      && 1 <= doy <= DaysInYear(t.year) && YearOf(1, Ordinal(t)) == (t.year, doy)
      && MonthOf(t.year, 1, doy) == (t.month, t.day)
  {
    var y, doy := t.year, DaysBeforeMonth(t.year, t.month) + t.day;
    DaysBeforeMonthBound(y, t.month);
    assert DaysBeforeYear(1) == 0 && DaysBeforeMonth(y, 1) == 0;
    assert Ordinal(t) == DaysBeforeYear(y) - DaysBeforeYear(1) + doy;
    YearOfUnique(1, y, doy);
    MonthOfUnique(y, 1, t.month, t.day);
  }

  lemma FromSecondsParts(n: int, y: int, doy: int, m: int, d: int, h: int, mi: int, sec: int)
    requires n >= 0 && YearOf(1, n / SecondsPerDay + 1) == (y, doy) && MonthOf(y, 1, doy) == (m, d)
    requires n % SecondsPerDay / 3600 == h && n % SecondsPerDay % 3600 / 60 == mi
    requires n % SecondsPerDay % 60 == sec
    ensures FromSeconds(n) == DateTime(y, m, d, h, mi, sec)
  {
  }

  lemma TimeOfDay(h: int, m: int, s: int)
    requires 0 <= h < 24 && 0 <= m < 60 && 0 <= s < 60
    ensures var tod := h * 3600 + m * 60 + s;
      tod / 3600 == h && tod % 3600 / 60 == m && tod % 60 == s
  {
  }

  /** The date that day number `days + 1` falls on is a real date, and has that number. */
  lemma DateParts(days: int)
    requires 0 <= days < MaxOrdinal
    ensures var yd := YearOf(1, days + 1);
      var md := MonthOf(yd.0, 1, yd.1);
      && 1 <= yd.0 <= MaxYear && 1 <= md.0 <= 12 && 1 <= md.1 <= DaysInMonth(yd.0, md.0)
      && DaysBeforeYear(yd.0) + DaysBeforeMonth(yd.0, md.0) + md.1 == days + 1
  {
    YearOfBounded(days + 1);
    YearOfOrdinal(days + 1);
    assert DaysBeforeMonth(YearOf(1, days + 1).0, 1) == 0;
  }

  /** A second of the day splits into hour, minute and second, and is rebuilt from them. */
  lemma ClockParts(rest: int)
    requires 0 <= rest < SecondsPerDay
    ensures 0 <= rest / 3600 < 24 && 0 <= rest % 3600 / 60 < 60 && 0 <= rest % 60 < 60
    ensures (rest / 3600) * 3600 + (rest % 3600 / 60) * 60 + rest % 60 == rest
  {
  }

  /** The day number of a valid date lies between that of 0001-01-01 and that of 9999-12-31. */
  lemma OrdinalInRange(t: DateTime)
    requires ValidDateTime(t)
    ensures 1 <= Ordinal(t) <= MaxOrdinal
  {
    DaysBeforeMonthBound(t.year, t.month);
    DaysBeforeYearStep(t.year);
    DaysBeforeYearMonotone(t.year + 1, MaxYear + 1);
    assert DaysBeforeYear(MaxYear + 1) == MaxOrdinal;
  }

  /**
   * The valid date-times are exactly the instants between 0001-01-01 00:00:00 and
   * 9999-12-31 23:59:59, one per second.
   */
  lemma ValidIffInstant(t: DateTime)
    ensures ValidDateTime(t) <==> exists n :: 0 <= n <= MaxSeconds && FromSeconds(n) == t
  {
    if ValidDateTime(t) {
      FromToSeconds(t);
      assert FromSeconds(ToSeconds(t)) == t;
    }
  }

  /** The date-times the test suite accepts and rejects. */
  lemma ValidDateTimeTestCases()
    ensures ValidDateTime(DateTime(2015, 10, 12, 15, 22, 30))
    ensures ValidDateTime(DateTime(2015, 10, 12, 15, 22, 59))
    ensures ValidDateTime(DateTime(2015, 10, 12, 0, 0, 0))
    ensures ValidDateTime(DateTime(2015, 10, 12, 23, 0, 0))
    ensures !ValidDateTime(DateTime(2015, 10, 12, 24, 0, 0))
    ensures !ValidDateTime(DateTime(2015, 10, 12, 23, 60, 0))
    ensures !ValidDateTime(DateTime(2015, 10, 32, 4, 0, 0))
    ensures !ValidDateTime(DateTime(2015, 10, -3, 4, 0, 0))
    ensures !ValidDateTime(DateTime(2015, 2, 29, 4, 0, 0))
  {
  }

  /** Field-by-field order is the order of the seconds count. */
  lemma BeforeIsEarlier(a: DateTime, b: DateTime)
    requires ValidDateTime(a) && ValidDateTime(b) && Before(a, b)
    ensures ToSeconds(a) < ToSeconds(b)
  {
    DaysBeforeMonthBound(a.year, a.month);
    DaysBeforeMonthBound(b.year, b.month);
    if a.year < b.year {
      DaysBeforeYearStep(a.year);
      DaysBeforeYearMonotone(a.year + 1, b.year);
      assert Ordinal(a) < Ordinal(b);
    } else if a.year == b.year && a.month < b.month {
      DaysBeforeMonthMonotone(a.year, a.month, b.month);
      assert Ordinal(a) < Ordinal(b);
    }
  }

  /** Chronological order of valid date-times is exactly field-by-field order. */
  lemma ChronologicalOrder(a: DateTime, b: DateTime)
    requires ValidDateTime(a) && ValidDateTime(b)
    ensures Before(a, b) <==> ToSeconds(a) < ToSeconds(b)
    ensures a == b <==> ToSeconds(a) == ToSeconds(b)
  {
    if Before(a, b) {
      BeforeIsEarlier(a, b);
    } else if Before(b, a) {
      BeforeIsEarlier(b, a);
    } else {
      assert a == b;
    }
  }
}
