/** Calendar dates as day ordinals, with the arithmetic of Python's
    `datetime.date`: ordinal 1 is 0001-01-01 in the proleptic Gregorian
    calendar, `date.weekday()` is Monday = 0 .. Sunday = 6, and
    `date.day` is the day of the month. */
module Dates {

  datatype Ymd = Ymd(year: int, month: int, day: int)

  predicate IsLeap(y: int) {
    y % 4 == 0 && (y % 100 != 0 || y % 400 == 0)
  }

  /** `calendar.monthrange(y, m)[1]` */
  function DaysInMonth(y: int, m: int): (n: int)
    requires 1 <= m <= 12
    ensures 28 <= n <= 31
    ensures n == 31 <==> m in {1, 3, 5, 7, 8, 10, 12}
  {
    if m == 2 then (if IsLeap(y) then 29 else 28)
    else if m == 4 || m == 6 || m == 9 || m == 11 then 30
    else 31
  }

  function DaysBeforeMonth(y: int, m: int): (n: int)
    requires 1 <= m <= 12
    ensures 0 <= n <= 335
  {
    var plain := [0, 31, 59, 90, 120, 151, 181, 212, 243, 273, 304, 334][m - 1];
    plain + (if m > 2 && IsLeap(y) then 1 else 0)
  }

  function DaysBeforeYear(y: int): int {
    var p := y - 1;
    p * 365 + p / 4 - p / 100 + p / 400
  }

  /** `date(y, m, d).toordinal()` */
  function Ordinal(y: int, m: int, d: int): int
    requires 1 <= m <= 12
  {
    DaysBeforeYear(y) + DaysBeforeMonth(y, m) + d
  }

  /** `date.weekday()`: Python defines it as `(toordinal() + 6) % 7`. */
  function Weekday(n: int): (w: int)
    ensures 0 <= w < 7
  {
    (n + 6) % 7
  }

  /** Month and day of the `n`-th day (0-based) of a year whose first
      365 days are meant; the last day of a leap year is produced by
      FromOrdinal directly, as in Python. */
  function MonthAndDay(year: int, n: int): (r: Ymd)
    requires 0 <= n < 365
    ensures r.year == year && 1 <= r.month <= 12
    ensures 1 <= r.day <= DaysInMonth(year, r.month)
    ensures n == DaysBeforeMonth(year, r.month) + r.day - 1
  {
    var m :=
      if n < DaysBeforeMonth(year, 2) then 1
      else if n < DaysBeforeMonth(year, 3) then 2
      else if n < DaysBeforeMonth(year, 4) then 3
      else if n < DaysBeforeMonth(year, 5) then 4
      else if n < DaysBeforeMonth(year, 6) then 5
      else if n < DaysBeforeMonth(year, 7) then 6
      else if n < DaysBeforeMonth(year, 8) then 7
      else if n < DaysBeforeMonth(year, 9) then 8
      else if n < DaysBeforeMonth(year, 10) then 9
      else if n < DaysBeforeMonth(year, 11) then 10
      else if n < DaysBeforeMonth(year, 12) then 11
      else 12;
    Ymd(year, m, n - DaysBeforeMonth(year, m) + 1)
  }

  /** `date.fromordinal(n)`, following the 400/100/4/1-year cycle
      decomposition Python's datetime module uses. */
  function FromOrdinal(n: int): (r: Ymd)
    ensures 1 <= r.month <= 12
    ensures 1 <= r.day <= DaysInMonth(r.year, r.month)
  {
    var n0 := n - 1;
    var n400 := n0 / 146097;
    var r400 := n0 % 146097;
    var n100 := r400 / 36524;
    var r100 := r400 % 36524;
    var n4 := r100 / 1461;
    var r4 := r100 % 1461;
    var n1 := r4 / 365;
    var r1 := r4 % 365;
    var year := n400 * 400 + 1 + n100 * 100 + n4 * 4 + n1;
    if n1 == 4 || n100 == 4 then Ymd(year - 1, 12, 31)
    else MonthAndDay(year, r1)
  }

  /** The days before a year counted in whole 400-, 100-, 4- and 1-year
      cycles, as long as no partial cycle is complete. */
  lemma DaysBeforeCycles(q400: int, q100: int, q4: int, q1: int)
    requires 0 <= q100 <= 3 && 0 <= q4 <= 24 && 0 <= q1 <= 3
    ensures DaysBeforeYear(400 * q400 + 100 * q100 + 4 * q4 + q1 + 1) ==
      146097 * q400 + 36524 * q100 + 1461 * q4 + 365 * q1
  {
    var p := 400 * q400 + 100 * q100 + 4 * q4 + q1;
    assert p / 4 == 100 * q400 + 25 * q100 + q4;
    assert p / 100 == 4 * q400 + q100;
    assert p / 400 == q400;
  }

  /** `date.fromordinal(n).toordinal() == n`: the date built from an
      ordinal is the date with that ordinal. */
  lemma OrdinalRoundTrip(n: int)
    requires n >= 1
    ensures var r := FromOrdinal(n); Ordinal(r.year, r.month, r.day) == n
  {
    var n0 := n - 1;
    var n400, r400 := n0 / 146097, n0 % 146097;
    var n100, r100 := r400 / 36524, r400 % 36524;
    var n4, r4 := r100 / 1461, r100 % 1461;
    var n1, r1 := r4 / 365, r4 % 365;
    if n100 == 4 {
      RoundTripLastDayOf400Years(n, n400);
    } else if n1 == 4 {
      RoundTripLastDayOf4Years(n, n400, n100, n4);
    } else {
      RoundTripWithinYear(n, n400, n100, n4, n1, r1);
    }
  }

  /** The last day of a 400-year cycle is December 31 of a leap year
      divisible by 400. */
  lemma RoundTripLastDayOf400Years(n: int, q400: int)
    requires q400 >= 0 && n - 1 == 146097 * q400 + 146096
    ensures var r := FromOrdinal(n); Ordinal(r.year, r.month, r.day) == n
  {
    assert (n - 1) / 146097 == q400 && (n - 1) % 146097 == 146096;
    var y := 400 * q400 + 400;
    assert FromOrdinal(n) == Ymd(y, 12, 31);
    DaysBeforeCycles(q400, 3, 24, 3);
    assert IsLeap(y);
  }

  /** The last day of a 4-year cycle is December 31 of a leap year not
      divisible by 100. */
  lemma RoundTripLastDayOf4Years(n: int, q400: int, q100: int, q4: int)
    requires q400 >= 0 && 0 <= q100 <= 3 && 0 <= q4 <= 23
    requires n - 1 == 146097 * q400 + 36524 * q100 + 1461 * q4 + 1460
    ensures var r := FromOrdinal(n); Ordinal(r.year, r.month, r.day) == n
  {
    var r400 := 36524 * q100 + 1461 * q4 + 1460;
    assert (n - 1) / 146097 == q400 && (n - 1) % 146097 == r400;
    assert r400 / 36524 == q100 && r400 % 36524 == 1461 * q4 + 1460;
    assert (1461 * q4 + 1460) / 1461 == q4 && (1461 * q4 + 1460) % 1461 == 1460;
    var y := 400 * q400 + 100 * q100 + 4 * q4 + 4;
    assert FromOrdinal(n) == Ymd(y, 12, 31);
    DaysBeforeCycles(q400, q100, q4, 3);
    LeapEndsFourYears(q400, q100, q4);
  }

  /** The fourth year of a 4-year cycle other than the last of a century
      is a leap year. */
  lemma LeapEndsFourYears(q400: int, q100: int, q4: int)
    requires 0 <= q100 <= 3 && 0 <= q4 <= 23
    ensures IsLeap(400 * q400 + 100 * q100 + 4 * q4 + 4)
  {
    RemainderOfFours(100 * q400 + 25 * q100 + q4 + 1);
    RemainderOfHundreds(4 * q400 + q100, 4 * q4 + 4);
  }

  lemma RemainderOfHundreds(k: int, r: int)
    requires 0 <= r < 100
    ensures (100 * k + r) % 100 == r
  {
  }

  lemma RemainderOfFours(k: int)
    ensures (4 * k) % 4 == 0
  {
  }

  /** Any other day is found by its month and day within the year. */
  lemma RoundTripWithinYear(n: int, q400: int, q100: int, q4: int, q1: int, r1: int)
    requires q400 >= 0 && 0 <= q100 <= 3 && 0 <= q4 <= 24 && 0 <= q1 <= 3 && 0 <= r1 < 365
    requires n - 1 == 146097 * q400 + 36524 * q100 + 1461 * q4 + 365 * q1 + r1
    ensures var r := FromOrdinal(n); Ordinal(r.year, r.month, r.day) == n
  {
    var r4 := 365 * q1 + r1;
    var r100 := 1461 * q4 + r4;
    var r400 := 36524 * q100 + r100;
    assert (n - 1) / 146097 == q400 && (n - 1) % 146097 == r400;
    assert r400 / 36524 == q100 && r400 % 36524 == r100;
    assert r100 / 1461 == q4 && r100 % 1461 == r4;
    assert r4 / 365 == q1 && r4 % 365 == r1;
    var y := 400 * q400 + 100 * q100 + 4 * q4 + q1 + 1;
    assert FromOrdinal(n) == MonthAndDay(y, r1);
    DaysBeforeCycles(q400, q100, q4, q1);
  }

  /** `date.day`: the day of the month of the date whose ordinal is `n`. */
  function DayOfMonth(n: int): (d: int)
    ensures 1 <= d <= 31
  {
    FromOrdinal(n).day
  }

  /** The day of the month of ordinal `n` is the day of a real date, in
      some year and month, whose ordinal is `n`. */
  lemma DayOfMonthOfDate(n: int)
    requires n >= 1
    ensures exists y, m :: (1 <= m <= 12 && 1 <= DayOfMonth(n) <= DaysInMonth(y, m) &&
      Ordinal(y, m, DayOfMonth(n)) == n)
  {
    var r := FromOrdinal(n);
    OrdinalRoundTrip(n);
    assert 1 <= r.month <= 12 && 1 <= r.day <= DaysInMonth(r.year, r.month) &&
      Ordinal(r.year, r.month, r.day) == n;
  }
}
