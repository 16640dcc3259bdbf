/** Proleptic Gregorian calendar dates as the page's JavaScript `Date`
    objects see them once only the day matters: a date is a day number
    counted from 1970-01-01, the epoch of `Date`; `setDate(getDate() + n)`
    moves the day number by `n`, `getFullYear()` finds the year holding it,
    `getDay()` is its weekday, and `toISOString().split('T')[0]` and the
    date-only string form `YYYY-MM-DD` convert it to and from text. */
module Calendar {
  import opened Options
  import opened Text

  datatype Date = Date(year: int, month: int, day: int)

  predicate IsLeap(y: int) {
    y % 4 == 0 && (y % 100 != 0 || y % 400 == 0)
  }

  function DaysInMonth(y: int, m: int): (n: int)
    requires 1 <= m <= 12
    ensures 28 <= n <= 31
    ensures n == 29 <==> m == 2 && IsLeap(y)
  {
    if m == 2 then (if IsLeap(y) then 29 else 28)
    else if m == 4 || m == 6 || m == 9 || m == 11 then 30
    else 31
  }

  predicate Valid(dt: Date) {
    1 <= dt.month <= 12 && 1 <= dt.day <= DaysInMonth(dt.year, dt.month)
  }

  /** The day number of January 1 of year `y`. */
  function DaysBeforeYear(y: int): int {
    365 * (y - 1970) + ((y - 1) / 4 - 492) - ((y - 1) / 100 - 19) + ((y - 1) / 400 - 4)
  }

  /** A year is 366 days long when it is a leap year and 365 days otherwise. */
  lemma YearLength(y: int)
    ensures DaysBeforeYear(y + 1) - DaysBeforeYear(y) == if IsLeap(y) then 366 else 365
  {
    assert y / 4 - (y - 1) / 4 == if y % 4 == 0 then 1 else 0;
    assert y / 100 - (y - 1) / 100 == if y % 100 == 0 then 1 else 0;
    assert y / 400 - (y - 1) / 400 == if y % 400 == 0 then 1 else 0;
  }

  /** Later years start later. */
  lemma {:induction false} YearsAscend(y: int, z: int)
    requires y < z
    ensures DaysBeforeYear(y) + 365 * (z - y) <= DaysBeforeYear(z)
    decreases z - y
  {
    YearLength(y);
    if y + 1 < z {
      YearsAscend(y + 1, z);
    }
  }

  /** The days of year `y` before the first of month `m` (13 stands for the
      end of the year). */
  function DaysBeforeMonth(y: int, m: int): (n: int)
    requires 1 <= m <= 13
    ensures 0 <= n && (m > 1 ==> 28 * (m - 1) <= n)
  {
    if m == 1 then 0 else DaysBeforeMonth(y, m - 1) + DaysInMonth(y, m - 1)
  }

  /** The twelve months make up the year. */
  lemma MonthsFillYear(y: int)
    ensures DaysBeforeMonth(y, 13) == DaysBeforeYear(y + 1) - DaysBeforeYear(y)
  {
    YearLength(y);
    var f := DaysInMonth(y, 2);
    assert DaysBeforeMonth(y, 2) == 31;
    assert DaysBeforeMonth(y, 3) == 31 + f;
    assert DaysBeforeMonth(y, 4) == 62 + f;
    assert DaysBeforeMonth(y, 5) == 92 + f;
    assert DaysBeforeMonth(y, 6) == 123 + f;
    assert DaysBeforeMonth(y, 7) == 153 + f;
    assert DaysBeforeMonth(y, 8) == 184 + f;
    assert DaysBeforeMonth(y, 9) == 215 + f;
    assert DaysBeforeMonth(y, 10) == 245 + f;
    assert DaysBeforeMonth(y, 11) == 276 + f;
    assert DaysBeforeMonth(y, 12) == 306 + f;
  }

  /** Days since 1970-01-01. */
  function DayNumber(dt: Date): (n: int)
    requires Valid(dt)
    ensures DaysBeforeYear(dt.year) <= n < DaysBeforeYear(dt.year + 1)
  {
    MonthsFillYear(dt.year);
    MonthsAscend(dt.year, dt.month + 1, 13);
    DaysBeforeYear(dt.year) + DaysBeforeMonth(dt.year, dt.month) + dt.day - 1
  }

  lemma {:induction false} MonthsAscend(y: int, m: int, k: int)
    requires 1 <= m <= k <= 13
    ensures DaysBeforeMonth(y, m) <= DaysBeforeMonth(y, k)
    decreases k - m
  {
    if m < k {
      MonthsAscend(y, m, k - 1);
    }
  }

  /** The year holding day number `n`, found by stepping forward from a
      year `y` that starts no later than `n`. */
  function YearAfter(n: int, y: int): (r: int)
    requires DaysBeforeYear(y) <= n
    ensures DaysBeforeYear(r) <= n < DaysBeforeYear(r + 1)
    decreases n - DaysBeforeYear(y)
  {
    YearLength(y);
    if n < DaysBeforeYear(y + 1) then y else YearAfter(n, y + 1)
  }

  /** The year holding day number `n`, found by stepping back from a year
      `y` that ends after `n`. */
  function YearBefore(n: int, y: int): (r: int)
    requires n < DaysBeforeYear(y + 1)
    ensures DaysBeforeYear(r) <= n < DaysBeforeYear(r + 1)
    decreases DaysBeforeYear(y + 1) - n
  {
    YearLength(y);
    if DaysBeforeYear(y) <= n then y else YearBefore(n, y - 1)
  }

  /** `getFullYear()`: the year holding day number `n`. */
  function YearOf(n: int): (y: int)
    ensures DaysBeforeYear(y) <= n < DaysBeforeYear(y + 1)
  {
    if n < 0 then YearBefore(n, 1969) else YearAfter(n, 1970)
  }

  /** Each day number lies in exactly one year. */
  lemma YearUnique(n: int, y: int, z: int)
    requires DaysBeforeYear(y) <= n < DaysBeforeYear(y + 1)
    requires DaysBeforeYear(z) <= n < DaysBeforeYear(z + 1)
    ensures y == z
  {
    if y < z {
      YearsAscend(y + 1, z + 1);
    } else if z < y {
      YearsAscend(z + 1, y + 1);
    }
  }

  /** The month of year `y` holding its day `k` (counted from 0), searched from month `m`. */
  function MonthFrom(y: int, k: int, m: int): (r: int)
    requires 1 <= m <= 12 && DaysBeforeMonth(y, m) <= k < DaysBeforeMonth(y, 13)
    ensures m <= r <= 12 && DaysBeforeMonth(y, r) <= k < DaysBeforeMonth(y, r + 1)
    decreases 12 - m
  {
    if k < DaysBeforeMonth(y, m + 1) then m else MonthFrom(y, k, m + 1)
  }

  /** The date of the day numbered `n`. */
  function FromDayNumber(n: int): (dt: Date)
    ensures Valid(dt) && DayNumber(dt) == n && dt.year == YearOf(n)
  {
    var y := YearOf(n);
    var k := n - DaysBeforeYear(y);
    MonthsFillYear(y);
    var m := MonthFrom(y, k, 1);
    Date(y, m, k - DaysBeforeMonth(y, m) + 1)
  }

  /** Day numbers name dates one to one: the date of a date's day number is that date. */
  lemma FromDayNumberOfDayNumber(dt: Date)
    requires Valid(dt)
    ensures FromDayNumber(DayNumber(dt)) == dt
  {
    var n := DayNumber(dt);
    var r := FromDayNumber(n);
    YearUnique(n, r.year, dt.year);
    MonthUnique(dt.year, n - DaysBeforeYear(dt.year), r.month, dt.month);
  }

  /** Each day of a year lies in exactly one month. */
  lemma MonthUnique(y: int, k: int, m: int, m': int)
    requires 1 <= m <= 12 && DaysBeforeMonth(y, m) <= k < DaysBeforeMonth(y, m + 1)
    requires 1 <= m' <= 12 && DaysBeforeMonth(y, m') <= k < DaysBeforeMonth(y, m' + 1)
    ensures m == m'
  {
    if m < m' {
      MonthsAscend(y, m + 1, m');
    } else if m' < m {
      MonthsAscend(y, m' + 1, m);
    }
  }

  /** The day number of the date a clock `utcMinute` minutes after
      1970-01-01T00:00Z shows in a zone `offset` minutes ahead of UTC; an
      offset of 0 gives the UTC date that `toISOString` writes. */
  function LocalDay(utcMinute: int, offset: int): int {
    (utcMinute + offset) / 1440
  }

  /** A zone less than a day away from UTC shows the UTC date or a
      neighbouring one; a zone ahead of UTC shows the UTC date or the next. */
  lemma ZoneDayNear(utcMinute: int, offset: int)
    requires -1440 < offset < 1440
    ensures LocalDay(utcMinute, offset) - 1 <= LocalDay(utcMinute, 0) <= LocalDay(utcMinute, offset) + 1
    ensures 0 <= offset ==> LocalDay(utcMinute, 0) <= LocalDay(utcMinute, offset)
  {
  }

  /** The day before a year begins is December 31 of the year before. */
  lemma LastDayOfYear(y: int, n: int)
    requires n == DaysBeforeYear(y + 1) - 1
    ensures FromDayNumber(n) == Date(y, 12, 31)
  {
    MonthsFillYear(y);
    assert DaysBeforeMonth(y, 13) == DaysBeforeMonth(y, 12) + 31;
    assert Valid(Date(y, 12, 31));
    FromDayNumberOfDayNumber(Date(y, 12, 31));
  }

  /** A day next to a day of 2026 lies in 2025, 2026 or 2027, and the one
      in 2025 is December 31. */
  lemma NextTo2026(n: int, m: int)
    requires YearOf(n) == 2026 && n - 1 <= m <= n + 1
    ensures 2025 <= YearOf(m) <= 2027
    ensures YearOf(m) == 2025 ==> FromDayNumber(m) == Date(2025, 12, 31)
  {
    YearLength(2025);
    YearLength(2026);
    if m < DaysBeforeYear(2026) {
      YearUnique(m, YearOf(m), 2025);
      LastDayOfYear(2025, m);
    } else if m < DaysBeforeYear(2027) {
      YearUnique(m, YearOf(m), 2026);
    } else {
      YearLength(2027);
      YearUnique(m, YearOf(m), 2027);
    }
  }

  /** `getDay()`: 0 for Sunday up to 6 for Saturday; 1970-01-01 was a Thursday. */
  function Weekday(n: int): (w: int)
    ensures 0 <= w < 7
  {
    (n + 4) % 7
  }

  /** Weekdays repeat every seven days, and the next day has the next weekday. */
  lemma WeekdayStep(n: int)
    ensures Weekday(n + 7) == Weekday(n)
    ensures Weekday(n + 1) == (Weekday(n) + 1) % 7
  {
  }

  /** `toISOString().split('T')[0]` for a year written with four digits:
      the year, month and day in decimal, padded with zeros. */
  function FormatIso(dt: Date): (s: string)
    requires Valid(dt) && 0 <= dt.year <= 9999
    ensures |s| == 10 && s[4] == '-' && s[7] == '-'
  {
    var y, m, d := dt.year, dt.month, dt.day;
    [DigitChar(y / 10 / 10 / 10), DigitChar(y / 10 / 10 % 10), DigitChar(y / 10 % 10), DigitChar(y % 10), '-',
     DigitChar(m / 10), DigitChar(m % 10), '-', DigitChar(d / 10), DigitChar(d % 10)]
  }

  /** The shape `dddd-dd-dd`: ten characters, dashes at 4 and 7, digits elsewhere. */
  predicate IsoShape(s: string) {
    && |s| == 10 && s[4] == '-' && s[7] == '-'
    && IsDigit(s[0]) && IsDigit(s[1]) && IsDigit(s[2]) && IsDigit(s[3])
    && IsDigit(s[5]) && IsDigit(s[6]) && IsDigit(s[8]) && IsDigit(s[9])
  }

  /** The date-only form `YYYY-MM-DD` of a JavaScript date string: the date
      its digits spell; a string of another shape, or one naming no real
      day, gives an invalid `Date`, None. */
  function ParseIso(s: string): (r: Option<Date>)
    ensures r.Some? ==> Valid(r.value) && 0 <= r.value.year <= 9999
  {
    if IsoShape(s) then
      var dt := Date(1000 * DigitValue(s[0]) + 100 * DigitValue(s[1]) + 10 * DigitValue(s[2]) + DigitValue(s[3]),
                     10 * DigitValue(s[5]) + DigitValue(s[6]),
                     10 * DigitValue(s[8]) + DigitValue(s[9]));
      if Valid(dt) then Some(dt) else None
    else None
  }

  /** Reading back a formatted date gives the date. */
  lemma ParseFormatIso(dt: Date)
    requires Valid(dt) && 0 <= dt.year <= 9999
    ensures ParseIso(FormatIso(dt)) == Some(dt)
  {
    var s := FormatIso(dt);
    var y := dt.year;
    assert 1000 * DigitValue(s[0]) + 100 * DigitValue(s[1]) + 10 * DigitValue(s[2]) + DigitValue(s[3]) == y;
    assert 10 * DigitValue(s[5]) + DigitValue(s[6]) == dt.month;
    assert 10 * DigitValue(s[8]) + DigitValue(s[9]) == dt.day;
  }

  /** Splitting off the last decimal digit. */
  lemma DivMod10(x: int, q: int, r: int)
    requires 0 <= r < 10 && x == 10 * q + r
    ensures x / 10 == q && x % 10 == r
  {
  }

  /** Formatting a date read from a string gives the string back. */
  lemma FormatParseIso(s: string)
    requires ParseIso(s).Some?
    ensures FormatIso(ParseIso(s).value) == s
  {
    var d := seq(10, i requires 0 <= i < 10 => if i == 4 || i == 7 then 0 else DigitValue(s[i]));
    var dt := ParseIso(s).value;
    var y := dt.year;
    DivMod10(y, 100 * d[0] + 10 * d[1] + d[2], d[3]);
    DivMod10(y / 10, 10 * d[0] + d[1], d[2]);
    DivMod10(y / 10 / 10, d[0], d[1]);
    DivMod10(dt.month, d[5], d[6]);
    DivMod10(dt.day, d[8], d[9]);
    var t := FormatIso(dt);
    forall i | 0 <= i < 10
      ensures t[i] == s[i]
    {
      if i != 4 && i != 7 {
        assert IsDigit(s[i]);
        assert DigitChar(DigitValue(s[i])) == s[i];
      }
    }
  }
}
