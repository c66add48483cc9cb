/**
 * Proleptic Gregorian calendar arithmetic shared by the sharing codec, the
 * calendar export and the display helpers. A day is numbered by its offset
 * from 1 January 2024 (the sharing codec's base date), and a wall-clock
 * instant by its minute offset from midnight of that day. JavaScript's
 * `Date` arithmetic, with its normalisation of out-of-range fields, is
 * expressed on top of these numbers.
 */
module Civil {

  /** The year whose 1 January is day 0. */
  const BaseYear: int := 2024
  const MinutesPerDay: int := 1440

  datatype Date = Date(year: int, month: int, day: int)

  /** A wall-clock reading: a date plus hour and minute. */
  datatype DateTime = DateTime(date: Date, hour: int, minute: int)

  predicate IsLeapYear(y: int) {
    y % 4 == 0 && (y % 100 != 0 || y % 400 == 0)
  }

  function YearLength(y: int): int {
    if IsLeapYear(y) then 366 else 365
  }

  function MonthLength(y: int, m: int): int
    requires 1 <= m <= 12
  {
    if m == 2 then (if IsLeapYear(y) then 29 else 28)
    else if m == 4 || m == 6 || m == 9 || m == 11 then 30
    else 31
  }

  predicate ValidDate(d: Date) {
    1 <= d.month <= 12 && 1 <= d.day <= MonthLength(d.year, d.month)
  }

  predicate ValidDateTime(t: DateTime) {
    ValidDate(t.date) && 0 <= t.hour < 24 && 0 <= t.minute < 60
  }

  /** Days from 1 January of BaseYear to 1 January of y. */
  function YearStart(y: int): int
    decreases if y >= BaseYear then y - BaseYear else BaseYear - y
  {
    if y == BaseYear then 0
    else if y > BaseYear then YearStart(y - 1) + YearLength(y - 1)
    else YearStart(y + 1) - YearLength(y)
  }

  /** Days from 1 January of y to the first day of month m (m == 13: the next year). */
  function MonthStart(y: int, m: int): int
    requires 1 <= m <= 13
  {
    var leap := if m > 2 && IsLeapYear(y) then 1 else 0;
    leap +
    (if m == 1 then 0 else if m == 2 then 31 else if m == 3 then 59
     else if m == 4 then 90 else if m == 5 then 120 else if m == 6 then 151
     else if m == 7 then 181 else if m == 8 then 212 else if m == 9 then 243
     else if m == 10 then 273 else if m == 11 then 304 else if m == 12 then 334
     else 365)
  }

  /** The day number of a date: days since 1 January of BaseYear. */
  function DayNumber(d: Date): int
    requires 1 <= d.month <= 12
  {
    YearStart(d.year) + MonthStart(d.year, d.month) + d.day - 1
  }

  lemma YearStartStep(y: int)
    ensures YearStart(y + 1) == YearStart(y) + YearLength(y)
  {
  }

  lemma {:induction false} YearStartMonotone(a: int, b: int)
    requires a < b
    ensures YearStart(a + 1) <= YearStart(b)
    decreases b - a
  {
    if a + 1 < b {
      YearStartMonotone(a + 1, b);
      YearStartStep(a + 1);
    }
  }

  lemma MonthStartStep(y: int, m: int)
    requires 1 <= m <= 12
    ensures MonthStart(y, m + 1) == MonthStart(y, m) + MonthLength(y, m)
  {
  }

  lemma {:induction false} MonthStartMonotone(y: int, a: int, b: int)
    requires 1 <= a < b <= 13
    ensures MonthStart(y, a + 1) <= MonthStart(y, b)
    decreases b - a
  {
    if a + 1 < b {
      MonthStartMonotone(y, a + 1, b);
      MonthStartStep(y, a + 1);
    }
  }

  /**
   * Locates the day r days after 1 January of y: its year and its index
   * within that year.
   */
  function FindYear(y: int, r: int): (p: (int, int))
    ensures 0 <= p.1 < YearLength(p.0)
    ensures YearStart(p.0) + p.1 == YearStart(y) + r
    decreases (if r < 0 then 1 else 0), (if r < 0 then -r else r)
  {
    if r < 0 then
      YearStartStep(y - 1);
      FindYear(y - 1, r + YearLength(y - 1))
    else if r < YearLength(y) then
      (y, r)
    else
      YearStartStep(y);
      FindYear(y + 1, r - YearLength(y))
  }

  /** Locates the day r days after the first of month m of year y: its month and day. */
  function FindMonth(y: int, m: int, r: int): (p: (int, int))
    requires 1 <= m <= 12 && 0 <= r && MonthStart(y, m) + r < YearLength(y)
    ensures m <= p.0 <= 12 && 1 <= p.1 <= MonthLength(y, p.0)
    ensures MonthStart(y, p.0) + p.1 - 1 == MonthStart(y, m) + r
    decreases 12 - m
  {
    MonthStartStep(y, m);
    if r < MonthLength(y, m) then (m, r + 1)
    else FindMonth(y, m + 1, r - MonthLength(y, m))
  }

  /** The date of day number n. */
  function DateOfDay(n: int): (d: Date)
    ensures ValidDate(d) && DayNumber(d) == n
  {
    var p := FindYear(BaseYear, n);
    var q := FindMonth(p.0, 1, p.1);
    Date(p.0, q.0, q.1)
  }

  /** A valid date lies within its own year and month. */
  lemma DayNumberBounds(d: Date)
    requires ValidDate(d)
    ensures YearStart(d.year) <= DayNumber(d) < YearStart(d.year + 1)
    ensures MonthStart(d.year, d.month) <= DayNumber(d) - YearStart(d.year) < MonthStart(d.year, d.month + 1)
  {
    YearStartStep(d.year);
    MonthStartStep(d.year, d.month);
    if d.month < 12 {
      MonthStartMonotone(d.year, d.month, 13);
    }
  }

  /** Different valid dates have different day numbers. */
  lemma DayNumberInjective(a: Date, b: Date)
    requires ValidDate(a) && ValidDate(b) && DayNumber(a) == DayNumber(b)
    ensures a == b
  {
    DayNumberBounds(a);
    DayNumberBounds(b);
    if a.year < b.year {
      YearStartMonotone(a.year, b.year);
    } else if b.year < a.year {
      YearStartMonotone(b.year, a.year);
    }
    assert a.year == b.year;
    if a.month < b.month {
      MonthStartMonotone(a.year, a.month, b.month);
    } else if b.month < a.month {
      MonthStartMonotone(a.year, b.month, a.month);
    }
  }

  /** Day numbers and valid dates are in one-to-one correspondence. */
  lemma DateOfDayNumber(d: Date)
    requires ValidDate(d)
    ensures DateOfDay(DayNumber(d)) == d
  {
    DayNumberInjective(DateOfDay(DayNumber(d)), d);
  }

  /** The calendar day after d. */
  function NextDay(d: Date): Date
    requires ValidDate(d)
  {
    if d.day < MonthLength(d.year, d.month) then Date(d.year, d.month, d.day + 1)
    else if d.month < 12 then Date(d.year, d.month + 1, 1)
    else Date(d.year + 1, 1, 1)
  }

  /** Consecutive calendar days have consecutive day numbers. */
  lemma NextDayNumber(d: Date)
    requires ValidDate(d)
    ensures ValidDate(NextDay(d)) && DayNumber(NextDay(d)) == DayNumber(d) + 1
  {
    MonthStartStep(d.year, d.month);
    YearStartStep(d.year);
  }

  lemma {:induction false} YearStartBeforeBase(y: int)
    requires y < BaseYear
    ensures YearStart(y + 1) <= 0
    decreases BaseYear - y
  {
    if y + 1 < BaseYear {
      YearStartStep(y + 1);
      YearStartBeforeBase(y + 1);
    }
  }

  /** Non-negative day numbers belong to BaseYear or later years. */
  lemma DateOfDayFromBase(n: int)
    requires n >= 0
    ensures DateOfDay(n).year >= BaseYear
  {
    var d := DateOfDay(n);
    DayNumberBounds(d);
    if d.year < BaseYear {
      YearStartBeforeBase(d.year);
    }
  }

  /** The minute offset of a wall-clock reading from midnight, 1 January of BaseYear. */
  function Minutes(t: DateTime): int
    requires 1 <= t.date.month <= 12
  {
    DayNumber(t.date) * MinutesPerDay + t.hour * 60 + t.minute
  }

  /** The wall-clock reading at minute offset n. */
  function DateTimeOfMinutes(n: int): (t: DateTime)
    ensures ValidDateTime(t) && Minutes(t) == n
  {
    var day := n / MinutesPerDay;
    var rest := n % MinutesPerDay;
    DateTime(DateOfDay(day), rest / 60, rest % 60)
  }

  /** Minute offsets and valid wall-clock readings are in one-to-one correspondence. */
  lemma DateTimeOfMinutesInverse(t: DateTime)
    requires ValidDateTime(t)
    ensures DateTimeOfMinutes(Minutes(t)) == t
  {
    var n := Minutes(t);
    var u := DateTimeOfMinutes(n);
    var rest := t.hour * 60 + t.minute;
    assert 0 <= rest < MinutesPerDay;
    assert n / MinutesPerDay == DayNumber(t.date) && n % MinutesPerDay == rest by {
      assert n == DayNumber(t.date) * MinutesPerDay + rest;
    }
    DateOfDayNumber(t.date);
    assert rest / 60 == t.hour && rest % 60 == t.minute;
  }

  /**
   * JavaScript's MakeDay (ECMA-262 section 21.4.1.28): the day number of
   * the given year, zero-based month and day, where months outside 0..11
   * carry into the year and days outside the month carry into the
   * following or preceding months.
   */
  function MakeDay(year: int, month0: int, day: int): int {
    var y := year + month0 / 12;
    var m := month0 % 12;
    DayNumber(Date(y, m + 1, 1)) + day - 1
  }

  /**
   * The year adjustment that `Date.UTC` and the multi-argument `Date`
   * constructor apply: a year from 0 to 99 means 1900 plus that year.
   */
  function FullYear(year: int): int {
    if 0 <= year <= 99 then 1900 + year else year
  }

  /** On a valid date (month one-based) MakeDay is the plain day number. */
  lemma MakeDayOfValidDate(d: Date)
    requires ValidDate(d)
    ensures MakeDay(d.year, d.month - 1, d.day) == DayNumber(d)
  {
  }

  /**
   * The wall-clock minute offset that `new Date(y, m - 1, d, h, min)`
   * denotes, all fields normalised as JavaScript does.
   */
  function MakeMinutes(year: int, month: int, day: int, hour: int, minute: int): int {
    MakeDay(FullYear(year), month - 1, day) * MinutesPerDay + hour * 60 + minute
  }

  /** On a valid reading from year 100 on, MakeMinutes is the plain minute offset. */
  lemma MakeMinutesOfValid(t: DateTime)
    requires ValidDateTime(t) && !(0 <= t.date.year <= 99)
    ensures MakeMinutes(t.date.year, t.date.month, t.date.day, t.hour, t.minute) == Minutes(t)
  {
    MakeDayOfValidDate(t.date);
  }
}
