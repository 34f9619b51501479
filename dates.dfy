/** Calendar arithmetic on day numbers, following the proleptic Gregorian
    calendar of Python's `datetime.date`: a date is its ordinal, day 1 being
    Monday 0001-01-01 (`date.toordinal()`).  ISO weeks follow the week-numbering
    calendar of ISO 8601 (section 3.2.2 of ISO 8601:2004): weeks start on Monday
    and week 1 of a year is the week holding that year's first Thursday. */
module Dates {

  /** A calendar date, as its proleptic Gregorian ordinal. */
  type Date = int

  /** `date.weekday()`: Monday is 0, Sunday is 6. */
  function Weekday(d: Date): (w: int)
    ensures 0 <= w < 7
    ensures (d - w + 6) % 7 == 0
  {
    (d + 6) % 7
  }

  lemma {:induction false} WeekdayShift(d: Date, k: int)
    ensures Weekday(d + 7 * k) == Weekday(d)
  {
    assert (d + 7 * k + 6) % 7 == (d + 6) % 7 by {
      var q := (d + 6) / 7;
      assert d + 6 == 7 * q + (d + 6) % 7;
      assert d + 7 * k + 6 == 7 * (q + k) + (d + 6) % 7;
    }
  }

  predicate IsLeap(y: int)
  {
    y % 4 == 0 && (y % 100 != 0 || y % 400 == 0)
  }

  function DaysInYear(y: int): int
  {
    if IsLeap(y) then 366 else 365
  }

  /** Ordinal of 1 January of year `y`, counted from 0001-01-01 one year
      length at a time. */
  function JanFirst(y: int): Date
    decreases if y < 1 then 1 - y else y - 1
  {
    if y == 1 then 1
    else if y > 1 then JanFirst(y - 1) + DaysInYear(y - 1)
    else JanFirst(y + 1) - DaysInYear(y)
  }

  lemma DivStep4(y: int)
    ensures y / 4 - (y - 1) / 4 == if y % 4 == 0 then 1 else 0
  {
  }

  lemma DivStep100(y: int)
    ensures y / 100 - (y - 1) / 100 == if y % 100 == 0 then 1 else 0
  {
  }

  lemma DivStep400(y: int)
    ensures y / 400 - (y - 1) / 400 == if y % 400 == 0 then 1 else 0
  {
  }

  /** Divisibility by 400 implies divisibility by 100, and by 100 implies by 4. */
  lemma Divisors(y: int)
    ensures y % 400 == 0 ==> y % 100 == 0
    ensures y % 100 == 0 ==> y % 4 == 0
  {
    if y % 400 == 0 {
      var k := 4 * (y / 400);
      assert y == 100 * k;
    }
    if y % 100 == 0 {
      var k := 25 * (y / 100);
      assert y == 4 * k;
    }
  }

  /** The closed form `_days_before_year(y) + 1`. */
  function JanFirstFormula(y: int): int
  {
    var a := y - 1;
    365 * a + a / 4 - a / 100 + a / 400 + 1
  }

  lemma FormulaStep(y: int)
    ensures JanFirstFormula(y + 1) - JanFirstFormula(y) == DaysInYear(y)
  {
    DivStep4(y);
    DivStep100(y);
    DivStep400(y);
    Divisors(y);
    assert JanFirstFormula(y + 1) - JanFirstFormula(y)
      == 365 + (y / 4 - (y - 1) / 4) - (y / 100 - (y - 1) / 100) + (y / 400 - (y - 1) / 400);
  }

  lemma {:induction false} JanFirstClosedForm(y: int)
    ensures JanFirst(y) == JanFirstFormula(y)
    decreases if y < 1 then 1 - y else y - 1
  {
    if y > 1 {
      JanFirstClosedForm(y - 1);
      FormulaStep(y - 1);
    } else if y < 1 {
      JanFirstClosedForm(y + 1);
      FormulaStep(y);
    }
  }

  lemma YearLength(y: int)
    ensures JanFirst(y + 1) - JanFirst(y) == DaysInYear(y)
  {
  }

  lemma {:induction false} JanFirstMonotone(a: int, b: int)
    requires a <= b
    ensures JanFirst(a) + 365 * (b - a) <= JanFirst(b)
    decreases b - a
  {
    if a < b {
      JanFirstMonotone(a, b - 1);
      YearLength(b - 1);
    }
  }

  /** The year holding `d`, searching upward from a year that starts on or before it. */
  function YearUp(d: Date, y: int): (r: int)
    requires JanFirst(y) <= d
    ensures JanFirst(r) <= d < JanFirst(r + 1)
    decreases d - JanFirst(y)
  {
    YearLength(y);
    if d < JanFirst(y + 1) then y else YearUp(d, y + 1)
  }

  /** The first guess of the year of `d` starts on or before `d`. */
  lemma GuessNotAfter(d: Date)
    ensures JanFirstFormula((d - 1) * 400 / 146097 + 1) <= d
  {
  }

  /** The calendar year of `d`, searched upward from a first guess that the
      mean Gregorian year of 146097/400 days keeps at or below it. */
  function YearOf(d: Date): (y: int)
    ensures JanFirst(y) <= d < JanFirst(y + 1)
  {
    var guess := (d - 1) * 400 / 146097 + 1;
    JanFirstClosedForm(guess);
    GuessNotAfter(d);
    YearUp(d, guess)
  }

  lemma YearOfUnique(d: Date, y: int)
    requires JanFirst(y) <= d < JanFirst(y + 1)
    ensures YearOf(d) == y
  {
    var r := YearOf(d);
    if r < y {
      JanFirstMonotone(r + 1, y);
    } else if y < r {
      JanFirstMonotone(y + 1, r);
    }
  }

  /** Days of year `y` before the first of month `m` (1..12). */
  function DaysBeforeMonth(y: int, m: int): (n: int)
    requires 1 <= m <= 12
    ensures 0 <= n <= 335
  {
    var base :=
      if m == 1 then 0 else if m == 2 then 31 else if m == 3 then 59
      else if m == 4 then 90 else if m == 5 then 120 else if m == 6 then 151
      else if m == 7 then 181 else if m == 8 then 212 else if m == 9 then 243
      else if m == 10 then 273 else if m == 11 then 304 else 334;
    if m > 2 && IsLeap(y) then base + 1 else base
  }

  function DaysInMonth(y: int, m: int): (n: int)
    requires 1 <= m <= 12
    ensures 28 <= n <= 31
    ensures (if m == 12 then DaysInYear(y) else DaysBeforeMonth(y, m + 1)) == DaysBeforeMonth(y, m) + n
  {
    if m == 2 then (if IsLeap(y) then 29 else 28)
    else if m == 4 || m == 6 || m == 9 || m == 11 then 30
    else 31
  }

  /** `date(y, m, d).toordinal()` for a valid day-of-month. */
  function FromYmd(y: int, m: int, day: int): Date
    requires 1 <= m <= 12
  {
    JanFirst(y) + DaysBeforeMonth(y, m) + day - 1
  }

  /** 28 December is always four days before the next 1 January. */
  lemma DecemberTwentyEighth(y: int)
    ensures FromYmd(y, 12, 28) == JanFirst(y + 1) - 4
  {
    YearLength(y);
    assert DaysInMonth(y, 12) == 31;
  }

  /** A month of the calendar, as `date.replace(day=1)` denotes it. */
  datatype YearMonth = YearMonth(year: int, month: int)

  predicate ValidMonth(ym: YearMonth)
  {
    1 <= ym.month <= 12
  }

  /** Months counted from year 0, so that consecutive months differ by one. */
  function MonthIndex(ym: YearMonth): int
  {
    12 * ym.year + ym.month - 1
  }

  function FirstOfMonth(ym: YearMonth): Date
    requires ValidMonth(ym)
  {
    FromYmd(ym.year, ym.month, 1)
  }

  /** The month of year `y` holding day-of-year `doy`, searching downward from `m`. */
  function MonthFrom(y: int, doy: int, m: int): (r: int)
    requires 1 <= m <= 12 && 0 <= doy
    requires m < 12 ==> doy < DaysBeforeMonth(y, m + 1)
    ensures 1 <= r <= m
    ensures DaysBeforeMonth(y, r) <= doy < DaysBeforeMonth(y, r) + DaysInMonth(y, r) || (r == 12 && doy >= DaysBeforeMonth(y, 12) + 31)
    decreases m
  {
    if DaysBeforeMonth(y, m) <= doy then m else MonthFrom(y, doy, m - 1)
  }

  /** The first day of the month holding `d` (`d.replace(day=1)`). */
  function MonthOf(d: Date): (ym: YearMonth)
    ensures ValidMonth(ym)
    ensures FirstOfMonth(ym) <= d < FirstOfMonth(ym) + DaysInMonth(ym.year, ym.month)
  {
    var y := YearOf(d);
    YearLength(y);
    var m := MonthFrom(y, d - JanFirst(y), 12);
    YearMonth(y, m)
  }

  /** `_isoweek1monday(y)`: the Monday of ISO week 1 of ISO year `y`. */
  function IsoWeek1Monday(y: int): (m: Date)
    ensures Weekday(m) == 0
    ensures JanFirst(y) <= m + 3 < JanFirst(y) + 7
  {
    var first := JanFirst(y);
    var wd := Weekday(first);
    var monday := first - wd;
    WeekdayShift(monday, 0);
    if wd > 3 then
      WeekdayShift(monday, 1);
      monday + 7
    else monday
  }

  /** Two Mondays, each within three days of the 1 January after it, with
      365 or 366 days between those 1 Januaries, are 52 or 53 weeks apart. */
  lemma MondayGap(a: int, b: int, ja: int, jb: int)
    requires (a + 6) % 7 == 0 && (b + 6) % 7 == 0
    requires ja <= a + 3 < ja + 7 && jb <= b + 3 < jb + 7
    requires jb - ja == 365 || jb - ja == 366
    ensures b - a == 364 || b - a == 371
  {
    var qa, qb := (a + 6) / 7, (b + 6) / 7;
    assert b - a == 7 * (qb - qa);
  }

  /** Consecutive ISO years have 52 or 53 weeks. */
  lemma IsoYearLength(y: int)
    ensures IsoWeek1Monday(y + 1) - IsoWeek1Monday(y) == 364
         || IsoWeek1Monday(y + 1) - IsoWeek1Monday(y) == 371
  {
    YearLength(y);
    MondayGap(IsoWeek1Monday(y), IsoWeek1Monday(y + 1), JanFirst(y), JanFirst(y + 1));
  }

  lemma {:induction false} IsoWeek1MondayMonotone(a: int, b: int)
    requires a <= b
    ensures IsoWeek1Monday(a) + 364 * (b - a) <= IsoWeek1Monday(b)
    decreases b - a
  {
    if a < b {
      IsoWeek1MondayMonotone(a, b - 1);
      IsoYearLength(b - 1);
    }
  }

  /** An ISO week: its ISO year and its number within that year. */
  datatype IsoWeek = IsoWeek(year: int, week: int)

  /** `d.isocalendar()[:2]`, computed as Python's `date.isocalendar` does. */
  function IsoCalendar(d: Date): (k: IsoWeek)
    ensures IsoWeek1Monday(k.year) <= d < IsoWeek1Monday(k.year + 1)
    ensures k.week == (d - IsoWeek1Monday(k.year)) / 7 + 1
  {
    var y := YearOf(d);
    var w1 := IsoWeek1Monday(y);
    IsoYearLength(y - 1);
    IsoYearLength(y);
    IsoYearLength(y + 1);
    YearLength(y);
    if d - w1 < 0 then
      IsoWeek(y - 1, (d - IsoWeek1Monday(y - 1)) / 7 + 1)
    else if (d - w1) / 7 >= 52 && d >= IsoWeek1Monday(y + 1) then
      IsoWeek(y + 1, 1)
    else
      IsoWeek(y, (d - w1) / 7 + 1)
  }

  /** At most one ISO year's weeks hold a given date. */
  lemma IsoYearsDisjoint(d: Date, r: int, y: int)
    requires IsoWeek1Monday(r) <= d < IsoWeek1Monday(r + 1)
    requires IsoWeek1Monday(y) <= d < IsoWeek1Monday(y + 1)
    ensures r == y
  {
    if r < y {
      IsoWeek1MondayMonotone(r + 1, y);
    } else if y < r {
      IsoWeek1MondayMonotone(y + 1, r);
    }
  }

  /** The ISO year of a date is the one whose week-1 Monday bounds it. */
  lemma IsoYearUnique(d: Date, y: int)
    requires IsoWeek1Monday(y) <= d < IsoWeek1Monday(y + 1)
    ensures IsoCalendar(d).year == y
  {
    var k := IsoCalendar(d);
    IsoYearsDisjoint(d, k.year, y);
  }

  /** The Monday that starts an ISO week. */
  function IsoMonday(k: IsoWeek): Date
  {
    IsoWeek1Monday(k.year) + 7 * (k.week - 1)
  }

  /** `k` is the ISO week holding `d`: what `IsoCalendar` promises. */
  predicate HoldsDate(k: IsoWeek, d: Date)
  {
    IsoWeek1Monday(k.year) <= d < IsoWeek1Monday(k.year + 1)
    && k.week == (d - IsoWeek1Monday(k.year)) / 7 + 1
  }

  /** Two ISO weeks holding dates and starting on the same Monday are equal. */
  lemma SameMondaySameWeek(k: IsoWeek, d: Date, j: IsoWeek, e: Date)
    requires HoldsDate(k, d) && HoldsDate(j, e) && IsoMonday(k) == IsoMonday(j)
    ensures k == j
  {
    var m := IsoMonday(k);
    assert IsoWeek1Monday(k.year) <= m <= d;
    assert IsoWeek1Monday(j.year) <= m <= e;
    IsoYearsDisjoint(m, k.year, j.year);
  }

  /** The Monday of its ISO week determines the week. */
  lemma IsoMondayInjective(d: Date, e: Date)
    requires IsoMonday(IsoCalendar(d)) == IsoMonday(IsoCalendar(e))
    ensures IsoCalendar(d) == IsoCalendar(e)
  {
    SameMondaySameWeek(IsoCalendar(d), d, IsoCalendar(e), e);
  }

  /** Whole weeks after a Monday `w`: the week of `d` starts `7 * q` days
      later, `d - w - 7 * q` being the weekday of `d`. */
  lemma WeeksAfterMonday(w: int, d: int, q: int)
    requires (w + 6) % 7 == 0 && w <= d && q == (d - w) / 7
    ensures w + 7 * q <= d < w + 7 * q + 7
    ensures w + 7 * q == d - (d + 6) % 7
  {
    var p := (w + 6) / 7;
    assert w + 6 == 7 * p;
    assert d + 6 == 7 * (p + q) + (d - w - 7 * q);
  }

  /** The Monday of an ISO week holding `d` is `d` less its weekday. */
  lemma MondayOfWeek(k: IsoWeek, d: Date)
    requires HoldsDate(k, d)
    ensures IsoMonday(k) <= d < IsoMonday(k) + 7
    ensures IsoMonday(k) == d - Weekday(d)
  {
    WeeksAfterMonday(IsoWeek1Monday(k.year), d, k.week - 1);
  }

  /** A date lies in the six days after the Monday of its ISO week. */
  lemma IsoMondayOfDate(d: Date)
    ensures IsoMonday(IsoCalendar(d)) <= d < IsoMonday(IsoCalendar(d)) + 7
    ensures IsoMonday(IsoCalendar(d)) == d - Weekday(d)
  {
    MondayOfWeek(IsoCalendar(d), d);
  }

  lemma LastWeekNumber(x: int, n: int, t: int)
    requires 1 <= t <= 7 && x == 7 * n - t
    ensures x / 7 + 1 == n
  {
  }

  /** The ISO week holding December 28 of `y` is the last ISO week of `y`. */
  lemma LastIsoWeek(y: int)
    ensures IsoCalendar(FromYmd(y, 12, 28)).year == y
    ensures IsoCalendar(FromYmd(y, 12, 28)).week == (IsoWeek1Monday(y + 1) - IsoWeek1Monday(y)) / 7
  {
    DecemberTwentyEighth(y);
    var d := FromYmd(y, 12, 28);
    var a, b := IsoWeek1Monday(y), IsoWeek1Monday(y + 1);
    YearLength(y);
    IsoYearLength(y);
    assert a <= d < b;
    IsoYearUnique(d, y);
    var n := (b - a) / 7;
    assert b - a == 7 * n;
    LastWeekNumber(d - a, n, b - d);
  }
}
