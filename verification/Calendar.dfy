/** The proleptic Gregorian calendar: dates, weekdays and their order. */
module Calendar {

  predicate IsLeapYear(year: int) {
    if year % 400 == 0 then true
    else if year % 100 == 0 then false
    else year % 4 == 0
  }

  /** The one-bits of 0x15AA: the months (1..12) of 31 days. */
  const LONG_MONTHS: set<int> := {1, 3, 5, 7, 8, 10, 12}

  function DaysInMonth(year: int, mon: int): (d: int)
    ensures 28 <= d <= 31
  {
    if mon == 2 then 28 + (if IsLeapYear(year) then 1 else 0)
    else 30 + (if mon in LONG_MONTHS then 1 else 0)
  }

  /** A date; mon counts from 0 as in struct tm, year is the full year. */
  datatype Date = Date(year: int, mon: int, mday: int)

  predicate ValidDate(d: Date) {
    0 <= d.mon < 12 && 1 <= d.mday <= DaysInMonth(d.year, d.mon + 1)
  }

  /** Chronological order, year first. */
  predicate Earlier(a: Date, b: Date) {
    || a.year < b.year
    || (a.year == b.year && a.mon < b.mon)
    || (a.year == b.year && a.mon == b.mon && a.mday < b.mday)
  }

  function Tomorrow(d: Date): Date {
    if d.mday < DaysInMonth(d.year, d.mon + 1) then Date(d.year, d.mon, d.mday + 1)
    else NextMonth(d)
  }

  /** The first day of the next month. */
  function NextMonth(d: Date): Date {
    if d.mon + 1 == 12 then Date(d.year + 1, 0, 1) else Date(d.year, d.mon + 1, 1)
  }

  lemma TomorrowIsNext(d: Date, x: Date)
    requires ValidDate(d) && ValidDate(x)
    ensures ValidDate(Tomorrow(d)) && Earlier(d, Tomorrow(d))
    ensures Earlier(d, x) <==> !Earlier(x, Tomorrow(d))
  {
  }

  // ---------------------------------------------------------------- counting days

  function DaysBeforeMonth(year: int, mon: nat): nat {
    if mon == 0 then 0 else DaysBeforeMonth(year, mon - 1) + DaysInMonth(year, mon)
  }

  function DaysInYear(year: int): nat {
    365 + (if IsLeapYear(year) then 1 else 0)
  }

  /** The days of the years from 1 on, counted backwards for years before. */
  function DaysBeforeYear(year: int): int
    decreases if year > 1 then year else 1 - year
  {
    if year == 1 then 0
    else if year > 1 then DaysBeforeYear(year - 1) + DaysInYear(year - 1)
    else DaysBeforeYear(year + 1) - DaysInYear(year)
  }

  /** Days since 31 December of the year 0, so that 1 January of the year 1 is day 1. */
  function DayNumber(d: Date): int
    requires 0 <= d.mon
  {
    DaysBeforeYear(d.year) + DaysBeforeMonth(d.year, d.mon) + d.mday
  }

  /** The day of the week, Sunday being 0; 1 January of the year 1 was a Monday. */
  function Weekday(d: Date): (w: int)
    requires 0 <= d.mon
    ensures 0 <= w < 7
  {
    DayNumber(d) % 7
  }

  lemma {:induction false} YearLength(year: int)
    ensures DaysBeforeMonth(year, 12) == DaysInYear(year)
  {
    var f := (m: nat) => DaysBeforeMonth(year, m);
    assert f(0) == 0;
    assert f(1) == 31;
    assert f(2) == f(1) + DaysInMonth(year, 2);
    assert f(3) == f(2) + 31 && f(4) == f(3) + 30 && f(5) == f(4) + 31 && f(6) == f(5) + 30;
    assert f(7) == f(6) + 31 && f(8) == f(7) + 31 && f(9) == f(8) + 30 && f(10) == f(9) + 31;
    assert f(11) == f(10) + 30 && f(12) == f(11) + 31;
  }

  lemma {:induction false} NewYear(year: int)
    ensures DaysBeforeYear(year + 1) == DaysBeforeYear(year) + DaysBeforeMonth(year, 12)
  {
    YearLength(year);
  }

  /** The usual closed form: every fourth year is a leap year but not every hundredth unless
      every four hundredth. */
  lemma {:induction false} YearsInClosedForm(year: nat)
    requires 1 <= year
    ensures DaysBeforeYear(year) == 365 * (year - 1) + (year - 1) / 4 - (year - 1) / 100 + (year - 1) / 400
  {
    if year > 1 {
      YearsInClosedForm(year - 1);
      LeapDays(year - 2);
    }
  }

  lemma {:induction false} LeapDays(y: nat)
    ensures (y + 1) / 4 - (y + 1) / 100 + (y + 1) / 400 - (y / 4 - y / 100 + y / 400)
      == if IsLeapYear(y + 1) then 1 else 0
  {
    Fourth(y);
    Hundredth(y);
    FourHundredth(y);
    Divisors(y + 1);
  }

  lemma {:induction false} Fourth(y: nat)
    ensures (y + 1) / 4 - y / 4 == if (y + 1) % 4 == 0 then 1 else 0
  {
  }

  lemma {:induction false} Hundredth(y: nat)
    ensures (y + 1) / 100 - y / 100 == if (y + 1) % 100 == 0 then 1 else 0
  {
  }

  lemma {:induction false} FourHundredth(y: nat)
    ensures (y + 1) / 400 - y / 400 == if (y + 1) % 400 == 0 then 1 else 0
  {
  }

  lemma {:induction false} Divisors(y: nat)
    ensures (y % 400 == 0 ==> y % 100 == 0) && (y % 100 == 0 ==> y % 4 == 0)
  {
    if y % 400 == 0 {
      assert y == 400 * (y / 400);
      HundredIn400(y / 400);
    }
    if y % 100 == 0 {
      assert y == 100 * (y / 100);
      FourIn100(y / 100);
    }
  }

  lemma {:induction false} HundredIn400(q: int)
    ensures 400 * q % 100 == 0
  {
  }

  lemma {:induction false} FourIn100(q: int)
    ensures 100 * q % 4 == 0
  {
  }

  /** The first of next month comes as many days later as this month has left. */
  lemma {:induction false} NextMonthDays(d: Date)
    requires ValidDate(d)
    ensures ValidDate(NextMonth(d))
    ensures DayNumber(NextMonth(d)) == DayNumber(d) + 1 + (DaysInMonth(d.year, d.mon + 1) - d.mday)
  {
    if d.mon + 1 == 12 {
      NewYear(d.year);
    }
  }

  lemma {:induction false} TomorrowDays(d: Date)
    requires ValidDate(d)
    ensures ValidDate(Tomorrow(d)) && DayNumber(Tomorrow(d)) == DayNumber(d) + 1
  {
    NextMonthDays(d);
  }

  lemma {:induction false} MonthsAdd(year: int, m: nat, n: nat)
    requires m < n
    ensures DaysBeforeMonth(year, m) + DaysInMonth(year, m + 1) <= DaysBeforeMonth(year, n)
  {
    if m + 1 < n {
      MonthsAdd(year, m, n - 1);
    }
  }

  lemma {:induction false} YearsAdd(y: int, z: int)
    requires y < z
    ensures DaysBeforeYear(y) + DaysBeforeMonth(y, 12) <= DaysBeforeYear(z)
    decreases z - y
  {
    NewYear(z - 1);
    if y + 1 < z {
      YearsAdd(y, z - 1);
    }
  }

  /** Chronological order is the order of day numbers. */
  lemma {:induction false} EarlierIffFewerDays(a: Date, b: Date)
    requires ValidDate(a) && ValidDate(b)
    ensures Earlier(a, b) <==> DayNumber(a) < DayNumber(b)
  {
    if Earlier(a, b) {
      EarlierMeansFewerDays(a, b);
    } else if Earlier(b, a) {
      EarlierMeansFewerDays(b, a);
    } else {
      assert a == b;
    }
  }

  lemma {:induction false} EarlierMeansFewerDays(a: Date, b: Date)
    requires ValidDate(a) && ValidDate(b) && Earlier(a, b)
    ensures DayNumber(a) < DayNumber(b)
  {
    if a.mon < 11 {
      MonthsAdd(a.year, a.mon, 12);
    }
    if a.year < b.year {
      YearsAdd(a.year, b.year);
    } else if a.mon < b.mon {
      MonthsAdd(a.year, a.mon, b.mon);
    }
  }
}
