/** When a cron entry fires next.  A bit mask is represented by the set of positions of its
    one-bits; the result is the broken-down local time before mktime turns it into a time_t. */
module Cron {
  import opened Wrappers
  import opened Calendar

  /** Masks over minutes 0-59, hours 0-23, days 1-31 (as bits 0-30), months 0-11 and
      weekdays 0-6. */
  datatype Cron = Cron(min: set<int>, hour: set<int>, mday: set<int>, mon: set<int>, wday: set<int>)

  ghost predicate Mask(s: set<int>, bits: nat) {
    (exists k :: k in s) && (forall k :: k in s ==> 0 <= k < bits)
  }

  ghost predicate WellFormed(c: Cron) {
    Mask(c.min, 60) && Mask(c.hour, 24) && Mask(c.mday, 31) && Mask(c.mon, 12) && Mask(c.wday, 7)
  }

  /** Broken-down time without seconds; year counts from 1900. */
  datatype Tm = Tm(min: int, hour: int, mday: int, mon: int, year: int, wday: int)

  function DateOf(t: Tm): Date {
    Date(t.year + 1900, t.mon, t.mday)
  }

  ghost predicate ValidTm(t: Tm) {
    0 <= t.min < 60 && 0 <= t.hour < 24 && ValidDate(DateOf(t)) && t.wday == Weekday(DateOf(t))
  }

  predicate DateMatches(c: Cron, d: Date, wday: int) {
    d.mday - 1 in c.mday && wday in c.wday && d.mon in c.mon
  }

  predicate Matches(c: Cron, t: Tm) {
    t.min in c.min && t.hour in c.hour && DateMatches(c, DateOf(t), t.wday)
  }

  /** a is a strictly earlier minute than b. */
  predicate Before(a: Tm, b: Tm) {
    || Earlier(DateOf(a), DateOf(b))
    || (DateOf(a) == DateOf(b) && (a.hour < b.hour || (a.hour == b.hour && a.min < b.min)))
  }

  /** Minutes on a common scale, to relate Before to elapsed time. */
  function Minutes(t: Tm): int
    requires 0 <= t.mon
  {
    DayNumber(DateOf(t)) * 1440 + t.hour * 60 + t.min
  }

  lemma {:induction false} BeforeIffFewerMinutes(a: Tm, b: Tm)
    requires ValidTm(a) && ValidTm(b)
    ensures Before(a, b) <==> Minutes(a) < Minutes(b)
  {
    EarlierIffFewerDays(DateOf(a), DateOf(b));
    EarlierIffFewerDays(DateOf(b), DateOf(a));
  }

  // ---------------------------------------------------------------- the search, field by field

  ghost predicate Least(k: int, s: set<int>) {
    k in s && forall j :: j in s ==> k <= j
  }

  /** v is the first element of s from `from` on. */
  ghost predicate FirstFrom(v: int, s: set<int>, from: int) {
    v in s && from <= v && forall j :: j in s && from <= j ==> v <= j
  }

  /** From `from` the search ends at v, having rolled over once or not at all. */
  ghost predicate Settles(s: set<int>, from: int, v: int, rolled: bool) {
    if rolled then Least(v, s) && forall j :: j in s ==> j < from
    else FirstFrom(v, s, from)
  }

  /** The loops over minutes (limit 60) and hours (limit 24). */
  method SettleField(s: set<int>, limit: nat, from: int) returns (v: int, rolled: bool)
    requires Mask(s, limit) && 0 <= from <= limit
    ensures Settles(s, from, v, rolled)
  {
    ghost var some :| some in s;
    v, rolled := from, false;
    while v !in s
      invariant 0 <= v <= limit
      invariant !rolled ==> from <= v && forall j :: j in s && from <= j ==> v <= j
      invariant rolled ==> v <= some && (forall j :: j in s ==> j < from) && forall j :: j in s ==> v <= j
      decreases !rolled, limit - v
    {
      if v == limit {
        rolled := true;
        v := 0;
      } else {
        v := v + 1;
      }
    }
  }

  // ---------------------------------------------------------------- the search as a whole

  /** No match after now comes before t. */
  ghost predicate NoneBefore(c: Cron, now: Tm, t: Tm) {
    forall x :: Matches(c, x) && ValidTm(x) && Before(now, x) ==> !Before(x, t)
  }

  /** t's clock is a candidate: it matches, comes no sooner than allowed, and is the first
      of its day unless the day itself is already right. */
  ghost predicate Candidate(c: Cron, now: Tm, t: Tm) {
    && ValidTm(t)
    && t.min in c.min && t.hour in c.hour
    && NoneBefore(c, now, t)
    && !Earlier(DateOf(t), DateOf(now))
    && (DateMatches(c, DateOf(t), t.wday) ==> Before(now, t))
    && (!DateMatches(c, DateOf(t), t.wday) ==> Least(t.min, c.min) && Least(t.hour, c.hour))
  }

  function At(d: Date, hour: int, min: int): Tm
    requires 0 <= d.mon
  {
    Tm(min, hour, d.mday, d.mon, d.year - 1900, Weekday(d))
  }

  /** Moving from a day that cannot match to tomorrow passes over no match. */
  lemma {:induction false} PassDay(c: Cron, now: Tm, d: Date, hour: int, min: int)
    requires ValidTm(now) && ValidDate(d) && NoneBefore(c, now, At(d, hour, min))
    requires !DateMatches(c, d, Weekday(d))
    requires Least(min, c.min) && Least(hour, c.hour)
    ensures ValidDate(Tomorrow(d)) && NoneBefore(c, now, At(Tomorrow(d), hour, min))
  {
    TomorrowDays(d);
    forall x | Matches(c, x) && ValidTm(x) && Before(now, x)
      ensures !Before(x, At(Tomorrow(d), hour, min))
    {
      TomorrowIsNext(d, DateOf(x));
    }
  }

  /** Skipping the rest of a month that is not in the mask passes over no match. */
  lemma {:induction false} PassMonth(c: Cron, now: Tm, d: Date, hour: int, min: int)
    requires ValidTm(now) && ValidDate(d) && NoneBefore(c, now, At(d, hour, min))
    requires d.mon !in c.mon
    requires Least(min, c.min) && Least(hour, c.hour)
    ensures ValidDate(NextMonth(d)) && NoneBefore(c, now, At(NextMonth(d), hour, min))
    ensures Earlier(d, NextMonth(d))
  {
    NextMonthDays(d);
    forall x | Matches(c, x) && ValidTm(x) && Before(now, x)
      ensures !Before(x, At(NextMonth(d), hour, min))
    {
      assert DateOf(x).mon != d.mon;
    }
  }

  /** The month shortcut: on to the first month in the mask; wday accumulates until the end. */
  method SkipMonths(c: Cron, d: Date, wday: int, ghost now: Tm, ghost hour: int, ghost min: int)
    returns (d': Date, wday': int)
    requires WellFormed(c) && ValidTm(now) && ValidDate(d) && wday == Weekday(d)
    requires NoneBefore(c, now, At(d, hour, min))
    requires Least(min, c.min) && Least(hour, c.hour)
    ensures ValidDate(d') && wday' == Weekday(d') && d'.mon in c.mon
    ensures NoneBefore(c, now, At(d', hour, min))
    ensures DayNumber(d) <= DayNumber(d')
  {
    d', wday' := d, wday;
    ghost var some :| some in c.mon;
    while d'.mon !in c.mon
      invariant ValidDate(d') && wday' - wday == DayNumber(d') - DayNumber(d) >= 0
      invariant NoneBefore(c, now, At(d', hour, min))
      decreases if d'.mon <= some then some - d'.mon else some + 12 - d'.mon
    {
      PassMonth(c, now, d', hour, min);
      NextMonthDays(d');
      wday' := wday' + 1 + (DaysInMonth(d'.year, d'.mon + 1) - d'.mday);
      d' := if d'.mon + 1 >= 12 then Date(d'.year + 1, 0, 1) else Date(d'.year, d'.mon + 1, 1);
    }
    SameRemainder(DayNumber(d), wday, DayNumber(d'), wday');
    wday' := wday' % 7;
  }

  lemma SameRemainder(n: int, w: int, n': int, w': int)
    requires w == n % 7 && w' - w == n' - n
    ensures w' % 7 == n' % 7
  {
    assert w' == n' - 7 * (n / 7);
  }

  lemma {:induction false} NextRemainder(n: int)
    ensures (n + 1) % 7 == (n % 7 + 1) % 7
  {
  }

  /** Increment the day and its weekday. */
  method AdvanceDay(d: Date, wday: int) returns (d': Date, wday': int)
    requires ValidDate(d) && wday == Weekday(d)
    ensures d' == Tomorrow(d) && ValidDate(d') && wday' == Weekday(d')
  {
    TomorrowDays(d);
    NextRemainder(DayNumber(d));
    wday' := NextWeekday(wday);
    d' := NextDay(d);
  }

  method NextWeekday(wday: int) returns (wday': int)
    requires 0 <= wday < 7
    ensures wday' == (wday + 1) % 7
  {
    wday' := wday + 1;
    if wday' == 7 {
      wday' := 0;
    }
  }

  /** Increment the day, with the roll-overs of month and year. */
  method NextDay(d: Date) returns (d': Date)
    requires ValidDate(d)
    ensures d' == Tomorrow(d)
  {
    d' := d.(mday := d.mday + 1);
    if d'.mday > DaysInMonth(d.year, d.mon + 1) {
      d' := Date(d.year, d.mon + 1, 1);
      if d'.mon == 12 {
        d' := Date(d.year + 1, 0, 1);
      }
    }
  }

  /** One turn of the date loop: tomorrow, and on to the first month in the mask. */
  method NextDate(c: Cron, d: Date, wday: int, ghost now: Tm, ghost hour: int, ghost min: int)
    returns (d': Date, wday': int)
    requires WellFormed(c) && ValidTm(now) && ValidDate(d) && wday == Weekday(d)
    requires NoneBefore(c, now, At(d, hour, min)) && !DateMatches(c, d, wday)
    requires Least(min, c.min) && Least(hour, c.hour)
    ensures ValidDate(d') && wday' == Weekday(d') && d'.mon in c.mon
    ensures NoneBefore(c, now, At(d', hour, min))
    ensures DayNumber(d) < DayNumber(d')
  {
    PassDay(c, now, d, hour, min);
    TomorrowDays(d);
    d', wday' := AdvanceDay(d, wday);
    d', wday' := SkipMonths(c, d', wday', now, hour, min);
  }

  /** How far the date loop has come after some turns: a day for each turn, and if only
      February is in the mask no more than 29 turns in a year. */
  ghost predicate Progress(c: Cron, now: Tm, d: Date, turns: nat)
    requires ValidTm(now) && ValidDate(d)
  {
    && DayNumber(d) >= DayNumber(DateOf(now)) + turns
    && (0 < turns ==> d.mon in c.mon)
    && (0 < turns && c.mon == {1} ==> 29 * d.year + d.mday >= 29 * (now.year + 1900) + turns)
  }

  lemma {:induction false} TurnProgresses(c: Cron, now: Tm, d: Date, d': Date, turns: nat)
    requires ValidTm(now) && ValidDate(d) && ValidDate(d') && Progress(c, now, d, turns)
    requires DayNumber(d) < DayNumber(d') && d'.mon in c.mon
    ensures Progress(c, now, d', turns + 1)
  {
    EarlierIffFewerDays(d, d');
    EarlierIffFewerDays(DateOf(now), d');
  }

  /** The date loop, guarded against requests that never match: it gives up after a thousand
      turns or at the end year. */
  method SettleDate(c: Cron, t: Tm, endyear: int, ghost now: Tm) returns (r: Option<Tm>)
    requires WellFormed(c) && ValidTm(now) && Candidate(c, now, t) && endyear <= now.year + 30
    ensures r.Some? ==> ValidTm(r.value) && Matches(c, r.value) && Before(now, r.value) && NoneBefore(c, now, r.value)
    ensures r.None? ==> NoneSoon(c, now, endyear)
  {
    var loops := 1000;
    var d, wday := DateOf(t), t.wday;
    EarlierIffFewerDays(d, DateOf(now));
    while !DateMatches(c, d, wday)
      invariant 0 <= loops <= 1000
      invariant ValidDate(d) && wday == Weekday(d) && Progress(c, now, d, 1000 - loops)
      invariant NoneBefore(c, now, At(d, t.hour, t.min))
      invariant loops == 1000 ==> d == DateOf(t)
      invariant loops < 1000 ==> Least(t.min, c.min) && Least(t.hour, c.hour)
      decreases loops
    {
      if loops == 0 || d.year - 1900 >= endyear {
        GiveUp(c, now, d, t.hour, t.min);
        return None;
      }
      loops := loops - 1;
      ghost var before := d;
      d, wday := NextDate(c, d, wday, now, t.hour, t.min);
      TurnProgresses(c, now, before, d, 999 - loops);
    }
    EarlierIffFewerDays(DateOf(now), d);
    r := Some(At(d, t.hour, t.min));
  }

  /** There is no match within a thousand days before the end year, and if only February is
      in the mask none before the end year at all. */
  ghost predicate NoneSoon(c: Cron, now: Tm, endyear: int)
    requires ValidTm(now)
  {
    forall x :: Matches(c, x) && ValidTm(x) && Before(now, x) ==>
      x.year >= endyear || (c.mon != {1} && DayNumber(DateOf(x)) >= DayNumber(DateOf(now)) + 1000)
  }

  lemma {:induction false} GiveUp(c: Cron, now: Tm, d: Date, hour: int, min: int)
    requires ValidDate(d) && NoneBefore(c, now, At(d, hour, min))
    ensures forall x :: Matches(c, x) && ValidTm(x) && Before(now, x) ==>
      x.year >= d.year - 1900 && DayNumber(DateOf(x)) >= DayNumber(d)
  {
    forall x | Matches(c, x) && ValidTm(x) && Before(now, x)
      ensures x.year >= d.year - 1900 && DayNumber(DateOf(x)) >= DayNumber(d)
    {
      EarlierIffFewerDays(DateOf(x), d);
    }
  }

  // ---------------------------------------------------------------- cron_next

  /** Where the search starts: (minute, hour) of the current day. */
  function Start(c: Cron, now: Tm): (int, int) {
    if !DateMatches(c, DateOf(now), now.wday) then (0, 0)
    else if now.hour !in c.hour then (0, now.hour)
    else (now.min + 1, now.hour)
  }

  /** Where the clock has settled: on the current day or on the next. */
  function SettledDay(now: Tm, late: bool): Date
    requires ValidTm(now)
  {
    if late then Tomorrow(DateOf(now)) else DateOf(now)
  }

  ghost predicate ClockSettles(c: Cron, now: Tm, m: int, mr: bool, h: int, hr: bool)
    requires ValidTm(now)
  {
    var (from, hour) := Start(c, now);
    Settles(c.min, from, m, mr) && Settles(c.hour, if mr then hour + 1 else hour, h, hr)
  }

  lemma {:induction false} SettledDayIs(now: Tm, late: bool)
    requires ValidTm(now)
    ensures ValidDate(SettledDay(now, late)) && !Earlier(SettledDay(now, late), DateOf(now))
  {
    TomorrowIsNext(DateOf(now), DateOf(now));
  }

  lemma {:induction false} ClockPasses(c: Cron, now: Tm, m: int, mr: bool, h: int, hr: bool, x: Tm)
    requires WellFormed(c) && ValidTm(now) && ClockSettles(c, now, m, mr, h, hr)
    requires Matches(c, x) && ValidTm(x) && Before(now, x)
    ensures ValidDate(SettledDay(now, hr)) && !Before(x, At(SettledDay(now, hr), h, m))
  {
    SettledDayIs(now, hr);
    TomorrowIsNext(DateOf(now), DateOf(x));
    if DateOf(x) == DateOf(now) {
      NotBeforeToday(c, now, m, mr, h, hr, x);
    } else if hr && DateOf(x) == SettledDay(now, hr) {
      assert h <= x.hour;
      assert h == x.hour ==> m <= x.min;
    }
  }

  lemma {:induction false} ClockPassesNone(c: Cron, now: Tm, m: int, mr: bool, h: int, hr: bool)
    requires WellFormed(c) && ValidTm(now) && ClockSettles(c, now, m, mr, h, hr)
    ensures ValidDate(SettledDay(now, hr)) && NoneBefore(c, now, At(SettledDay(now, hr), h, m))
  {
    SettledDayIs(now, hr);
    forall x | Matches(c, x) && ValidTm(x) && Before(now, x) ensures !Before(x, At(SettledDay(now, hr), h, m)) {
      ClockPasses(c, now, m, mr, h, hr, x);
    }
  }

  /** Settling minute and hour from the start gives a candidate for the date loop. */
  lemma {:induction false} ClockCandidate(c: Cron, now: Tm, m: int, mr: bool, h: int, hr: bool)
    requires WellFormed(c) && ValidTm(now) && ClockSettles(c, now, m, mr, h, hr)
    ensures ValidDate(SettledDay(now, hr)) && Candidate(c, now, At(SettledDay(now, hr), h, m))
  {
    var d := SettledDay(now, hr);
    SettledDayIs(now, hr);
    ClockPassesNone(c, now, m, mr, h, hr);
    assert !DateMatches(c, d, Weekday(d)) ==> Least(m, c.min) && Least(h, c.hour);
  }

  /** Matches later on the current day are not passed over. */
  lemma {:induction false} NotBeforeToday(c: Cron, now: Tm, m: int, mr: bool, h: int, hr: bool, x: Tm)
    requires ValidTm(now) && ClockSettles(c, now, m, mr, h, hr)
    requires Matches(c, x) && ValidTm(x) && Before(now, x) && DateOf(x) == DateOf(now)
    ensures !hr && (h < x.hour || (h == x.hour && m <= x.min))
  {
  }

  // ---------------------------------------------------------------- when something is found

  predicate AllWeekdays(c: Cron) {
    c.wday == {0, 1, 2, 3, 4, 5, 6}
  }

  predicate Fits(c: Cron, d: Date) {
    d.mday - 1 in c.mday && d.mon in c.mon
  }

  /** Some date of some year is in the day and month masks. */
  ghost predicate SomeDateFits(c: Cron) {
    exists d :: ValidDate(d) && Fits(c, d)
  }

  /** One of two successive multiples of four is a leap year. */
  lemma {:induction false} LeapWithinFour(l: int)
    requires l % 4 == 0
    ensures IsLeapYear(l) || IsLeapYear(l + 4)
  {
    if l % 100 == 0 {
      assert (l + 4) % 100 == 4;
    }
  }

  /** The next leap year after y comes within eight years. */
  function NextLeapYear(y: int): (l: int)
    ensures y < l <= y + 8 && IsLeapYear(l)
  {
    var l := y / 4 * 4 + 4;
    LeapWithinFour(l);
    if IsLeapYear(l) then l else l + 4
  }

  /** If some date fits, one fits next year, or in the next leap year if only 29 February
      does. */
  lemma {:induction false} FittingDate(c: Cron, now: Tm, d: Date) returns (e: Date)
    requires WellFormed(c) && ValidDate(d) && Fits(c, d)
    ensures ValidDate(e) && Fits(c, e)
    ensures now.year + 1900 < e.year <= now.year + 1908 && (e.year == now.year + 1901 || c.mon == {1})
  {
    var y := now.year + 1900;
    if d.mon != 1 || d.mday <= 28 {
      e := Date(y + 1, d.mon, d.mday);
    } else if m :| m in c.mon && m != 1 {
      e := Date(y + 1, m, 29);
    } else {
      assert forall m :: m in c.mon <==> m in {1};
      e := Date(NextLeapYear(y), 1, 29);
    }
  }

  lemma {:induction false} NextYearIsNear(a: Date, b: Date)
    requires ValidDate(a) && ValidDate(b) && b.year == a.year + 1
    ensures DayNumber(b) < DayNumber(a) + 1000
  {
    NewYear(b.year);
    NewYear(a.year);
    YearLength(a.year);
    YearLength(b.year);
    if b.mon < 11 {
      MonthsAdd(b.year, b.mon, 12);
    }
  }

  /** On every weekday a date that fits has a match. */
  lemma {:induction false} FittingMatch(c: Cron, now: Tm, e: Date) returns (x: Tm)
    requires WellFormed(c) && ValidTm(now) && AllWeekdays(c) && ValidDate(e) && Fits(c, e)
    requires now.year + 1900 < e.year
    ensures DateOf(x) == e && ValidTm(x) && Matches(c, x) && Before(now, x)
  {
    var h, m :| h in c.hour && m in c.min;
    x := At(e, h, m);
    FiresOn(c, e, Weekday(e));
  }

  lemma {:induction false} FiresOn(c: Cron, e: Date, w: int)
    requires AllWeekdays(c) && Fits(c, e) && 0 <= w < 7
    ensures DateMatches(c, e, w)
  {
    assert w in {0, 1, 2, 3, 4, 5, 6};
  }

  /** On every weekday: if some date fits, a match comes before the search gives up. */
  lemma {:induction false} SearchIsLongEnough(c: Cron, now: Tm, d: Date)
    requires WellFormed(c) && ValidTm(now) && AllWeekdays(c) && ValidDate(d) && Fits(c, d)
    ensures !NoneSoon(c, now, now.year + 10)
  {
    var e := FittingDate(c, now, d);
    var x := FittingMatch(c, now, e);
    assert x.year < now.year + 10;
    if e.year == now.year + 1901 {
      NextYearIsNear(DateOf(now), e);
    }
  }

  /** The next minute at which an entry fires: whatever is found is a match strictly after
      `now` and no match lies in between; if nothing is found there is no match within a
      thousand days before the end year; and for an entry that fires on every weekday nothing
      is found only if no date of any year fits its day and month masks. */
  method CronNext(c: Cron, now: Tm) returns (r: Option<Tm>)
    requires WellFormed(c) && ValidTm(now)
    ensures r.Some? ==>
      && ValidTm(r.value) && Matches(c, r.value) && Before(now, r.value)
      && forall x :: Matches(c, x) && ValidTm(x) && Before(now, x) ==> !Before(x, r.value)
    ensures r.None? ==> NoneSoon(c, now, now.year + 10)
    ensures AllWeekdays(c) ==> (r.Some? <==> SomeDateFits(c))
  {
    var endyear := now.year + 10;
    var d, wday := DateOf(now), now.wday;
    var min, hour := now.min, now.hour;
    if !DateMatches(c, d, wday) {
      min, hour := 0, 0;
    } else if hour !in c.hour {
      min := 0;
    } else {
      min := min + 1;
    }
    var rolled, late;
    min, rolled := SettleField(c.min, 60, min);
    if rolled {
      hour := hour + 1;
    }
    hour, late := SettleField(c.hour, 24, hour);
    ClockCandidate(c, now, min, rolled, hour, late);
    if late {
      d, wday := AdvanceDay(d, wday);
    }
    r := SettleDate(c, Tm(min, hour, d.mday, d.mon, d.year - 1900, wday), endyear, now);
    FoundIff(c, now, r);
  }

  lemma {:induction false} FoundIff(c: Cron, now: Tm, r: Option<Tm>)
    requires WellFormed(c) && ValidTm(now)
    requires r.Some? ==> ValidTm(r.value) && Matches(c, r.value)
    requires r.None? ==> NoneSoon(c, now, now.year + 10)
    ensures AllWeekdays(c) ==> (r.Some? <==> SomeDateFits(c))
  {
    if r.Some? {
      assert Fits(c, DateOf(r.value));
    } else if AllWeekdays(c) && SomeDateFits(c) {
      var d :| ValidDate(d) && Fits(c, d);
      SearchIsLongEnough(c, now, d);
    }
  }
}
