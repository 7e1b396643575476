/** The Gregorian calendar read at a fixed offset from the epoch is a clock that Schedule.Next can
    search: days have 86400 seconds and the hours of a day run from 0 to 23. */
module GregorianClocks {
  import opened Clocks
  import opened GridClocks
  import Calendar

  // ---- days and times of day ----

  function Split(x: int): DayTime {
    DayTime(x / 86400, x / 3600 % 24, x / 60 % 60, x % 60)
  }

  function Join(p: DayTime): int {
    p.day * 86400 + p.hour * 3600 + p.minute * 60 + p.second
  }

  function ZoneDays(offset: int): DayClock {
    DayClock(t => Split(t + offset), p => Join(p) - offset)
  }

  function Floor(x: int, unit: int): int
    requires unit > 0
  {
    x - x % unit
  }

  lemma DivisionChain(x: int)
    ensures x / 3600 == x / 60 / 60 && x / 86400 == x / 3600 / 24
    ensures Join(Split(x)) == x
    ensures Join(Split(x).ToMinute()) == Floor(x, 60)
    ensures Join(Split(x).ToHour()) == Floor(x, 3600)
  {
  }

  lemma SplitMidnight(d: int)
    ensures Split(Join(Midnight(d))) == Midnight(d)
  {
    var x := d * 86400;
    assert x / 3600 == d * 24 && x / 60 == d * 1440;
  }

  lemma WithinHour(x: int, u: int)
    requires Floor(x, 3600) <= u < Floor(x, 3600) + 3600
    ensures Split(u).ToHour() == Split(x).ToHour()
  {
    assert u / 3600 == x / 3600;
    DivisionChain(x);
    DivisionChain(u);
  }

  lemma WithinMinute(x: int, u: int)
    requires Floor(x, 60) <= u < Floor(x, 60) + 60
    ensures Split(u).ToMinute() == Split(x).ToMinute()
  {
    assert u / 60 == x / 60;
    DivisionChain(x);
    DivisionChain(u);
  }

  lemma NextHour(x: int)
    ensures var n := Floor(x, 3600) + 3600;
      Split(n).ToHour() == Split(n) && (Split(n).hour != 0 ==> Split(n).day == Split(x).day)
  {
    var n := Floor(x, 3600) + 3600;
    assert n / 3600 == x / 3600 + 1 && n / 60 == 60 * (n / 3600);
    DivisionChain(x);
    DivisionChain(n);
  }

  lemma NextMinute(x: int)
    ensures var n := Floor(x, 60) + 60;
      Split(n).ToMinute() == Split(n) && (Split(n).minute != 0 ==> Split(n).ToHour() == Split(x).ToHour())
  {
    var n := Floor(x, 60) + 60;
    assert n / 60 == x / 60 + 1;
    DivisionChain(x);
    DivisionChain(n);
  }

  lemma HourStart(x: int)
    ensures Split(Floor(x, 3600)) == Split(x).ToHour()
  {
    var f := Floor(x, 3600);
    assert f / 3600 == x / 3600 && f / 60 == 60 * (f / 3600);
    DivisionChain(x);
    DivisionChain(f);
  }

  lemma ZoneHourRule(offset: int, t: int)
    ensures ZoneDays(offset).HourRule(t)
  {
    var c, x := ZoneDays(offset), t + offset;
    DivisionChain(x);
    NextHour(x);
    HourStart(x);
    var f := c.join(c.split(t).ToHour());
    forall u | f <= u < f + 3600 ensures c.split(u).ToHour() == c.split(t).ToHour() {
      WithinHour(x, u + offset);
    }
  }

  lemma ZoneMinuteRule(offset: int, t: int)
    ensures ZoneDays(offset).MinuteRule(t)
  {
    var c, x := ZoneDays(offset), t + offset;
    DivisionChain(x);
    NextMinute(x);
    var f := c.join(c.split(t).ToMinute());
    forall u | f <= u < f + 60 ensures c.split(u).ToMinute() == c.split(t).ToMinute() {
      WithinMinute(x, u + offset);
    }
  }

  lemma ZoneSecondRule(offset: int, t: int)
    ensures ZoneDays(offset).SecondRule(t)
  {
    DivisionChain(t + offset);
    NextSecond(t + offset);
    assert ZoneDays(offset).split(t + 1) == Split(t + offset + 1);
  }

  lemma NextSecond(x: int)
    ensures Split(x + 1).second != 0 ==> Split(x + 1).ToMinute() == Split(x).ToMinute()
  {
    if (x + 1) % 60 != 0 {
      WithinMinute(x, x + 1);
    }
  }

  lemma DayOrder(d: int, x: int)
    ensures d * 86400 <= x <==> d <= x / 86400
  {
  }

  lemma ZoneMidnight(offset: int, d: int)
    ensures var c := ZoneDays(offset); c.split(c.join(Midnight(d))) == Midnight(d)
  {
    var c := ZoneDays(offset);
    assert c.join(Midnight(d)) + offset == Join(Midnight(d));
    SplitMidnight(d);
  }

  lemma ZoneDayOrder(offset: int, t: int, d: int)
    ensures var c := ZoneDays(offset); c.join(Midnight(d)) <= t <==> d <= c.split(t).day
  {
    var c := ZoneDays(offset);
    assert c.split(t) == Split(t + offset);
    assert c.join(Midnight(d)) == d * 86400 - offset;
    DayOrder(d, t + offset);
  }

  lemma ZoneNextMidnight(offset: int, d: int)
    ensures var c := ZoneDays(offset); c.join(Midnight(d + 1)) == c.join(Midnight(d)) + 86400
  {
    assert Join(Midnight(d + 1)) == Join(Midnight(d)) + 86400;
  }

  lemma ZoneDayRule(offset: int, t: int, d: int)
    ensures ZoneDays(offset).DayRule(t, d)
  {
    ZoneMidnight(offset, d);
    ZoneDayOrder(offset, t, d);
    ZoneNextMidnight(offset, d);
  }

  lemma ZoneDaysAreValid(offset: int)
    ensures ZoneDays(offset).Valid()
  {
    var c := ZoneDays(offset);
    forall t, d ensures c.DayRule(t, d) { ZoneDayRule(offset, t, d); }
    forall t ensures c.HourRule(t) { ZoneHourRule(offset, t); }
    forall t ensures c.MinuteRule(t) { ZoneMinuteRule(offset, t); }
    forall t ensures c.SecondRule(t) { ZoneSecondRule(offset, t); }
  }

  // ---- months ----

  function MonthBegin(m: YearMonth): int {
    var n := Normal(m.year, m.month);
    Calendar.MonthStart(n.year, n.month)
  }

  function MonthOf(d: int): YearMonth {
    YearMonth(Calendar.YearOfDay(d), Calendar.MonthOfDay(d))
  }

  function Gregorian(): MonthGrid {
    MonthGrid(m => MonthBegin(m), d => MonthOf(d))
  }

  lemma MonthBeginStep(m: YearMonth)
    requires m.Valid()
    ensures MonthBegin(m) == Calendar.MonthStart(m.year, m.month)
    ensures MonthBegin(m) < MonthBegin(m.Next()) == Calendar.MonthStart(m.year, m.month + 1)
  {
    Calendar.MonthWithinYear(m.year, m.month);
    Calendar.YearLength(m.year);
  }

  lemma GregorianIsValid()
    ensures Gregorian().Valid()
  {
    var g := Gregorian();
    forall m ensures g.StartRule(m) {
      if m.Valid() {
        MonthBeginStep(m);
      }
    }
    forall d ensures g.OfRule(d) {
      Calendar.MonthOfDayBounds(d);
      MonthBeginStep(MonthOf(d));
    }
  }

  function GregorianClock(offset: int): Clock {
    GridClock(Gregorian(), ZoneDays(offset))
  }

  /** Every fixed-offset Gregorian clock obeys the laws. */
  lemma GregorianClockIsLawful(offset: int)
    ensures GregorianClock(offset).Lawful()
  {
    GregorianIsValid();
    ZoneDaysAreValid(offset);
    GridClockIsLawful(Gregorian(), ZoneDays(offset));
  }

  // ---- the days of the week ----

  // What the months before it leave of a date, modulo 7; years start in March.
  const MONTH_KEYS := [0, 3, 2, 5, 0, 3, 5, 1, 4, 6, 2, 4]

  // The weekday of a date by the rule of Sakamoto.
  function WeekdayOf(year: int, month: int, day: int): int
    requires 1 <= month <= 12
  {
    var y := if month < 3 then year - 1 else year;
    (y + y / 4 - y / 100 + y / 400 + MONTH_KEYS[month - 1] + day) % 7
  }

  lemma MonthOffsets(y: int, m: int)
    requires 1 <= m <= 12
    ensures Calendar.MonthOffset(y, m)
      == [0, 31, 59, 90, 120, 151, 181, 212, 243, 273, 304, 334][m - 1] + if m > 2 && Calendar.Leap(y) then 1 else 0
  {
    assert Calendar.MonthOffset(y, 2) == 31;
    assert Calendar.MonthOffset(y, 3) == 31 + Calendar.DaysIn(y, 2);
    assert Calendar.MonthOffset(y, 5) == 92 + Calendar.DaysIn(y, 2);
    assert Calendar.MonthOffset(y, 7) == 153 + Calendar.DaysIn(y, 2);
    assert Calendar.MonthOffset(y, 9) == 215 + Calendar.DaysIn(y, 2);
    assert Calendar.MonthOffset(y, 11) == 276 + Calendar.DaysIn(y, 2);
  }

  // The first of March, counted from the year before.
  lemma LeapDays(y: int)
    ensures y / 4 - y / 100 + y / 400
      == (y - 1) / 4 - (y - 1) / 100 + (y - 1) / 400 + if Calendar.Leap(y) then 1 else 0
  {
    Calendar.QuotientStep(y);
    Calendar.CenturyIsFourth(y);
  }

  lemma SevenDays(a: int, b: int, k: int)
    requires a == b + 7 * k
    ensures a % 7 == b % 7
  {
  }

  lemma WeekdayOfDay(y: int, m: int, day: int)
    requires 1 <= m <= 12
    ensures (Calendar.MonthStart(y, m) + day) % 7 == WeekdayOf(y, m, day)
  {
    MonthOffsets(y, m);
    LeapDays(y);
    var z := if m < 3 then y - 1 else y;
    var rule := z + z / 4 - z / 100 + z / 400 + MONTH_KEYS[m - 1] + day;
    var weeks := [0, 4, 8, 12, 17, 21, 25, 30, 34, 38, 43, 47][m - 1];
    SevenDays(Calendar.MonthStart(y, m) + day, rule, 52 * (y - 1) + weeks);
  }

  // A date of the calendar and its weekday.
  predicate ProperDate(year: int, month: int, day: int, weekday: int) {
    1 <= month <= 12 && 1 <= day <= Calendar.DaysIn(year, month) && weekday == WeekdayOf(year, month, day)
  }

  predicate ProperTime(hour: int, minute: int, second: int) {
    0 <= hour <= 23 && 0 <= minute <= 59 && 0 <= second <= 59
  }

  // A calendar that has proper dates, and a clock of days that has proper times.
  ghost predicate Dated(g: MonthGrid, d: int) {
    var m := g.of(d);
    ProperDate(m.year, m.month, d - g.start(m) + 1, (d + 1) % 7)
  }

  ghost predicate Timed(z: DayClock, t: int) {
    var p := z.split(t);
    ProperTime(p.hour, p.minute, p.second)
  }

  // What a clock shows at an instant is proper.
  ghost predicate ShowsProper(c: Clock, t: int) {
    ProperDate(c.Year(t), c.Month(t), c.Day(t), c.weekday(t)) && ProperTime(c.Hour(t), c.Minute(t), c.Second(t))
  }

  lemma GridIsProper(g: MonthGrid, z: DayClock, t: int)
    requires Dated(g, z.split(t).day) && Timed(z, t)
    ensures ShowsProper(GridClock(g, z), t)
  {
  }

  lemma DateIn(d: int, y: int, m: int)
    requires 1 <= m <= 12 && Calendar.MonthStart(y, m) <= d < Calendar.MonthStart(y, m + 1)
    ensures ProperDate(y, m, d - Calendar.MonthStart(y, m) + 1, (d + 1) % 7)
  {
    WeekdayOfDay(y, m, d - Calendar.MonthStart(y, m) + 1);
  }

  lemma GregorianIsDated(d: int)
    ensures Dated(Gregorian(), d)
  {
    var g, m := Gregorian(), MonthOf(d);
    Calendar.MonthOfDayBounds(d);
    DateIn(d, m.year, m.month);
    MonthBeginStep(m);
    assert g.of(d) == m && g.start(m) == MonthBegin(m) == Calendar.MonthStart(m.year, m.month);
  }

  lemma ZoneIsTimed(offset: int, t: int)
    ensures Timed(ZoneDays(offset), t)
  {
    assert ZoneDays(offset).split(t) == Split(t + offset);
  }

  /** The days of the week are those of the calendar: on every date the clock shows the weekday that Sakamoto's rule
      gives for it. Every field is within its range. */
  lemma GregorianClockShows(offset: int, t: int)
    ensures ShowsProper(GregorianClock(offset), t)
  {
    var g, z := Gregorian(), ZoneDays(offset);
    GregorianIsDated(z.split(t).day);
    ZoneIsTimed(offset, t);
    GridIsProper(g, z, t);
  }
}
