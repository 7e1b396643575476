/** A calendar of months and a clock of uniform days make a clock that obeys the laws of Clocks. */
module GridClocks {
  import opened Clocks

  datatype YearMonth = YearMonth(year: int, month: int) {
    predicate Valid() { 1 <= month <= 12 }
    function Next(): YearMonth {
      if month == 12 then YearMonth(year + 1, 1) else YearMonth(year, month + 1)
    }
    // Months counted through the years.
    function Number(): int { 12 * year + month - 1 }
  }

  // A month number beyond 12 runs on into the following years.
  function Normal(year: int, month: int): (r: YearMonth)
    ensures r.Valid() && r.Number() == 12 * year + month - 1
  {
    if 1 <= month <= 12 then YearMonth(year, month)
    else YearMonth(year + (month - 1) / 12, (month - 1) % 12 + 1)
  }

  /** A calendar: the day each month starts on, and the month of a day. */
  datatype MonthGrid = MonthGrid(start: YearMonth -> int, of: int -> YearMonth) {
    ghost predicate StartRule(m: YearMonth) { m.Valid() ==> start(m) < start(m.Next()) }
    ghost predicate OfRule(d: int) { of(d).Valid() && start(of(d)) <= d < start(of(d).Next()) }
    ghost predicate Valid() { (forall m :: StartRule(m)) && (forall d :: OfRule(d)) }
  }

  datatype DayTime = DayTime(day: int, hour: int, minute: int, second: int) {
    function ToMinute(): DayTime { this.(second := 0) }
    function ToHour(): DayTime { this.(minute := 0, second := 0) }
    function ToDay(): DayTime { this.(hour := 0, minute := 0, second := 0) }
  }

  function Midnight(d: int): DayTime { DayTime(d, 0, 0, 0) }

  /** The day number and the time of day of an instant in seconds, and the instant of both. */
  datatype DayClock = DayClock(split: int -> DayTime, join: DayTime -> int) {

    ghost predicate DayRule(t: int, d: int) {
      && (join(Midnight(d)) <= t <==> d <= split(t).day)
      && join(Midnight(d + 1)) == join(Midnight(d)) + 86400
      && split(join(Midnight(d))) == Midnight(d)
    }

    ghost predicate HourRule(t: int) {
      var f := join(split(t).ToHour());
      var n := f + 3600;
      && f <= t < n
      && (forall u :: f <= u < n ==> split(u).ToHour() == split(t).ToHour())
      && split(n).ToHour() == split(n)
      && split(f) == split(t).ToHour()
      && (split(n).hour != 0 ==> split(n).day == split(t).day)
    }

    ghost predicate MinuteRule(t: int) {
      var f := join(split(t).ToMinute());
      var n := f + 60;
      && f <= t < n
      && (forall u :: f <= u < n ==> split(u).ToMinute() == split(t).ToMinute())
      && split(n).ToMinute() == split(n)
      && (split(n).minute != 0 ==> split(n).ToHour() == split(t).ToHour())
    }

    ghost predicate SecondRule(t: int) {
      && t == join(split(t))
      && (split(t + 1).second != 0 ==> split(t + 1).ToMinute() == split(t).ToMinute())
    }

    ghost predicate Valid() {
      && (forall t, d :: DayRule(t, d))
      && (forall t :: HourRule(t))
      && (forall t :: MinuteRule(t))
      && (forall t :: SecondRule(t))
    }
  }

  // Day 0 is a Monday; Sunday is weekday 0.
  function ReadCivil(g: MonthGrid, c: DayClock, t: int): Civil {
    var p := c.split(t);
    var m := g.of(p.day);
    Civil(m.year, m.month, p.day - g.start(m) + 1, p.hour, p.minute, p.second)
  }

  function WriteCivil(g: MonthGrid, c: DayClock, v: Civil): int {
    c.join(DayTime(g.start(Normal(v.year, v.month)) + v.day - 1, v.hour, v.minute, v.second))
  }

  function GridClock(g: MonthGrid, c: DayClock): Clock {
    Clock(t => ReadCivil(g, c, t), v => WriteCivil(g, c, v), t => (c.split(t).day + 1) % 7)
  }

  // ---- months of days ----

  lemma {:induction false} StartsIncrease(g: MonthGrid, j: YearMonth, k: YearMonth)
    requires g.Valid() && j.Valid() && k.Valid() && j.Number() <= k.Number()
    ensures g.start(j) <= g.start(k)
    decreases k.Number() - j.Number()
  {
    if j != k {
      assert g.StartRule(j);
      StartsIncrease(g, j.Next(), k);
    }
  }

  lemma MonthUnique(g: MonthGrid, d: int, m: YearMonth)
    requires g.Valid() && m.Valid() && g.start(m) <= d < g.start(m.Next())
    ensures g.of(d) == m
  {
    assert g.OfRule(d);
    var k := g.of(d);
    if k.Number() < m.Number() {
      StartsIncrease(g, k.Next(), m);
    } else if m.Number() < k.Number() {
      StartsIncrease(g, m.Next(), k);
    }
  }

  // ---- truncations ----

  // What a clock z shows at t, in terms of the calendar and the day clock.
  ghost predicate Shows(z: Clock, g: MonthGrid, c: DayClock, t: int) {
    var p := c.split(t);
    && z.read(t) == ReadCivil(g, c, t)
    && z.weekday(t) == (p.day + 1) % 7
    && z.write(z.read(t)) == c.join(p)
    && z.MinuteFloor(t) == c.join(p.ToMinute())
    && z.HourFloor(t) == c.join(p.ToHour())
    && z.DayFloor(t) == c.join(p.ToDay())
    && z.MonthFloor(t) == c.join(Midnight(g.start(g.of(p.day))))
    && z.AddMonth(t) == c.join(p.(day := p.day - g.start(g.of(p.day)) + g.start(g.of(p.day).Next())))
  }

  lemma GridClockShows(g: MonthGrid, c: DayClock, t: int)
    requires g.Valid()
    ensures Shows(GridClock(g, c), g, c, t)
  {
    assert g.OfRule(c.split(t).day);
  }

  // ---- the laws ----

  lemma SameDayShown(z: Clock, g: MonthGrid, c: DayClock, t: int, u: int)
    requires Shows(z, g, c, t) && Shows(z, g, c, u) && c.split(t).day == c.split(u).day
    ensures z.SameDay(t, u)
  {
  }

  lemma SameHourShown(z: Clock, g: MonthGrid, c: DayClock, t: int, u: int)
    requires Shows(z, g, c, t) && Shows(z, g, c, u) && c.split(u).ToHour() == c.split(t).ToHour()
    ensures z.SameHour(t, u)
  {
  }

  lemma SameMinuteShown(z: Clock, g: MonthGrid, c: DayClock, t: int, u: int)
    requires Shows(z, g, c, t) && Shows(z, g, c, u) && c.split(u).ToMinute() == c.split(t).ToMinute()
    ensures z.SameMinute(t, u)
  {
  }

  lemma MonthLawHolds(z: Clock, g: MonthGrid, c: DayClock, t: int)
    requires (forall u :: Shows(z, g, c, u)) && g.Valid() && (forall u, d :: c.DayRule(u, d)) && c.HourRule(t)
    ensures z.MonthLaw(t)
  {
    var m := g.of(c.split(t).day);
    var f, n := c.join(Midnight(g.start(m))), c.join(Midnight(g.start(m.Next())));
    assert g.OfRule(c.split(t).day) && g.StartRule(m) && g.StartRule(m.Next());
    MonthUnique(g, g.start(m), m);
    MonthUnique(g, g.start(m.Next()), m.Next());
    assert c.DayRule(t, g.start(m)) && c.DayRule(t, g.start(m.Next()));
    assert Shows(z, g, c, t) && Shows(z, g, c, f) && Shows(z, g, c, n);
    forall u | f <= u < n ensures z.SameMonth(t, u) {
      assert Shows(z, g, c, u);
      assert c.DayRule(u, g.start(m)) && c.DayRule(u, g.start(m.Next()));
      MonthUnique(g, c.split(u).day, m);
    }
  }

  lemma NextDayShown(z: Clock, g: MonthGrid, c: DayClock, t: int, n: int)
    requires Shows(z, g, c, t) && Shows(z, g, c, n) && g.Valid()
    requires c.split(n) == Midnight(c.split(t).day + 1) && c.SecondRule(n)
    ensures n == z.DayFloor(n) && if z.Day(n) == 1 then n == z.MonthFloor(n) else z.SameMonth(t, n)
  {
    var d := c.split(t).day;
    var m := g.of(d);
    assert g.OfRule(d) && g.StartRule(m.Next());
    if d + 1 < g.start(m.Next()) {
      MonthUnique(g, d + 1, m);
    } else {
      MonthUnique(g, d + 1, m.Next());
    }
  }

  lemma DayLawHolds(z: Clock, g: MonthGrid, c: DayClock, t: int)
    requires (forall u :: Shows(z, g, c, u)) && g.Valid()
    requires (forall u, d :: c.DayRule(u, d)) && (forall u :: c.SecondRule(u))
    ensures z.DayLaw(t)
  {
    var d := c.split(t).day;
    var f, n := c.join(Midnight(d)), c.join(Midnight(d + 1));
    assert c.DayRule(t, d) && c.DayRule(t, d + 1) && c.SecondRule(n);
    assert Shows(z, g, c, t) && Shows(z, g, c, n);
    NextDayShown(z, g, c, t, n);
    forall u | f <= u < n ensures z.SameDay(t, u) {
      assert c.DayRule(u, d) && c.DayRule(u, d + 1);
      assert Shows(z, g, c, u);
      SameDayShown(z, g, c, t, u);
    }
  }

  lemma HourLawHolds(z: Clock, g: MonthGrid, c: DayClock, t: int)
    requires (forall u :: Shows(z, g, c, u)) && c.HourRule(t) && (forall u :: c.SecondRule(u))
    ensures z.HourLaw(t)
  {
    var f := c.join(c.split(t).ToHour());
    var n := f + 3600;
    assert c.SecondRule(n);
    assert Shows(z, g, c, t) && Shows(z, g, c, n);
    forall u | f <= u < n ensures z.SameHour(t, u) {
      assert c.split(u).ToHour() == c.split(t).ToHour();
      SameHourShown(z, g, c, t, u);
    }
  }

  lemma MinuteLawHolds(z: Clock, g: MonthGrid, c: DayClock, t: int)
    requires (forall u :: Shows(z, g, c, u)) && c.MinuteRule(t) && (forall u :: c.SecondRule(u))
    ensures z.MinuteLaw(t)
  {
    var f := c.join(c.split(t).ToMinute());
    var n := f + 60;
    assert c.SecondRule(n);
    assert Shows(z, g, c, t) && Shows(z, g, c, n);
    forall u | f <= u < n ensures z.SameMinute(t, u) {
      assert c.split(u).ToMinute() == c.split(t).ToMinute();
      SameMinuteShown(z, g, c, t, u);
    }
  }

  lemma SecondLawHolds(z: Clock, g: MonthGrid, c: DayClock, t: int)
    requires Shows(z, g, c, t) && Shows(z, g, c, t + 1) && c.SecondRule(t) && c.SecondRule(t + 1)
    ensures z.SecondLaw(t)
  {
    assert c.split(t + 1).second == 0 ==> c.split(t + 1).ToMinute() == c.split(t + 1);
  }

  lemma YearLawHolds(z: Clock, g: MonthGrid, c: DayClock, t: int, y: int)
    requires Shows(z, g, c, t) && g.Valid() && (forall u, d :: c.DayRule(u, d))
    requires z.YearEnd(y) == c.join(Midnight(g.start(YearMonth(y + 1, 1))))
    ensures z.YearLaw(t, y)
  {
    var m := g.of(c.split(t).day);
    assert g.OfRule(c.split(t).day);
    assert c.DayRule(t, g.start(YearMonth(y + 1, 1)));
    if m.year <= y {
      StartsIncrease(g, m.Next(), YearMonth(y + 1, 1));
    } else {
      StartsIncrease(g, YearMonth(y + 1, 1), m);
    }
  }

  ghost predicate Built(z: Clock, g: MonthGrid, c: DayClock) {
    && (forall t :: Shows(z, g, c, t))
    && (forall y :: z.YearEnd(y) == c.join(Midnight(g.start(YearMonth(y + 1, 1)))))
  }

  lemma BuiltIsLawful(z: Clock, g: MonthGrid, c: DayClock, t: int)
    requires Built(z, g, c) && g.Valid() && c.Valid()
    ensures z.LawfulAt(t)
  {
    assert c.HourRule(t) && c.MinuteRule(t) && c.SecondRule(t) && c.SecondRule(t + 1);
    MonthLawHolds(z, g, c, t);
    DayLawHolds(z, g, c, t);
    HourLawHolds(z, g, c, t);
    MinuteLawHolds(z, g, c, t);
    SecondLawHolds(z, g, c, t);
    forall y ensures z.YearLaw(t, y) {
      YearLawHolds(z, g, c, t, y);
    }
  }

  /** A valid calendar and a valid day clock make a clock that Schedule.Next can search. */
  lemma GridClockIsLawful(g: MonthGrid, c: DayClock)
    requires g.Valid() && c.Valid()
    ensures GridClock(g, c).Lawful()
  {
    var z := GridClock(g, c);
    forall t ensures Shows(z, g, c, t) {
      GridClockShows(g, c, t);
    }
    forall t ensures z.LawfulAt(t) {
      BuiltIsLawful(z, g, c, t);
    }
  }
}
