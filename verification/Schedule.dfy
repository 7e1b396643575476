/** Schedule.Next: the next instant at which a cron schedule fires. */
module Schedules {
  import opened Wrappers
  import opened Clocks
  import opened CronMask

  const NANOSECONDS := 1_000_000_000

  datatype Schedule = Schedule(second: Word, minute: Word, hour: Word, day: Word, month: Word, week: Word)

  predicate MonthMatches(c: Clock, s: Schedule, t: int) { c.Month(t) in s.month }

  // A star in either day field asks for both of them, otherwise one is enough.
  predicate DayMatches(c: Clock, s: Schedule, t: int) {
    var domMatch := c.Day(t) in s.day;
    var dowMatch := c.weekday(t) in s.week;
    if STAR_BIT in s.day || STAR_BIT in s.week then domMatch && dowMatch else domMatch || dowMatch
  }

  predicate HourMatches(c: Clock, s: Schedule, t: int) { c.Hour(t) in s.hour }
  predicate MinuteMatches(c: Clock, s: Schedule, t: int) { c.Minute(t) in s.minute }
  predicate SecondMatches(c: Clock, s: Schedule, t: int) { c.Second(t) in s.second }

  // The coarse fields down to one of them match.
  predicate MatchesToDay(c: Clock, s: Schedule, t: int) { MonthMatches(c, s, t) && DayMatches(c, s, t) }
  predicate MatchesToHour(c: Clock, s: Schedule, t: int) { MatchesToDay(c, s, t) && HourMatches(c, s, t) }
  predicate MatchesToMinute(c: Clock, s: Schedule, t: int) { MatchesToHour(c, s, t) && MinuteMatches(c, s, t) }

  predicate Matches(c: Clock, s: Schedule, t: int) {
    && MonthMatches(c, s, t)
    && DayMatches(c, s, t)
    && HourMatches(c, s, t)
    && MinuteMatches(c, s, t)
    && SecondMatches(c, s, t)
  }

  // ---- the reference: look at every second in turn ----

  function FirstHit(p: int -> bool, from: int, until: int): (r: Option<int>)
    ensures r.Some? ==> from <= r.value < until && p(r.value)
    ensures forall u :: from <= u < (if r.Some? then r.value else until) ==> !p(u)
    decreases until - from
  {
    if from >= until then None
    else if p(from) then Some(from)
    else FirstHit(p, from + 1, until)
  }

  // The first whole second after an instant given in nanoseconds.
  function UpcomingSecond(nanos: int): (t: int)
    ensures forall u: int :: t <= u <==> nanos < u * NANOSECONDS
  {
    nanos / NANOSECONDS + 1
  }

  // The end of the search window: the end of the fifth year after that of the upcoming second.
  function Horizon(c: Clock, nanos: int): int {
    c.YearEnd(c.Year(UpcomingSecond(nanos)) + 5)
  }

  function NextTime(c: Clock, s: Schedule, nanos: int): Option<int> {
    FirstHit(t => Matches(c, s, t), UpcomingSecond(nanos), Horizon(c, nanos))
  }

  // ---- one jump per unit ----

  // No instant of the interval fires.
  ghost predicate Quiet(c: Clock, s: Schedule, from: int, until: int) {
    forall u :: from <= u < until ==> !Matches(c, s, u)
  }

  // Once a field has been incremented, every coarser field either matches or stands at its start,
  // which is what lets the later jumps skip the truncation.
  ghost predicate Settled(c: Clock, s: Schedule, t: int) {
    && (MonthMatches(c, s, t) || t == c.MonthFloor(t))
    && (DayMatches(c, s, t) || t == c.DayFloor(t))
    && (HourMatches(c, s, t) || t == c.HourFloor(t))
    && (MinuteMatches(c, s, t) || t == c.MinuteFloor(t))
  }

  // A jump to n from an instant t whose unit starts at f: n is later, nothing fires in between,
  // and the year ends no earlier than n.
  ghost predicate Jump(c: Clock, s: Schedule, f: int, t: int, n: int) {
    f <= t < n <= c.YearEnd(c.Year(t)) && Quiet(c, s, f, n) && Settled(c, s, n)
  }

  lemma MonthStep(c: Clock, s: Schedule, t: int)
    requires c.Lawful() && !MonthMatches(c, s, t)
    ensures var n := c.AddMonth(c.MonthFloor(t));
      Jump(c, s, c.MonthFloor(t), t, n) && n == c.MonthFloor(n) && (c.Month(n) != 1 ==> c.Year(n) == c.Year(t))
  {
    var f := c.MonthFloor(t);
    var n := c.AddMonth(f);
    assert c.LawfulAt(t) && c.LawfulAt(n);
    assert c.LawfulAt(n - 1) && c.SameMonth(t, n - 1) && c.YearLaw(n - 1, c.Year(t));
    assert Quiet(c, s, f, n) by {
      forall u | f <= u < n ensures !Matches(c, s, u) {
        assert c.SameMonth(t, u);
      }
    }
  }

  lemma DayStep(c: Clock, s: Schedule, t: int)
    requires c.Lawful() && MonthMatches(c, s, t) && !DayMatches(c, s, t)
    ensures var n := c.DayFloor(t) + 86400;
      Jump(c, s, c.DayFloor(t), t, n) && n == c.DayFloor(n) && (c.Day(n) != 1 ==> c.SameMonth(t, n))
  {
    var f := c.DayFloor(t);
    var n := f + 86400;
    assert c.LawfulAt(t) && c.LawfulAt(n);
    assert c.LawfulAt(n - 1) && c.SameDay(t, n - 1) && c.YearLaw(n - 1, c.Year(t));
    assert Quiet(c, s, f, n) by {
      forall u | f <= u < n ensures !Matches(c, s, u) {
        assert c.SameDay(t, u);
      }
    }
  }

  lemma HourStep(c: Clock, s: Schedule, t: int)
    requires c.Lawful() && MonthMatches(c, s, t) && DayMatches(c, s, t) && !HourMatches(c, s, t)
    ensures var n := c.HourFloor(t) + 3600;
      Jump(c, s, c.HourFloor(t), t, n) && n == c.HourFloor(n) && (c.Hour(n) != 0 ==> c.SameDay(t, n))
  {
    var f := c.HourFloor(t);
    var n := f + 3600;
    assert c.LawfulAt(t) && c.LawfulAt(n);
    assert c.LawfulAt(n - 1) && c.SameHour(t, n - 1) && c.YearLaw(n - 1, c.Year(t));
    DayChange(c, s, t, n);
    assert Quiet(c, s, f, n) by {
      forall u | f <= u < n ensures !Matches(c, s, u) {
        assert c.SameHour(t, u);
      }
    }
  }

  // At the start of a day, or within the day of an instant whose month and day match.
  lemma DayChange(c: Clock, s: Schedule, t: int, n: int)
    requires c.Lawful() && MonthMatches(c, s, t) && DayMatches(c, s, t)
    requires n == c.DayFloor(n) || c.SameDay(t, n)
    requires t < n <= c.DayFloor(t) + 86400
    ensures MonthMatches(c, s, n) || n == c.MonthFloor(n)
    ensures DayMatches(c, s, n) || n == c.DayFloor(n)
  {
    if !c.SameDay(t, n) {
      assert c.LawfulAt(t);
      assert n == c.DayFloor(t) + 86400;
    }
  }

  lemma MinuteStep(c: Clock, s: Schedule, t: int)
    requires c.Lawful() && MonthMatches(c, s, t) && DayMatches(c, s, t) && HourMatches(c, s, t)
    requires !MinuteMatches(c, s, t)
    ensures var n := c.MinuteFloor(t) + 60;
      Jump(c, s, c.MinuteFloor(t), t, n) && n == c.MinuteFloor(n) && (c.Minute(n) != 0 ==> c.SameHour(t, n))
  {
    var f := c.MinuteFloor(t);
    var n := f + 60;
    assert c.LawfulAt(t) && c.LawfulAt(n);
    assert c.LawfulAt(n - 1) && c.SameMinute(t, n - 1) && c.YearLaw(n - 1, c.Year(t));
    HourChange(c, s, t, n);
    assert Quiet(c, s, f, n) by {
      forall u | f <= u < n ensures !Matches(c, s, u) {
        assert c.SameMinute(t, u);
      }
    }
  }

  lemma SecondStep(c: Clock, s: Schedule, t: int)
    requires c.Lawful() && MonthMatches(c, s, t) && DayMatches(c, s, t) && HourMatches(c, s, t)
    requires MinuteMatches(c, s, t) && !SecondMatches(c, s, t)
    ensures Jump(c, s, t, t, t + 1) && t == c.write(c.read(t))
    ensures c.Second(t + 1) != 0 ==> c.SameMinute(t, t + 1)
  {
    assert c.LawfulAt(t) && c.LawfulAt(t + 1) && c.YearLaw(t, c.Year(t));
    HourChange(c, s, t, t + 1);
  }

  // At the start of an hour, or within the hour of an instant whose month, day and hour match.
  lemma HourChange(c: Clock, s: Schedule, t: int, n: int)
    requires c.Lawful() && MonthMatches(c, s, t) && DayMatches(c, s, t) && HourMatches(c, s, t)
    requires n == c.HourFloor(n) || c.SameHour(t, n)
    requires t < n <= c.HourFloor(t) + 3600
    ensures MonthMatches(c, s, n) || n == c.MonthFloor(n)
    ensures DayMatches(c, s, n) || n == c.DayFloor(n)
    ensures HourMatches(c, s, n) || n == c.HourFloor(n)
  {
    if !c.SameHour(t, n) {
      assert c.LawfulAt(t);
      assert n == c.HourFloor(t) + 3600;
      assert c.LawfulAt(n - 1) && c.SameHour(t, n - 1);
      DayChange(c, s, t, n);
    }
  }

  // ---- the search ----

  // The seconds a search may look at: from its start to the end of the limit year.
  datatype Window = Window(start: int, end: int, yearLimit: int)

  // What holds of the candidate throughout the search.
  ghost predicate Searching(c: Clock, s: Schedule, w: Window, t: int, added: bool) {
    && w.start <= t <= w.end == c.YearEnd(w.yearLimit)
    && Quiet(c, s, w.start, t)
    && (added ==> Settled(c, s, t))
  }

  // Years end in order.
  lemma YearEnds(c: Clock, t: int, y: int)
    requires c.Lawful() && c.Year(t) <= y
    ensures c.YearEnd(c.Year(t)) <= c.YearEnd(y)
  {
    var e := c.YearEnd(y);
    if e < c.YearEnd(c.Year(t)) {
      assert c.LawfulAt(e) && c.YearLaw(e, y) && c.YearLaw(e, c.Year(t));
    }
  }

  lemma MonthAdvance(c: Clock, s: Schedule, w: Window, t: int, added: bool)
    requires c.Lawful() && Searching(c, s, w, t, added) && c.Year(t) <= w.yearLimit
    requires !MonthMatches(c, s, t)
    ensures var n := c.AddMonth(if added then t else c.MonthFloor(t));
      && t < n && Searching(c, s, w, n, true)
      && (c.Month(n) != 1 ==> c.Year(n) <= w.yearLimit)
  {
    MonthStep(c, s, t);
    YearEnds(c, t, w.yearLimit);
  }

  lemma DayAdvance(c: Clock, s: Schedule, w: Window, t: int, added: bool)
    requires c.Lawful() && Searching(c, s, w, t, added) && c.Year(t) <= w.yearLimit
    requires MonthMatches(c, s, t) && !DayMatches(c, s, t)
    ensures var n := (if added then t else c.DayFloor(t)) + 86400;
      && t < n && Searching(c, s, w, n, true)
      && (c.Day(n) != 1 ==> MonthMatches(c, s, n) && c.Year(n) <= w.yearLimit)
  {
    DayStep(c, s, t);
    YearEnds(c, t, w.yearLimit);
  }

  lemma HourAdvance(c: Clock, s: Schedule, w: Window, t: int, added: bool)
    requires c.Lawful() && Searching(c, s, w, t, added) && c.Year(t) <= w.yearLimit
    requires MatchesToDay(c, s, t) && !HourMatches(c, s, t)
    ensures var n := (if added then t else c.HourFloor(t)) + 3600;
      && t < n && Searching(c, s, w, n, true)
      && (c.Hour(n) != 0 ==> MatchesToDay(c, s, n) && c.Year(n) <= w.yearLimit)
  {
    HourStep(c, s, t);
    YearEnds(c, t, w.yearLimit);
  }

  lemma MinuteAdvance(c: Clock, s: Schedule, w: Window, t: int, added: bool)
    requires c.Lawful() && Searching(c, s, w, t, added) && c.Year(t) <= w.yearLimit
    requires MatchesToHour(c, s, t) && !MinuteMatches(c, s, t)
    ensures var n := (if added then t else c.MinuteFloor(t)) + 60;
      && t < n && Searching(c, s, w, n, true)
      && (c.Minute(n) != 0 ==> MatchesToHour(c, s, n) && c.Year(n) <= w.yearLimit)
  {
    MinuteStep(c, s, t);
    YearEnds(c, t, w.yearLimit);
  }

  lemma SecondAdvance(c: Clock, s: Schedule, w: Window, t: int, added: bool)
    requires c.Lawful() && Searching(c, s, w, t, added) && c.Year(t) <= w.yearLimit
    requires MatchesToMinute(c, s, t) && !SecondMatches(c, s, t)
    ensures var n := (if added then t else c.write(c.read(t))) + 1;
      && t < n && Searching(c, s, w, n, true)
      && (c.Second(n) != 0 ==> MatchesToMinute(c, s, n) && c.Year(n) <= w.yearLimit)
  {
    SecondStep(c, s, t);
    YearEnds(c, t, w.yearLimit);
  }

  method SeekMonth(c: Clock, s: Schedule, t0: int, added0: bool, ghost w: Window)
    returns (t: int, added: bool, wrapped: bool)
    requires c.Lawful() && Searching(c, s, w, t0, added0) && c.Year(t0) <= w.yearLimit
    ensures Searching(c, s, w, t, added) && t0 <= t
    ensures if wrapped then t0 < t else c.Year(t) <= w.yearLimit && MonthMatches(c, s, t)
  {
    t, added := t0, added0;
    while !MonthMatches(c, s, t)
      invariant t0 <= t && Searching(c, s, w, t, added) && c.Year(t) <= w.yearLimit
      decreases w.end - t
    {
      MonthAdvance(c, s, w, t, added);
      if !added {
        added := true;
        t := c.write(Civil(c.Year(t), c.Month(t), 1, 0, 0, 0));
      }
      t := c.AddMonth(t);
      if c.Month(t) == 1 {
        return t, added, true;
      }
    }
    wrapped := false;
  }

  method SeekDay(c: Clock, s: Schedule, t0: int, added0: bool, ghost w: Window)
    returns (t: int, added: bool, wrapped: bool)
    requires c.Lawful() && Searching(c, s, w, t0, added0) && c.Year(t0) <= w.yearLimit
    requires MonthMatches(c, s, t0)
    ensures Searching(c, s, w, t, added) && t0 <= t
    ensures if wrapped then t0 < t else c.Year(t) <= w.yearLimit && MatchesToDay(c, s, t)
  {
    t, added := t0, added0;
    while !DayMatches(c, s, t)
      invariant t0 <= t && Searching(c, s, w, t, added) && c.Year(t) <= w.yearLimit && MonthMatches(c, s, t)
      decreases w.end - t
    {
      DayAdvance(c, s, w, t, added);
      if !added {
        added := true;
        t := c.write(Civil(c.Year(t), c.Month(t), c.Day(t), 0, 0, 0));
      }
      t := t + 86400;
      if c.Day(t) == 1 {
        return t, added, true;
      }
    }
    wrapped := false;
  }

  method SeekHour(c: Clock, s: Schedule, t0: int, added0: bool, ghost w: Window)
    returns (t: int, added: bool, wrapped: bool)
    requires c.Lawful() && Searching(c, s, w, t0, added0) && c.Year(t0) <= w.yearLimit
    requires MatchesToDay(c, s, t0)
    ensures Searching(c, s, w, t, added) && t0 <= t
    ensures if wrapped then t0 < t else c.Year(t) <= w.yearLimit && MatchesToHour(c, s, t)
  {
    t, added := t0, added0;
    while !HourMatches(c, s, t)
      invariant t0 <= t && Searching(c, s, w, t, added) && c.Year(t) <= w.yearLimit && MatchesToDay(c, s, t)
      decreases w.end - t
    {
      HourAdvance(c, s, w, t, added);
      if !added {
        added := true;
        t := c.write(Civil(c.Year(t), c.Month(t), c.Day(t), c.Hour(t), 0, 0));
      }
      t := t + 3600;
      if c.Hour(t) == 0 {
        return t, added, true;
      }
    }
    wrapped := false;
  }

  method SeekMinute(c: Clock, s: Schedule, t0: int, added0: bool, ghost w: Window)
    returns (t: int, added: bool, wrapped: bool)
    requires c.Lawful() && Searching(c, s, w, t0, added0) && c.Year(t0) <= w.yearLimit
    requires MatchesToHour(c, s, t0)
    ensures Searching(c, s, w, t, added) && t0 <= t
    ensures if wrapped then t0 < t else c.Year(t) <= w.yearLimit && MatchesToMinute(c, s, t)
  {
    t, added := t0, added0;
    while !MinuteMatches(c, s, t)
      invariant t0 <= t && Searching(c, s, w, t, added) && c.Year(t) <= w.yearLimit && MatchesToHour(c, s, t)
      decreases w.end - t
    {
      MinuteAdvance(c, s, w, t, added);
      if !added {
        added := true;
        t := c.write(Civil(c.Year(t), c.Month(t), c.Day(t), c.Hour(t), c.Minute(t), 0));
      }
      t := t + 60;
      if c.Minute(t) == 0 {
        return t, added, true;
      }
    }
    wrapped := false;
  }

  method SeekSecond(c: Clock, s: Schedule, t0: int, added0: bool, ghost w: Window)
    returns (t: int, added: bool, wrapped: bool)
    requires c.Lawful() && Searching(c, s, w, t0, added0) && c.Year(t0) <= w.yearLimit
    requires MatchesToMinute(c, s, t0)
    ensures Searching(c, s, w, t, added) && t0 <= t
    ensures if wrapped then t0 < t else c.Year(t) <= w.yearLimit && Matches(c, s, t)
  {
    t, added := t0, added0;
    while !SecondMatches(c, s, t)
      invariant t0 <= t && Searching(c, s, w, t, added) && c.Year(t) <= w.yearLimit && MatchesToMinute(c, s, t)
      decreases w.end - t
    {
      SecondAdvance(c, s, w, t, added);
      if !added {
        added := true;
        t := c.write(Civil(c.Year(t), c.Month(t), c.Day(t), c.Hour(t), c.Minute(t), c.Second(t)));
      }
      t := t + 1;
      if c.Second(t) == 0 {
        return t, added, true;
      }
    }
    wrapped := false;
  }

  /** Schedule.Next, for a clock of uniform days. The loop is the WRAP label; a field search that
      wraps around continues there. */
  method Next(c: Clock, s: Schedule, nanos: int) returns (r: Option<int>)
    requires c.Lawful()
    ensures r == NextTime(c, s, nanos)
  {
    var t := UpcomingSecond(nanos);
    var added, wrapped := false, false;
    var yearLimit := c.Year(t) + 5;
    ghost var w := Window(t, c.YearEnd(yearLimit), yearLimit);
    YearBound(c, t, yearLimit);
    while true
      invariant Searching(c, s, w, t, added)
      decreases w.end - t
    {
      YearBound(c, t, yearLimit);
      if c.Year(t) > yearLimit {
        FirstHitIsUnique(c, s, w, t, None);
        return None;
      }
      t, added, wrapped := SeekMonth(c, s, t, added, w);
      if wrapped { continue; }
      t, added, wrapped := SeekDay(c, s, t, added, w);
      if wrapped { continue; }
      t, added, wrapped := SeekHour(c, s, t, added, w);
      if wrapped { continue; }
      t, added, wrapped := SeekMinute(c, s, t, added, w);
      if wrapped { continue; }
      t, added, wrapped := SeekSecond(c, s, t, added, w);
      if wrapped { continue; }
      YearBound(c, t, yearLimit);
      FirstHitIsUnique(c, s, w, t, Some(t));
      return Some(t);
    }
  }

  lemma FirstHitIsUnique(c: Clock, s: Schedule, w: Window, t: int, r: Option<int>)
    requires w.start <= t <= w.end && Quiet(c, s, w.start, t)
    requires r == if t < w.end then Some(t) else None
    requires r.Some? ==> Matches(c, s, t)
    ensures r == FirstHit(u => Matches(c, s, u), w.start, w.end)
  {
    var p := (u: int) => Matches(c, s, u);
    var h := FirstHit(p, w.start, w.end);
    assert r.Some? ==> p(t);
    assert h.Some? ==> p(h.value);
  }

  lemma YearBound(c: Clock, t: int, y: int)
    requires c.Lawful()
    ensures c.Year(t) <= y <==> t < c.YearEnd(y)
  {
    assert c.LawfulAt(t) && c.YearLaw(t, y);
  }

  /** What the search returns: the earliest whole second strictly after the given instant at which
      all fields match, and nothing exactly when no second up to the end of the fifth following
      year matches. */
  lemma NextTimeIsEarliest(c: Clock, s: Schedule, nanos: int)
    requires c.Lawful()
    ensures var r, limit := NextTime(c, s, nanos), c.Year(UpcomingSecond(nanos)) + 5;
      && (r.Some? ==>
            && nanos < r.value * NANOSECONDS && Matches(c, s, r.value) && c.Year(r.value) <= limit
            && forall u :: nanos < u * NANOSECONDS && u < r.value ==> !Matches(c, s, u))
      && (r.None? <==> forall u :: nanos < u * NANOSECONDS && c.Year(u) <= limit ==> !Matches(c, s, u))
  {
    var p := (u: int) => Matches(c, s, u);
    var r, limit := NextTime(c, s, nanos), c.Year(UpcomingSecond(nanos)) + 5;
    forall u | nanos < u * NANOSECONDS && Matches(c, s, u)
      ensures (r.Some? && r.value <= u) || (r.None? && c.Year(u) > limit)
    {
      assert p(u) && UpcomingSecond(nanos) <= u;
      YearBound(c, u, limit);
    }
    if r.Some? {
      assert p(r.value);
      YearBound(c, r.value, limit);
    }
  }
}
