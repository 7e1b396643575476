/** The firing loop of the task scheduler: run, MapSorter and the Next/Prev bookkeeping of a task. */
module TaskRunner {
  import opened Wrappers
  import opened Clocks
  import opened Schedules

  // A task's schedule and what changes of it.
  datatype Status = Status(schedule: Schedule, next: Option<int>, prev: Option<int>, fired: seq<int>)

  class Task {
    const schedule: Schedule
    var next: Option<int>   // None is the zero time
    var prev: Option<int>
    ghost var fired: seq<int>  // the instants the task was run for since the last change of the task list

    constructor (s: Schedule)
      ensures schedule == s && next == None && prev == None && fired == []
    {
      schedule := s;
      next := None;
      prev := None;
      fired := [];
    }

    ghost function Snapshot(): Status
      reads this
    {
      Status(schedule, next, prev, fired)
    }

    method SetNext(c: Clock, nanos: int)
      requires c.Lawful()
      modifies this`next
      ensures next == NextTime(c, schedule, nanos)
    {
      next := Next(c, schedule, nanos);
    }
  }

  // ---- iterates of Next ----

  // The last instant of a run, in nanoseconds, or its start.
  function Latest(start: int, fired: seq<int>): int {
    if fired == [] then start else fired[|fired| - 1] * NANOSECONDS
  }

  // Each instant is the next one after its predecessor.
  ghost predicate Chain(c: Clock, s: Schedule, start: int, fired: seq<int>) {
    if fired == [] then true
    else
      var n := |fired| - 1;
      Chain(c, s, start, fired[..n]) && NextTime(c, s, Latest(start, fired[..n])) == Some(fired[n])
  }

  lemma ChainExtends(c: Clock, s: Schedule, start: int, fired: seq<int>, at: int)
    requires Chain(c, s, start, fired) && NextTime(c, s, Latest(start, fired)) == Some(at)
    ensures Chain(c, s, start, fired + [at])
  {
    assert (fired + [at])[..|fired|] == fired;
  }

  ghost predicate Increasing(times: seq<int>) {
    forall i, j | 0 <= i < j < |times| :: times[i] < times[j]
  }

  // The seconds after the start, up to the latest one, that match.
  ghost predicate Due(c: Clock, s: Schedule, start: int, latest: int, u: int) {
    start < u * NANOSECONDS && u * NANOSECONDS <= latest && Matches(c, s, u)
  }

  lemma ChainStep(c: Clock, s: Schedule, start: int, latest: int, at: int, u: int)
    requires c.Lawful() && start <= latest && NextTime(c, s, latest) == Some(at)
    ensures latest < at * NANOSECONDS
    ensures Due(c, s, start, at * NANOSECONDS, u) <==> Due(c, s, start, latest, u) || u == at
  {
    NextTimeIsEarliest(c, s, latest);
  }

  lemma {:induction false} ChainPrefix(c: Clock, s: Schedule, start: int, fired: seq<int>, j: nat)
    requires Chain(c, s, start, fired) && j < |fired|
    ensures Chain(c, s, start, fired[..j]) && NextTime(c, s, Latest(start, fired[..j])) == Some(fired[j])
  {
    var n := |fired| - 1;
    if j < n {
      ChainPrefix(c, s, start, fired[..n], j);
      assert fired[..n][..j] == fired[..j];
    }
  }

  lemma {:induction false} ChainHits(c: Clock, s: Schedule, start: int, fired: seq<int>, u: int)
    requires c.Lawful() && Chain(c, s, start, fired)
    ensures start <= Latest(start, fired)
    ensures u in fired <==> Due(c, s, start, Latest(start, fired), u)
  {
    if fired != [] {
      var n := |fired| - 1;
      ChainHits(c, s, start, fired[..n], u);
      ChainStep(c, s, start, Latest(start, fired[..n]), fired[n], u);
      assert fired == fired[..n] + [fired[n]];
    }
  }

  lemma ChainIncreases(c: Clock, s: Schedule, start: int, fired: seq<int>, i: nat, j: nat)
    requires c.Lawful() && Chain(c, s, start, fired) && i < j < |fired|
    ensures fired[i] < fired[j]
  {
    ChainPrefix(c, s, start, fired, j);
    assert fired[..j][i] == fired[i];
    ChainHits(c, s, start, fired[..j], fired[i]);
    ChainStep(c, s, start, Latest(start, fired[..j]), fired[j], fired[i]);
  }

  /** The iterates of Next are exactly the matching seconds: strictly increasing, none skipped, none repeated. */
  lemma ChainIsComplete(c: Clock, s: Schedule, start: int, fired: seq<int>)
    requires c.Lawful() && Chain(c, s, start, fired)
    ensures start <= Latest(start, fired) && Increasing(fired)
    ensures forall u :: u in fired <==> Due(c, s, start, Latest(start, fired), u)
  {
    ChainHits(c, s, start, fired, 0);
    forall u ensures u in fired <==> Due(c, s, start, Latest(start, fired), u) {
      ChainHits(c, s, start, fired, u);
    }
    forall i, j | 0 <= i < j < |fired| ensures fired[i] < fired[j] {
      ChainIncreases(c, s, start, fired, i, j);
    }
  }

  // ---- MapSorter ----

  // MapSorter.Less on the next times: the zero time comes last.
  predicate Before(a: Option<int>, b: Option<int>) {
    a.Some? && (b.None? || a.value < b.value)
  }

  predicate Less(a: Task, b: Task)
    reads a, b
  {
    Before(a.next, b.next)
  }

  ghost predicate Sorted(vals: seq<Task>)
    reads vals
  {
    forall i, j | 0 <= i < j < |vals| :: !Less(vals[j], vals[i])
  }

  ghost predicate Distinct(vals: seq<Task>) {
    forall i, j | 0 <= i < j < |vals| :: vals[i] != vals[j]
  }

  method Insert(vals: seq<Task>, t: Task) returns (r: seq<Task>)
    requires Sorted(vals)
    ensures Sorted(r) && multiset(r) == multiset(vals) + multiset{t}
  {
    var k := |vals|;
    while k > 0 && Less(t, vals[k - 1])
      invariant 0 <= k <= |vals|
      invariant forall i | k <= i < |vals| :: !Less(vals[i], t)
    {
      k := k - 1;
    }
    assert forall i | 0 <= i < k :: !Less(t, vals[i]) by {
      assert forall i | 0 <= i < k - 1 :: !Less(vals[k - 1], vals[i]);
    }
    r := vals[..k] + [t] + vals[k..];
    SpliceSorted(vals, t, k);
    SpliceMembers(vals, t, k);
  }

  lemma SpliceMembers(vals: seq<Task>, t: Task, k: nat)
    requires k <= |vals|
    ensures multiset(vals[..k] + [t] + vals[k..]) == multiset(vals) + multiset{t}
  {
    assert vals == vals[..k] + vals[k..];
  }

  lemma SpliceSorted(vals: seq<Task>, t: Task, k: nat)
    requires k <= |vals| && Sorted(vals)
    requires forall i | k <= i < |vals| :: !Less(vals[i], t)
    requires forall i | 0 <= i < k :: !Less(t, vals[i])
    ensures Sorted(vals[..k] + [t] + vals[k..])
  {
    var r := vals[..k] + [t] + vals[k..];
    forall i, j | 0 <= i < j < |r| ensures !Less(r[j], r[i]) {
      assert i < k ==> r[i] == vals[i];
      assert i > k ==> r[i] == vals[i - 1];
      assert j < k ==> r[j] == vals[j];
      assert j > k ==> r[j] == vals[j - 1];
    }
  }

  method Sort(tasks: seq<Task>) returns (r: seq<Task>)
    requires Distinct(tasks)
    ensures Sorted(r) && Distinct(r) && forall t :: t in r <==> t in tasks
  {
    r := [];
    for k := 0 to |tasks|
      invariant Sorted(r) && multiset(r) == multiset(tasks[..k])
    {
      assert tasks[..k + 1] == tasks[..k] + [tasks[k]];
      r := Insert(r, tasks[k]);
    }
    assert tasks[..|tasks|] == tasks;
    SameMembers(tasks, r);
    DistinctPermutation(tasks, r);
  }

  // ---- run ----

  // A task has run for Next(start), Next(Next(start)), ..., each at a step of the run, and waits for
  // the instant after these, which is later than every step so far.
  ghost predicate Steady(t: Status, c: Clock, start: int, times: seq<int>) {
    && Chain(c, t.schedule, start, t.fired)
    && t.next == NextTime(c, t.schedule, Latest(start, t.fired))
    && (t.fired != [] ==> t.prev == Some(t.fired[|t.fired| - 1]))
    && (forall u | u in t.fired :: u in times)
    && (times != [] && t.next.Some? ==> times[|times| - 1] < t.next.value)
  }

  ghost predicate AllSteady(tasks: seq<Task>, c: Clock, start: int, times: seq<int>)
    reads tasks
  {
    forall t | t in tasks :: Steady(t.Snapshot(), c, start, times)
  }

  // No step of a run is idle: some task has run for it.
  ghost predicate NoneIdle(tasks: seq<Task>, times: seq<int>)
    reads tasks
  {
    forall u | u in times :: exists t :: t in tasks && u in t.fired
  }

  // What one timer step for the given instant does to a task.
  ghost function Fired(t: Status, c: Clock, at: int): Status {
    if t.next == Some(at) then
      Status(t.schedule, NextTime(c, t.schedule, at * NANOSECONDS), Some(at), t.fired + [at])
    else
      t
  }

  lemma DueComeFirst(vals: seq<Task>, at: int)
    requires Sorted(vals) && (vals != [] ==> vals[0].next == Some(at))
    ensures forall i, j | 0 <= i <= j < |vals| && vals[j].next == Some(at) :: vals[i].next == Some(at)
  {
    forall i, j | 0 <= i <= j < |vals| && vals[j].next == Some(at) ensures vals[i].next == Some(at) {
      if 0 < i < j {
        assert !Less(vals[j], vals[i]) && !Less(vals[i], vals[0]);
      }
    }
  }

  /** The loop over the sorted tasks: run every task whose next time is the effective time, stop at
      the first one that waits for something else. */
  method FireDue(c: Clock, vals: seq<Task>, effective: int)
    requires c.Lawful() && Distinct(vals) && Sorted(vals)
    requires vals != [] ==> vals[0].next == Some(effective)
    modifies vals
    ensures forall t | t in vals :: t.Snapshot() == Fired(old(t.Snapshot()), c, effective)
  {
    DueComeFirst(vals, effective);
    var k := 0;
    while k < |vals|
      invariant 0 <= k <= |vals|
      invariant forall i | 0 <= i < k ::
        old(vals[i].next) == Some(effective) && vals[i].Snapshot() == Fired(old(vals[i].Snapshot()), c, effective)
      invariant forall i | k <= i < |vals| :: vals[i].Snapshot() == old(vals[i].Snapshot())
    {
      var e := vals[k];
      if e.next != Some(effective) {
        break;
      }
      e.fired := e.fired + [effective];  // go e.Run()
      e.prev := e.next;
      e.SetNext(c, effective * NANOSECONDS);
      k := k + 1;
    }
  }

  // Sort the tasks and run the ones that come first; None stands for a timer with nothing to run.
  method FireEarliest(c: Clock, tasks: seq<Task>) returns (effective: Option<int>)
    requires c.Lawful() && Distinct(tasks)
    modifies tasks
    ensures effective.None? ==> unchanged(tasks) && forall t | t in tasks :: t.next == None
    ensures effective.Some? ==> forall t | t in tasks ::
      && t.Snapshot() == Fired(old(t.Snapshot()), c, effective.value)
      && (old(t.next).Some? ==> effective.value <= old(t.next).value)
    ensures effective.Some? ==> exists t :: t in tasks && old(t.next) == effective
  {
    var vals := Sort(tasks);
    assert forall i | 0 <= i < |vals| :: vals[i] in tasks;
    assert forall i | 0 < i < |vals| :: !Less(vals[i], vals[0]);
    if |vals| == 0 || vals[0].next.None? {
      return None;
    }
    effective := vals[0].next;
    FireDue(c, vals, effective.value);
  }

  // The same, for the tasks of a run: they stay in step.
  method FireInStep(c: Clock, tasks: seq<Task>, ghost start: int, ghost times: seq<int>)
    returns (effective: Option<int>)
    requires c.Lawful() && Distinct(tasks) && Increasing(times)
    requires AllSteady(tasks, c, start, times) && NoneIdle(tasks, times)
    modifies tasks
    ensures effective.None? ==> unchanged(tasks) && forall t | t in tasks :: t.next == None
    ensures effective.Some? ==> forall t | t in tasks :: t.Snapshot() == Fired(old(t.Snapshot()), c, effective.value)
    ensures effective.Some? ==>
      Increasing(times + [effective.value]) && AllSteady(tasks, c, start, times + [effective.value])
    ensures effective.Some? ==> NoneIdle(tasks, times + [effective.value])
  {
    ghost var before := map t | t in tasks :: t.Snapshot();
    effective := FireEarliest(c, tasks);
    if effective.Some? {
      ghost var due :| due in tasks && before[due].next == effective;
      FiringKeepsSteady(tasks, before, c, start, times, effective.value, due);
      FiringIsNotIdle(tasks, before, c, times, effective.value, due);
    }
  }

  /** The state of run between two changes of the task list: start is the instant of the last change. */
  class Runner {
    const clock: Clock
    const start: int
    const tasks: seq<Task>
    ghost var times: seq<int>  // the effective times of the steps that ran something

    ghost predicate Valid()
      reads this, tasks
    {
      && clock.Lawful() && Distinct(tasks)
      && Increasing(times) && AllSteady(tasks, clock, start, times) && NoneIdle(tasks, times)
    }

    /** The first lines of run, and its handling of changed: every task is set to its next time, whether it has
        run before or not. */
    constructor (c: Clock, now: int, all: seq<Task>)
      requires c.Lawful() && Distinct(all)
      modifies all
      ensures Valid() && clock == c && start == now && tasks == all && times == []
      ensures forall t | t in all :: t.prev == old(t.prev) && t.fired == []
    {
      clock, start, tasks, times := c, now, all, [];
      new;
      for k := 0 to |all|
        modifies all
        invariant forall t | t in all :: t.prev == old(t.prev)
        invariant forall i | 0 <= i < k :: all[i].fired == [] && all[i].next == NextTime(c, all[i].schedule, now)
      {
        all[k].SetNext(c, now);
        all[k].fired := [];
      }
    }

    /** One expiry of the timer. However late it comes, the tasks that are due run for the instant
        they were waiting for and are then set to the instant after that one. */
    method TimerStep() returns (effective: Option<int>)
      requires Valid()
      modifies this, tasks
      ensures Valid()
      ensures effective.None? ==> unchanged(this, tasks) && forall t | t in tasks :: t.next == None
      ensures effective.Some? ==> times == old(times) + [effective.value]
      ensures effective.Some? ==>
        forall t | t in tasks :: t.Snapshot() == Fired(old(t.Snapshot()), clock, effective.value)
    {
      effective := FireInStep(clock, tasks, start, times);
      if effective.Some? {
        times := times + [effective.value];
      }
    }
  }

  lemma FiringKeepsSteady(tasks: seq<Task>, before: map<Task, Status>, c: Clock, start: int, times: seq<int>,
                          at: int, due: Task)
    requires Increasing(times) && due in tasks && due in before && before[due].next == Some(at)
    requires forall t | t in tasks :: t in before && Steady(before[t], c, start, times)
    requires forall t | t in tasks :: t.Snapshot() == Fired(before[t], c, at)
    requires forall t | t in tasks && before[t].next.Some? :: at <= before[t].next.value
    ensures Increasing(times + [at]) && AllSteady(tasks, c, start, times + [at])
  {
    StepIsLater(before[due], c, start, times, at);
    forall t | t in tasks ensures Steady(t.Snapshot(), c, start, times + [at]) {
      if before[t].next == Some(at) {
        SteadyFires(before[t], c, start, times, at);
      } else {
        SteadyWaits(before[t], c, start, times, at);
      }
    }
  }

  lemma FiringIsNotIdle(tasks: seq<Task>, before: map<Task, Status>, c: Clock, times: seq<int>, at: int, due: Task)
    requires due in tasks && due in before && before[due].next == Some(at)
    requires forall t | t in tasks :: t in before && t.Snapshot() == Fired(before[t], c, at)
    requires forall u | u in times :: exists t :: t in tasks && u in before[t].fired
    ensures NoneIdle(tasks, times + [at])
  {
    forall u | u in times + [at] ensures exists t :: t in tasks && u in t.fired {
      if u in times {
        var t :| t in tasks && u in before[t].fired;
        assert t.Snapshot() == Fired(before[t], c, at);
        assert u in t.fired;
      } else {
        assert due.Snapshot() == Fired(before[due], c, at);
        assert u in due.fired;
      }
    }
  }

  lemma StepIsLater(t: Status, c: Clock, start: int, times: seq<int>, at: int)
    requires Increasing(times) && Steady(t, c, start, times) && t.next == Some(at)
    ensures Increasing(times + [at])
  {
  }

  lemma SteadyFires(t: Status, c: Clock, start: int, times: seq<int>, at: int)
    requires Steady(t, c, start, times) && t.next == Some(at)
    ensures Steady(Fired(t, c, at), c, start, times + [at])
  {
    ChainExtends(c, t.schedule, start, t.fired, at);
    NextIsLater(c, t.schedule, at);
  }

  lemma SteadyWaits(t: Status, c: Clock, start: int, times: seq<int>, at: int)
    requires Steady(t, c, start, times) && (t.next.Some? ==> at < t.next.value)
    ensures Steady(t, c, start, times + [at])
  {
  }

  lemma NextIsLater(c: Clock, s: Schedule, at: int)
    ensures NextTime(c, s, at * NANOSECONDS).Some? ==> at < NextTime(c, s, at * NANOSECONDS).value
  {
    assert UpcomingSecond(at * NANOSECONDS) == at + 1;
  }

  // What run waits for: its timer, or a change of the task list at some instant.
  datatype Event = Expiry | Changed(now: int)

  function LastChange(start: int, events: seq<Event>): int {
    if events == [] then start
    else
      var n := |events| - 1;
      if events[n].Changed? then events[n].now else LastChange(start, events[..n])
  }

  // The expiries after the last change.
  function Expiries(events: seq<Event>): nat {
    if events == [] || events[|events| - 1].Changed? then 0 else Expiries(events[..|events| - 1]) + 1
  }

  /** Any sequence of timers and changes: at its end the tasks, which have run before, are on their chains from
      the last change on, and every expiry since has run something, up to the moment when no task had a next time
      left. */
  method RunEvents(c: Clock, start: int, tasks: seq<Task>, events: seq<Event>) returns (r: Runner)
    requires c.Lawful() && Distinct(tasks)
    modifies tasks
    ensures fresh(r) && r.Valid() && r.clock == c && r.tasks == tasks && r.start == LastChange(start, events)
    ensures |r.times| == Expiries(events) || (|r.times| < Expiries(events) && forall t | t in tasks :: t.next == None)
  {
    r := new Runner(c, start, tasks);
    for i := 0 to |events|
      invariant fresh(r) && r.Valid() && r.clock == c && r.tasks == tasks && r.start == LastChange(start, events[..i])
      invariant |r.times| == Expiries(events[..i])
        || (|r.times| < Expiries(events[..i]) && forall t | t in tasks :: t.next == None)
    {
      assert events[..i + 1][..i] == events[..i];
      match events[i] {
        case Expiry => var effective := r.TimerStep();
        case Changed(now) => r := new Runner(c, now, tasks);
      }
    }
    assert events[..|events|] == events;
  }

  /** At every moment of a run, a task that still has a next time has run for exactly the matching
      seconds since the start that lie before that next time; these include every matching second
      up to the latest step of the run. */
  lemma NothingMissed(r: Runner, t: Task, u: int)
    requires r.Valid() && t in r.tasks && t.next.Some? && r.start < u * NANOSECONDS && u < t.next.value
    ensures u in t.fired <==> Matches(r.clock, t.schedule, u)
    ensures r.times != [] ==> r.times[|r.times| - 1] < t.next.value
  {
    var c, s, latest := r.clock, t.schedule, Latest(r.start, t.fired);
    assert Steady(t.Snapshot(), c, r.start, r.times);
    ChainIsComplete(c, s, r.start, t.fired);
    assert u in t.fired <==> Due(c, s, r.start, latest, u);
    ChainStep(c, s, r.start, latest, t.next.value, u);
  }

  /** The steps of a run are the seconds that match a schedule: no step without a match, and no match of a task that
      still has a next time without a step. */
  lemma StepsAreMatches(r: Runner, u: int)
    requires r.Valid() && r.start < u * NANOSECONDS && r.times != [] && u <= r.times[|r.times| - 1]
    ensures u in r.times ==> exists t :: t in r.tasks && Matches(r.clock, t.schedule, u)
    ensures (exists t :: t in r.tasks && t.next.Some? && Matches(r.clock, t.schedule, u)) ==> u in r.times
  {
    if u in r.times {
      var t :| t in r.tasks && u in t.fired;
      assert Steady(t.Snapshot(), r.clock, r.start, r.times);
      ChainIsComplete(r.clock, t.schedule, r.start, t.fired);
      assert t in r.tasks && Matches(r.clock, t.schedule, u);
    }
    if t :| t in r.tasks && t.next.Some? && Matches(r.clock, t.schedule, u) {
      assert Steady(t.Snapshot(), r.clock, r.start, r.times);
      NothingMissed(r, t, u);
    }
  }

  lemma SameMembers(a: seq<Task>, b: seq<Task>)
    requires multiset(a) == multiset(b)
    ensures forall t :: t in a <==> t in b
  {
    forall t ensures t in a <==> t in b {
      assert t in a <==> t in multiset(a);
      assert t in b <==> t in multiset(b);
    }
  }

  lemma DistinctPermutation(a: seq<Task>, b: seq<Task>)
    requires Distinct(a) && multiset(a) == multiset(b)
    ensures Distinct(b)
  {
    forall i, j | 0 <= i < j < |b| ensures b[i] != b[j] {
      if b[i] == b[j] {
        TwiceInMultiset(b, i, j);
        OnceInMultiset(a, b[i]);
      }
    }
  }

  lemma TwiceInMultiset(b: seq<Task>, i: int, j: int)
    requires 0 <= i < j < |b| && b[i] == b[j]
    ensures multiset(b)[b[i]] >= 2
  {
    assert b == b[..j] + [b[j]] + b[j + 1..];
    assert b[i] in b[..j];
  }

  lemma {:induction false} OnceInMultiset(a: seq<Task>, t: Task)
    requires Distinct(a)
    ensures multiset(a)[t] <= 1
  {
    if a != [] {
      var n := |a| - 1;
      assert a == a[..n] + [a[n]];
      OnceInMultiset(a[..n], t);
      if a[n] == t {
        assert t !in a[..n];
      }
    }
  }
}
