/** The asynchronous logger as a step system: producers, the goroutine of startLogger, and one caller
    of Flush and Close. */
module AsyncLogger {

  type Message = nat

  datatype Signal = FlushSignal | CloseSignal

  // Where startLogger stands. Flushing is the loop of flush; Flushed is after it, with the outputs
  // flushed (and destroyed on a close) but wg.Done still to come.
  datatype Consumer =
    | Selecting
    | Writing(m: Message)
    | Flushing(sg: Signal)
    | FlushWriting(sg: Signal, m: Message)
    | Flushed(sg: Signal)
    | GameOver

  // Where the caller of Flush or Close stands; before is what had been enqueued when it called.
  datatype Caller =
    | Idle
    | Calling(sg: Signal, before: seq<Message>)
    | Waiting(sg: Signal, before: seq<Message>)
    | Waited(sg: Signal, before: seq<Message>)
    | Returned(sg: Signal, before: seq<Message>)

  datatype State = State(
    capacity: nat,
    enqueued: seq<Message>,   // every message ever sent to msgChan, in order
    queue: seq<Message>,      // msgChan
    written: seq<Message>,    // what the outputs have received
    signals: seq<Signal>,     // signalChan, of capacity one
    wg: int,
    consumer: Consumer,
    caller: Caller,
    closed: bool)             // msgChan has been closed

  // Async: the wait group starts at one.
  predicate Init(s: State) {
    s.enqueued == [] && s.queue == [] && s.written == [] && s.signals == [] && s.wg == 1 &&
    s.consumer == Selecting && s.caller == Idle && !s.closed
  }

  // ---- steps ----

  datatype Step =
    | Enqueue(m: Message)
    | Take | Write | Receive | FlushTake | FlushWrite | FlushEnd | Done
    | Call(sg: Signal) | Send | Wait | Finish | Forget

  predicate Enabled(s: State, step: Step) {
    match step
    case Enqueue(_) => !s.closed && |s.queue| < s.capacity
    case Take => s.consumer == Selecting && s.queue != []
    case Write => s.consumer.Writing?
    case Receive => s.consumer == Selecting && s.signals != []
    case FlushTake => s.consumer.Flushing? && s.queue != []
    case FlushWrite => s.consumer.FlushWriting?
    case FlushEnd => s.consumer.Flushing? && s.queue == []
    case Done => s.consumer.Flushed?
    case Call(_) => s.caller == Idle
    case Send => s.caller.Calling? && s.signals == []
    case Wait => s.caller.Waiting? && s.wg == 0
    case Finish => s.caller.Waited?
    case Forget => s.caller.Returned? && s.caller.sg.FlushSignal?
  }

  function Apply(s: State, step: Step): State
    requires Enabled(s, step)
  {
    match step
    case Enqueue(m) => s.(enqueued := s.enqueued + [m], queue := s.queue + [m])
    case Take => s.(queue := s.queue[1..], consumer := Writing(s.queue[0]))
    case Write => s.(written := s.written + [s.consumer.m], consumer := Selecting)
    case Receive => s.(signals := s.signals[1..], consumer := Flushing(s.signals[0]))
    case FlushTake => s.(queue := s.queue[1..], consumer := FlushWriting(s.consumer.sg, s.queue[0]))
    case FlushWrite => s.(written := s.written + [s.consumer.m], consumer := Flushing(s.consumer.sg))
    case FlushEnd => s.(consumer := Flushed(s.consumer.sg))
    case Done => s.(wg := s.wg - 1, consumer := if s.consumer.sg.CloseSignal? then GameOver else Selecting)
    case Call(sg) => s.(caller := Calling(sg, s.enqueued))
    case Send => s.(signals := [s.caller.sg], caller := Waiting(s.caller.sg, s.caller.before))
    case Wait => s.(caller := Waited(s.caller.sg, s.caller.before))
    case Finish =>
      // Flush adds one to the wait group again, Close closes the channel
      if s.caller.sg.FlushSignal? then s.(wg := s.wg + 1, caller := Returned(s.caller.sg, s.caller.before))
      else s.(closed := true, caller := Returned(s.caller.sg, s.caller.before))
    case Forget => s.(caller := Idle)
  }

  // A run from the state that Async leaves.
  ghost predicate Run(states: seq<State>, steps: seq<Step>) {
    && |states| == |steps| + 1 && Init(states[0])
    && forall i | 0 <= i < |steps| :: StepAt(states, steps, i)
  }

  ghost predicate StepAt(states: seq<State>, steps: seq<Step>, i: nat)
    requires |states| == |steps| + 1 && i < |steps|
  {
    Enabled(states[i], steps[i]) && states[i + 1] == Apply(states[i], steps[i])
  }

  // The messages that the producers have sent, in order.
  function Sent(steps: seq<Step>): seq<Message> {
    if steps == [] then []
    else
      var n := |steps| - 1;
      Sent(steps[..n]) + if steps[n].Enqueue? then [steps[n].m] else []
  }

  // ---- the invariant ----

  function InHand(c: Consumer): seq<Message> {
    if c.Writing? || c.FlushWriting? then [c.m] else []
  }

  predicate Handling(c: Consumer) {
    c.Flushing? || c.FlushWriting? || c.Flushed?
  }

  // Nothing is lost, doubled or reordered.
  ghost predicate Conserved(s: State) {
    s.written + InHand(s.consumer) + s.queue == s.enqueued
  }

  // What the caller waits for is written once the consumer has finished its flush loop.
  ghost predicate CallerOk(s: State) {
    match s.caller
    case Idle => s.wg == 1 && s.signals == [] && !Handling(s.consumer) && s.consumer != GameOver
    case Calling(_, before) =>
      && before <= s.enqueued && s.wg == 1 && s.signals == []
      && !Handling(s.consumer) && s.consumer != GameOver
    case Waiting(sg, before) =>
      && before <= s.enqueued
      && (if s.signals != [] then s.signals == [sg] && s.wg == 1 && !Handling(s.consumer) && s.consumer != GameOver
          else if Handling(s.consumer) then
            s.wg == 1 && s.consumer.sg == sg && (s.consumer.Flushed? ==> before <= s.written)
          else s.wg == 0 && before <= s.written && (s.consumer == GameOver <==> sg.CloseSignal?))
    case Waited(sg, before) =>
      && before <= s.written && s.wg == 0 && s.signals == [] && !Handling(s.consumer)
      && (s.consumer == GameOver <==> sg.CloseSignal?)
    case Returned(sg, before) =>
      && before <= s.written && s.signals == [] && !Handling(s.consumer)
      && s.wg == (if sg.CloseSignal? then 0 else 1) && (s.consumer == GameOver <==> sg.CloseSignal?)
  }

  ghost predicate Inv(s: State) {
    && Conserved(s) && CallerOk(s) && |s.queue| <= s.capacity
    && (s.closed ==> s.caller.Returned? && s.caller.sg.CloseSignal?)
  }

  lemma InitInv(s: State)
    requires Init(s)
    ensures Inv(s)
  {
  }

  lemma StepConserves(s: State, step: Step)
    requires Conserved(s) && Enabled(s, step)
    ensures Conserved(Apply(s, step))
  {
    match step
    case Enqueue(m) =>
      assert s.written + InHand(s.consumer) + (s.queue + [m]) == s.enqueued + [m];
    case Take =>
      assert s.queue == [s.queue[0]] + s.queue[1..];
    case FlushTake =>
      assert s.queue == [s.queue[0]] + s.queue[1..];
    case _ =>
  }

  lemma StepInv(s: State, step: Step)
    requires Inv(s) && Enabled(s, step)
    ensures Inv(Apply(s, step))
  {
    StepConserves(s, step);
  }

  lemma {:induction false} RunInv(states: seq<State>, steps: seq<Step>, i: nat)
    requires Run(states, steps) && i < |states|
    ensures Inv(states[i])
  {
    if i == 0 {
      InitInv(states[0]);
    } else {
      RunInv(states, steps, i - 1);
      assert StepAt(states, steps, i - 1);
      StepInv(states[i - 1], steps[i - 1]);
    }
  }

  lemma {:induction false} EnqueuedIsSent(states: seq<State>, steps: seq<Step>, i: nat)
    requires Run(states, steps) && i < |states|
    ensures states[i].enqueued == Sent(steps[..i])
  {
    if i > 0 {
      EnqueuedIsSent(states, steps, i - 1);
      assert steps[..i][..i - 1] == steps[..i - 1];
      assert StepAt(states, steps, i - 1);
    }
  }

  // ---- the promises, for every interleaving ----

  /** At every moment the messages written, the one in hand and the queue make up exactly what the producers have
      sent, in order, and the wait group is 0 or 1. */
  lemma NothingLostOrDoubled(states: seq<State>, steps: seq<Step>, i: nat)
    requires Run(states, steps) && i < |states|
    ensures states[i].written + InHand(states[i].consumer) + states[i].queue == Sent(steps[..i])
    ensures states[i].wg in {0, 1}
  {
    RunInv(states, steps, i);
    EnqueuedIsSent(states, steps, i);
  }

  /** When Flush or Close returns, everything sent before the call has been written, in order. */
  lemma ReturnMeansWritten(states: seq<State>, steps: seq<Step>, i: nat, j: nat)
    requires Run(states, steps) && i < j < |steps| && steps[i].Call? && steps[j] == Finish
    requires forall k | i < k < j :: !steps[k].Call?
    ensures Sent(steps[..i]) <= states[j + 1].written
  {
    RunInv(states, steps, j);
    assert StepAt(states, steps, j);
    EnqueuedIsSent(states, steps, i);
    CallRemembered(states, steps, i, j);
  }

  // The flush loop of a close has ended.
  predicate Ending(s: State) {
    s.consumer == GameOver || s.consumer == Flushed(CloseSignal)
  }

  lemma EndingStays(s: State, step: Step)
    requires Inv(s) && Enabled(s, step) && Ending(s)
    ensures var u := Apply(s, step);
      Ending(u) && u.written == s.written && u.queue == s.queue + if step.Enqueue? then [step.m] else []
  {
  }

  lemma NextIsEnding(states: seq<State>, steps: seq<Step>, i: nat)
    requires Run(states, steps) && i < |steps| && Ending(states[i])
    ensures var s, u, step := states[i], states[i + 1], steps[i];
      Ending(u) && u.written == s.written && u.queue == s.queue + if step.Enqueue? then [step.m] else []
  {
    RunInv(states, steps, i);
    assert StepAt(states, steps, i);
    EndingStays(states[i], steps[i]);
  }

  lemma LoopEnds(states: seq<State>, steps: seq<Step>, f: nat)
    requires Run(states, steps) && f < |steps| && steps[f] == FlushEnd && states[f].consumer == Flushing(CloseSignal)
    ensures var u := states[f + 1]; u.written == Sent(steps[..f]) && u.queue == [] && Ending(u)
  {
    NothingLostOrDoubled(states, steps, f);
    assert StepAt(states, steps, f);
  }

  lemma SentOneMore(steps: seq<Step>, a: nat, i: nat)
    requires a < i <= |steps|
    ensures Sent(steps[a..i]) == Sent(steps[a..i - 1]) + if steps[i - 1].Enqueue? then [steps[i - 1].m] else []
  {
    assert steps[a..i][..i - a - 1] == steps[a..i - 1];
  }

  /** What is sent while a close is under way is written exactly up to the end of its flush loop: everything behind
      that stays in the channel for ever. */
  lemma {:induction false} LateMessagesAreLost(states: seq<State>, steps: seq<Step>, f: nat, i: nat)
    requires Run(states, steps) && f < i < |states|
    requires steps[f] == FlushEnd && states[f].consumer == Flushing(CloseSignal)
    ensures states[i].written == Sent(steps[..f]) && states[i].queue == Sent(steps[f + 1..i]) && Ending(states[i])
  {
    if i == f + 1 {
      LoopEnds(states, steps, f);
      assert steps[f + 1..i] == [];
    } else {
      LateMessagesAreLost(states, steps, f, i - 1);
      NextIsEnding(states, steps, i - 1);
      SentOneMore(steps, f + 1, i);
    }
  }

  /** After a close has returned nothing is taken on any more. */
  lemma {:induction false} ClosedForGood(states: seq<State>, steps: seq<Step>, j: nat, i: nat)
    requires Run(states, steps) && j < i < |states| && steps[j] == Finish
    requires states[j].caller.Waited? && states[j].caller.sg == CloseSignal
    ensures states[i].closed && forall m :: !Enabled(states[i], Enqueue(m))
  {
    assert StepAt(states, steps, i - 1);
    if i > j + 1 {
      ClosedForGood(states, steps, j, i - 1);
    }
  }

  lemma {:induction false} CallRemembered(states: seq<State>, steps: seq<Step>, i: nat, j: nat)
    requires Run(states, steps) && i < j < |states| && steps[i].Call?
    requires forall k | i < k < j :: !steps[k].Call?
    ensures states[j].caller.Idle? || states[j].caller.before == states[i].enqueued
  {
    if j > i + 1 {
      CallRemembered(states, steps, i, j - 1);
    }
    assert StepAt(states, steps, j - 1);
  }

  /** Up to the end of a close, whatever is still queued can be written: the consumer is not over
      before the close was handled, so no message is stuck by an earlier flush. */
  lemma AliveUntilClose(states: seq<State>, steps: seq<Step>, i: nat)
    requires Run(states, steps) && i < |states|
    requires states[i].caller.Idle? || !states[i].caller.sg.CloseSignal?
    ensures states[i].consumer != GameOver && !states[i].closed
  {
    RunInv(states, steps, i);
  }

  // ---- progress ----

  // The steps of the consumer and of a call in progress.
  predicate Internal(step: Step) {
    !step.Enqueue? && !step.Call? && !step.Forget?
  }

  function Rank(s: State): nat {
    2 * |s.queue| + |InHand(s.consumer)| +
    match s.caller
    case Idle => 0
    case Calling(_, _) => 8
    case Waiting(_, _) =>
      if s.signals != [] then 7 else if s.consumer.Flushed? then 5 else if Handling(s.consumer) then 6 else 4
    case Waited(_, _) => 3
    case Returned(_, _) => 0
  }

  /** A call in progress is never stuck, and while no message is enqueued every step brings its
      return nearer. */
  lemma CallMakesProgress(s: State)
    requires Inv(s)
    ensures !s.caller.Idle? && !s.caller.Returned? ==> exists step :: Internal(step) && Enabled(s, step)
    ensures forall step | Internal(step) && Enabled(s, step) :: Rank(Apply(s, step)) < Rank(s)
  {
    if s.caller.Calling? {
      assert Internal(Send) && Enabled(s, Send);
    } else if s.caller.Waited? {
      assert Internal(Finish) && Enabled(s, Finish);
    } else if s.caller.Waiting? {
      var step := if s.wg == 0 then Wait
                  else match s.consumer
                       case Selecting => Receive
                       case Writing(_) => Write
                       case Flushing(_) => if s.queue == [] then FlushEnd else FlushTake
                       case FlushWriting(_, _) => FlushWrite
                       case Flushed(_) => Done
                       case GameOver => Wait;
      assert Internal(step) && Enabled(s, step);
    }
  }
}
