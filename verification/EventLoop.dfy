/** src/event/eventloop.cc as atomic steps of one loop thread and any number of other threads. A step that is not
    enabled leaves the state alone, so every sequence of steps is a run. */
module EventLoops {

  type Functor = nat
  type Thread = nat

  // An eventfd refuses the write that would overflow it, and stays readable.
  const EVENTFD_MAX: nat := 0xFFFF_FFFF_FFFF_FFFE

  /** Where the loop thread is. `Idle` is outside loop(); `Dispatching(true)` has the wakeup channel among the
      active ones and has not run its handler yet; `Draining` has set `calling_` and not swapped yet; `Releasing` has
      cleared it and destroys the functors it ran, whose destructors are user code too. */
  datatype Pc = Idle | Checking | Polling | Dispatching(wake: bool) | Draining | Running | Releasing

  /** `ownPush`: the loop thread is inside queue_in_loop, between the push and the wakeup test. `pushed` and
      `quitting`: other threads between their push, or their flag write, and their wakeup_. `early`: some pending
      functor was queued by the loop thread while Unwoken. `queued` and `executed` are the histories. */
  datatype State = State(
    pc: Pc, ownPush: bool, calling: bool, quit: bool, counter: nat,
    pending: seq<Functor>, batch: seq<Functor>,
    pushed: set<Thread>, quitting: set<Thread>, early: bool,
    queued: seq<Functor>, executed: seq<Functor>)

  datatype Step =
    | Push(thread: Thread, f: Functor)   // lines 155-156 on another thread
    | Wake(thread: Thread)               // line 160 on another thread
    | SetQuit(thread: Thread)            // line 54 on another thread
    | WakeQuit(thread: Thread)           // line 57
    | OwnPush(f: Functor)                // lines 155-156 on the loop thread
    | OwnTest                            // lines 158-161 on the loop thread
    | OwnQuit                            // line 54 on the loop thread
    | Enter                              // lines 91-92
    | Check                              // line 93
    | PollReturns(wake: bool)            // line 97
    | ReadWake                           // lines 173-180
    | Dispatched                         // lines 104-105 and 185
    | Swap                               // lines 187-188
    | RunNext                            // line 193
    | Drained                            // line 195
    | Released                           // line 196

  const INITIAL := State(Idle, false, false, false, 0, [], [], {}, {}, false, [], [])

  function Written(counter: nat): nat {
    if counter < EVENTFD_MAX then counter + 1 else counter
  }

  /** Code of the loop thread that can call back into the loop: callers of loop(), handlers and functors. */
  predicate InUserCode(s: State) {
    (s.pc.Idle? || s.pc.Dispatching? || s.pc.Running? || s.pc.Releasing?) && !s.ownPush
  }

  /** User code whose functors nothing drains before the next poll, while `calling_` is false. */
  predicate Unwoken(pc: Pc) {
    pc.Idle? || pc.Releasing?
  }

  /** What loop() does by itself between two polls. */
  predicate LoopStep(step: Step) {
    step.Enter? || step.Check? || step.ReadWake? || step.Dispatched? || step.Swap? || step.RunNext? ||
    step.Drained? || step.Released?
  }

  predicate Enabled(s: State, step: Step) {
    match step
    case Push(t, _) => t !in s.pushed && t !in s.quitting
    case Wake(t) => t in s.pushed
    case SetQuit(t) => t !in s.pushed && t !in s.quitting
    case WakeQuit(t) => t in s.quitting
    case OwnPush(_) => InUserCode(s)
    case OwnTest => s.ownPush
    case OwnQuit => InUserCode(s)
    case Enter => s.pc.Idle? && !s.ownPush
    case Check => s.pc.Checking?
    case PollReturns(wake) => s.pc.Polling? && (wake ==> s.counter > 0)
    case ReadWake => s.pc == Dispatching(true) && !s.ownPush
    case Dispatched => s.pc == Dispatching(false) && !s.ownPush
    case Swap => s.pc.Draining?
    case RunNext => s.pc.Running? && !s.ownPush && s.batch != []
    case Drained => s.pc.Running? && !s.ownPush && s.batch == []
    case Released => s.pc.Releasing? && !s.ownPush
  }

  function Apply(s: State, step: Step): State {
    if !Enabled(s, step) then s else
    match step
    case Push(t, f) => s.(pending := s.pending + [f], queued := s.queued + [f], pushed := s.pushed + {t})
    case Wake(t) => s.(counter := Written(s.counter), pushed := s.pushed - {t})
    case SetQuit(t) => s.(quit := true, quitting := s.quitting + {t})
    case WakeQuit(t) => s.(counter := Written(s.counter), quitting := s.quitting - {t})
    case OwnPush(f) =>
      s.(pending := s.pending + [f], queued := s.queued + [f], ownPush := true, early := s.early || Unwoken(s.pc))
    case OwnTest => s.(ownPush := false, counter := if s.calling then Written(s.counter) else s.counter)
    case OwnQuit => s.(quit := true)
    case Enter => s.(pc := Checking, quit := false)
    case Check => s.(pc := if s.quit then Idle else Polling)
    case PollReturns(wake) => s.(pc := Dispatching(wake))
    case ReadWake => s.(pc := Dispatching(false), counter := 0)
    case Dispatched => s.(pc := Draining, calling := true)
    case Swap => s.(pc := Running, batch := s.pending, pending := [], early := false)
    case RunNext => s.(batch := s.batch[1..], executed := s.executed + [s.batch[0]])
    case Drained => s.(pc := Releasing, calling := false)
    case Released => s.(pc := Checking)
  }

  function From(s: State, steps: seq<Step>): State {
    if steps == [] then s else Apply(From(s, steps[..|steps| - 1]), steps[|steps| - 1])
  }

  function After(steps: seq<Step>): State {
    From(INITIAL, steps)
  }

  // ---------------------------------------------------------------- the properties

  /** A poll that may sleep through work: nothing in the eventfd and nobody about to write it. */
  ghost predicate NoLostWakeup(s: State) {
    s.pc.Polling? && s.pending != [] ==> s.counter > 0 || s.pushed != {}
  }

  ghost predicate NoLostQuit(s: State) {
    s.pc.Polling? && s.quit ==> s.counter > 0 || s.quitting != {}
  }

  /** Every functor is in exactly one place of one line, in the order of the lock. */
  ghost predicate InOrder(s: State) {
    s.queued == s.executed + s.batch + s.pending
  }

  // ---------------------------------------------------------------- the invariant

  ghost predicate Inv(s: State) {
    && (s.calling <==> s.pc.Draining? || s.pc.Running?)
    && (s.ownPush ==> s.pc.Idle? || s.pc.Dispatching? || s.pc.Running? || s.pc.Releasing?)
    && (!s.pc.Running? ==> s.batch == [])
    && (s.pending != [] && !s.early && !s.pc.Dispatching? && !s.pc.Draining? ==>
          s.counter > 0 || s.pushed != {} || (s.ownPush && s.calling))
    && NoLostQuit(s)
    && InOrder(s)
  }

  lemma OtherThreadsPreserve(s: State, step: Step)
    requires Inv(s) && (step.Push? || step.Wake? || step.SetQuit? || step.WakeQuit?)
    ensures Inv(Apply(s, step))
  {
  }

  lemma UserCodePreserves(s: State, step: Step)
    requires Inv(s) && (step.OwnPush? || step.OwnTest? || step.OwnQuit?)
    ensures Inv(Apply(s, step))
  {
  }

  lemma LoopPreserves(s: State, step: Step)
    requires Inv(s) && (LoopStep(step) || step.PollReturns?)
    ensures Inv(Apply(s, step))
  {
  }

  lemma Preserved(s: State, step: Step)
    requires Inv(s)
    ensures Inv(Apply(s, step))
  {
    if step.Push? || step.Wake? || step.SetQuit? || step.WakeQuit? {
      OtherThreadsPreserve(s, step);
    } else if step.OwnPush? || step.OwnTest? || step.OwnQuit? {
      UserCodePreserves(s, step);
    } else {
      LoopPreserves(s, step);
    }
  }

  lemma {:induction false} Invariant(steps: seq<Step>)
    ensures Inv(After(steps))
  {
    if steps != [] {
      Invariant(steps[..|steps| - 1]);
      Preserved(After(steps[..|steps| - 1]), steps[|steps| - 1]);
    }
  }

  // ---------------------------------------------------------------- what was queued, from the steps alone

  /** Where another thread is: between calls, inside queue_in_loop, or inside quit. */
  datatype Doing = Nothing | Pushing | Quitting

  function DoesNext(before: Doing, step: Step, t: Thread): Doing {
    match step
    case Push(u, _) => if u == t && before.Nothing? then Pushing else before
    case Wake(u) => if u == t && before.Pushing? then Nothing else before
    case SetQuit(u) => if u == t && before.Nothing? then Quitting else before
    case WakeQuit(u) => if u == t && before.Quitting? then Nothing else before
    case _ => before
  }

  function DoingOf(steps: seq<Step>, t: Thread): Doing {
    if steps == [] then Nothing else DoesNext(DoingOf(steps[..|steps| - 1], t), steps[|steps| - 1], t)
  }

  /** The loop thread runs callers of loop(), handlers, functors, or destructors of functors. */
  predicate RunsUserCode(pc: Pc) {
    pc.Idle? || pc.Dispatching? || pc.Running? || pc.Releasing?
  }

  /** The loop thread has pushed a functor and not tested `calling_` since. */
  function OwnPushing(steps: seq<Step>): bool {
    if steps == [] then false
    else
      var rest := steps[..|steps| - 1];
      match steps[|steps| - 1]
      case OwnPush(_) => OwnPushing(rest) || RunsUserCode(After(rest).pc)
      case OwnTest => false
      case _ => OwnPushing(rest)
  }

  /** The functors of all calls of queue_in_loop, in the order of the lock: a thread can make one when it is between
      calls, and the loop thread when it runs user code. */
  function QueuedOf(steps: seq<Step>): seq<Functor> {
    if steps == [] then []
    else
      var rest := steps[..|steps| - 1];
      QueuedOf(rest) +
      match steps[|steps| - 1]
      case Push(t, f) => if DoingOf(rest, t).Nothing? then [f] else []
      case OwnPush(f) => if !OwnPushing(rest) && RunsUserCode(After(rest).pc) then [f] else []
      case _ => []
  }

  ghost predicate Is(s: State, t: Thread, d: Doing) {
    (t in s.pushed <==> d.Pushing?) && (t in s.quitting <==> d.Quitting?)
  }

  lemma ThreadSteps(s: State, step: Step, t: Thread, d: Doing)
    requires Is(s, t, d)
    ensures Is(Apply(s, step), t, DoesNext(d, step, t))
  {
  }

  lemma {:induction false} ThreadIs(steps: seq<Step>, t: Thread)
    ensures Is(After(steps), t, DoingOf(steps, t))
  {
    if steps != [] {
      ThreadIs(steps[..|steps| - 1], t);
      ThreadSteps(After(steps[..|steps| - 1]), steps[|steps| - 1], t, DoingOf(steps[..|steps| - 1], t));
    }
  }

  lemma {:induction false} OwnPushIs(steps: seq<Step>)
    ensures After(steps).ownPush <==> OwnPushing(steps)
  {
    if steps != [] {
      OwnPushIs(steps[..|steps| - 1]);
    }
  }

  lemma {:induction false} QueuedIs(steps: seq<Step>)
    ensures After(steps).queued == QueuedOf(steps)
  {
    if steps != [] {
      QueuedIs(steps[..|steps| - 1]);
      OwnPushIs(steps[..|steps| - 1]);
      if steps[|steps| - 1].Push? {
        ThreadIs(steps[..|steps| - 1], steps[|steps| - 1].thread);
      }
    }
  }

  /** No run loses a wakeup, unless the loop thread itself queued a functor that is still pending outside loop(), or
      while it destroyed the functors it had run: queue_in_loop then finds `calling_` false and does not wake the poll
      that follows. */
  lemma NoWakeupIsLost(steps: seq<Step>)
    ensures !After(steps).early ==> NoLostWakeup(After(steps))
    ensures NoLostQuit(After(steps))
    ensures var s := After(steps); s.executed + s.batch + s.pending == QueuedOf(steps)
  {
    Invariant(steps);
    QueuedIs(steps);
  }

  // ---------------------------------------------------------------- what the proviso means

  /** The proviso is about the caller of queue_in_loop alone. */
  lemma {:induction false} EarlyOnlyWhileUnwoken(steps: seq<Step>)
    requires forall i | 0 <= i < |steps| && steps[i].OwnPush? :: !Unwoken(After(steps[..i]).pc)
    ensures !After(steps).early
  {
    if steps != [] {
      var before := steps[..|steps| - 1];
      forall i | 0 <= i < |before| && before[i].OwnPush?
        ensures !Unwoken(After(before[..i]).pc)
      {
        assert before[..i] == steps[..i];
      }
      EarlyOnlyWhileUnwoken(before);
      assert !(steps[|before|].OwnPush? && Unwoken(After(steps[..|before|]).pc));
    }
  }

  /** A functor the loop thread queues in any reachable state, until the loop's next poll: a poll that may sleep on
      it follows exactly when the thread was outside loop() or destroying functors, and no other wakeup was on its
      way. */
  lemma OwnPushIsSafeIff(steps: seq<Step>, f: Functor, more: seq<Step>)
    requires InUserCode(After(steps)) && forall step | step in more :: LoopStep(step)
    requires From(Apply(Apply(After(steps), OwnPush(f)), OwnTest), more).pc.Polling?
    ensures var s := After(steps); var poll := From(Apply(Apply(s, OwnPush(f)), OwnTest), more);
      NoLostWakeup(poll) <==> !Unwoken(s.pc) || s.counter > 0 || s.pushed != {}
  {
    Invariant(steps);
    var s := Apply(Apply(After(steps), OwnPush(f)), OwnTest);
    match After(steps).pc
    case Idle => SleepsUntilSwap(s, more);
    case Releasing => SleepsUntilSwap(s, more);
    case Dispatching(_) => SwapsBeforePolling(s, more);
    case Running => StaysReadable(s, more);
  }

  lemma {:induction false} SleepsUntilSwap(s: State, more: seq<Step>)
    requires Unwoken(s.pc) && forall step | step in more :: LoopStep(step)
    ensures var t := From(s, more);
      (Unwoken(t.pc) || t.pc.Checking? || t.pc.Polling?) &&
      t.pending == s.pending && t.counter == s.counter && t.pushed == s.pushed
  {
    if more != [] {
      SleepsUntilSwap(s, more[..|more| - 1]);
      assert more[|more| - 1] in more;
      StepBeforePoll(From(s, more[..|more| - 1]), more[|more| - 1]);
    }
  }

  lemma StepBeforePoll(s: State, step: Step)
    requires LoopStep(step) && (Unwoken(s.pc) || s.pc.Checking? || s.pc.Polling?)
    ensures var t := Apply(s, step);
      (Unwoken(t.pc) || t.pc.Checking? || t.pc.Polling?) &&
      t.pending == s.pending && t.counter == s.counter && t.pushed == s.pushed
  {
  }

  lemma {:induction false} SwapsBeforePolling(s: State, more: seq<Step>)
    requires s.pc.Dispatching? && !s.ownPush && forall step | step in more :: LoopStep(step)
    ensures var t := From(s, more); t.pc.Dispatching? || t.pc.Draining? || t.pending == []
  {
    if more != [] {
      SwapsBeforePolling(s, more[..|more| - 1]);
      assert more[|more| - 1] in more;
      StepToSwap(From(s, more[..|more| - 1]), more[|more| - 1]);
    }
  }

  lemma StepToSwap(s: State, step: Step)
    requires LoopStep(step) && (s.pc.Dispatching? || s.pc.Draining? || s.pending == [])
    ensures var t := Apply(s, step); t.pc.Dispatching? || t.pc.Draining? || t.pending == []
  {
  }

  lemma {:induction false} StaysReadable(s: State, more: seq<Step>)
    requires s.pc.Running? && s.counter > 0 && forall step | step in more :: LoopStep(step)
    ensures From(s, more).counter > 0 && !From(s, more).pc.Dispatching?
  {
    if more != [] {
      StaysReadable(s, more[..|more| - 1]);
      assert more[|more| - 1] in more;
    }
  }

  // ---------------------------------------------------------------- what becomes of a quit

  predicate WritesQuit(step: Step) {
    step.SetQuit? || step.OwnQuit?
  }

  /** In every run, whatever else happens until the loop tests its flag: a quit, from whichever thread, is found
      there exactly when it was not written while the loop thread was outside loop(). */
  lemma QuitSurvivesIff(steps: seq<Step>, q: Step, more: seq<Step>)
    requires WritesQuit(q) && Enabled(After(steps), q)
    requires forall step | step in more :: !step.Check? && !WritesQuit(step)
    requires From(Apply(After(steps), q), more).pc.Checking?
    ensures var t := From(Apply(After(steps), q), more);
      && (t.quit <==> !After(steps).pc.Idle?)
      && (Apply(t, Check).pc.Idle? <==> !After(steps).pc.Idle?)
  {
    QuitUntilCheck(Apply(After(steps), q), more);
  }

  lemma {:induction false} QuitUntilCheck(s: State, more: seq<Step>)
    requires s.quit && forall step | step in more :: !step.Check? && !WritesQuit(step)
    ensures var t := From(s, more);
      if s.pc.Idle? then t.pc.Idle? || (t.pc.Checking? && !t.quit) else t.quit && !t.pc.Idle?
  {
    if more != [] {
      QuitUntilCheck(s, more[..|more| - 1]);
      assert more[|more| - 1] in more;
      StepBeforeCheck(From(s, more[..|more| - 1]), more[|more| - 1]);
    }
  }

  lemma StepBeforeCheck(s: State, step: Step)
    requires !step.Check? && !WritesQuit(step)
    ensures var t := Apply(s, step);
      && (s.pc.Idle? ==> t.pc.Idle? || (t.pc.Checking? && !t.quit))
      && (s.pc.Checking? ==> t.pc.Checking?)
      && (!s.pc.Idle? ==> !t.pc.Idle? && t.quit == s.quit)
  {
  }

  // ---------------------------------------------------------------- failing runs

  lemma OneMoreStep(steps: seq<Step>, a: Step)
    ensures After(steps + [a]) == Apply(After(steps), a)
  {
    assert (steps + [a])[..|steps|] == steps;
  }

  lemma FourMoreSteps(steps: seq<Step>, a: Step, b: Step, c: Step, d: Step)
    ensures After(steps + [a, b, c, d]) == Apply(Apply(Apply(Apply(After(steps), a), b), c), d)
  {
    var three := steps + [a] + [b] + [c];
    assert After(three) == Apply(Apply(Apply(After(steps), a), b), c) by {
      OneMoreStep(steps, a);
      OneMoreStep(steps + [a], b);
      OneMoreStep(steps + [a] + [b], c);
    }
    OneMoreStep(three, d);
    assert three + [d] == steps + [a, b, c, d];
  }

  /** The loop thread queues a functor before loop(): the first poll sleeps on it until its timeout. */
  lemma FunctorQueuedBeforeLoopWaits(f: Functor)
    ensures var s := After([OwnPush(f), OwnTest, Enter, Check]);
      s.pc.Polling? && s.pending == [f] && s.counter == 0 && s.pushed == {}
  {
    FourMoreSteps([], OwnPush(f), OwnTest, Enter, Check);
    assert [] + [OwnPush(f), OwnTest, Enter, Check] == [OwnPush(f), OwnTest, Enter, Check];
  }

  /** A functor arrives from another thread, and its wakeup ends the poll. */
  function Arriving(t: Thread, f: Functor): seq<Step> {
    [Enter, Check, Push(t, f), Wake(t)] + [PollReturns(true), ReadWake, Dispatched, Swap]
  }

  lemma FunctorPushed(t: Thread, f: Functor)
    ensures After([Enter, Check, Push(t, f), Wake(t)]) ==
      State(Polling, false, false, false, 1, [f], [], {}, {}, false, [f], [])
  {
    FourMoreSteps([], Enter, Check, Push(t, f), Wake(t));
    assert [] + [Enter, Check, Push(t, f), Wake(t)] == [Enter, Check, Push(t, f), Wake(t)];
  }

  lemma FunctorArrives(t: Thread, f: Functor)
    ensures After(Arriving(t, f)) == State(Running, false, true, false, 0, [], [f], {}, {}, false, [f], [])
  {
    FunctorPushed(t, f);
    FourMoreSteps([Enter, Check, Push(t, f), Wake(t)], PollReturns(true), ReadWake, Dispatched, Swap);
  }

  /** When the destructor of an executed functor queues one, the poll that follows sleeps on it too. */
  lemma FunctorQueuedOnReleaseWaits(t: Thread, f: Functor, g: Functor)
    ensures var s := After(Arriving(t, f) + [RunNext, Drained, OwnPush(g), OwnTest] + [Released] + [Check]);
      s.pc.Polling? && s.executed == [f] && s.pending == [g] && s.counter == 0 && s.pushed == {}
  {
    var queued := Arriving(t, f) + [RunNext, Drained, OwnPush(g), OwnTest];
    assert After(queued) == State(Releasing, false, false, false, 0, [g], [], {}, {}, true, [f, g], [f]) by {
      FunctorArrives(t, f);
      FourMoreSteps(Arriving(t, f), RunNext, Drained, OwnPush(g), OwnTest);
    }
    OneMoreStep(queued, Released);
    OneMoreStep(queued + [Released], Check);
  }

  /** A quit that precedes loop() is overwritten at line 92. */
  lemma QuitBeforeLoopIsOverwritten(t: Thread)
    ensures var s := After([SetQuit(t), WakeQuit(t), Enter, Check]); s.pc.Polling? && !s.quit
  {
    FourMoreSteps([], SetQuit(t), WakeQuit(t), Enter, Check);
    assert [] + [SetQuit(t), WakeQuit(t), Enter, Check] == [SetQuit(t), WakeQuit(t), Enter, Check];
  }

  // ---------------------------------------------------------------- draining

  function RunSteps(n: nat): seq<Step> {
    if n == 0 then [] else RunSteps(n - 1) + [RunNext]
  }

  lemma {:induction false} RunStepsRun(s: State, n: nat)
    requires s.pc.Running? && !s.ownPush && n <= |s.batch|
    ensures |RunSteps(n)| == n
    ensures From(s, RunSteps(n)) == s.(batch := s.batch[n..], executed := s.executed + s.batch[..n])
  {
    if n > 0 {
      RunStepsRun(s, n - 1);
      assert RunSteps(n)[..n - 1] == RunSteps(n - 1);
      OneMore(s.batch, s.executed, n);
    }
  }

  lemma OneMore(batch: seq<Functor>, executed: seq<Functor>, n: nat)
    requires 0 < n <= |batch|
    ensures batch[n - 1..][0] == batch[n - 1] && batch[n - 1..][1..] == batch[n..]
    ensures executed + batch[..n - 1] + [batch[n - 1]] == executed + batch[..n]
  {
  }

  /** A poll with work and no producer at work is readable, and from there the loop's own steps execute exactly
      the pending functors, in order, whatever the history. */
  lemma WokenLoopDrains(steps: seq<Step>)
    requires var s := After(steps); s.pc.Polling? && s.pending != [] && s.pushed == {} && !s.early
    ensures var s := After(steps);
      var woken := Apply(Apply(Apply(Apply(s, PollReturns(true)), ReadWake), Dispatched), Swap);
      var done := From(woken, RunSteps(|s.pending|));
      s.counter > 0 && done.executed == s.executed + s.pending && done.batch == [] && done.pending == []
  {
    Invariant(steps);
    var s := After(steps);
    var woken := Apply(Apply(Apply(Apply(s, PollReturns(true)), ReadWake), Dispatched), Swap);
    assert woken.pc.Running? && woken.batch == s.pending;
    RunStepsRun(woken, |s.pending|);
  }
}
