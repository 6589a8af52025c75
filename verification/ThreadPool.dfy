/** src/threadpool.h as atomic steps of its workers, the threads that enqueue, and the destructor. Each critical
    section is one step; blocking on the condition variable releases the lock, and a notification or nothing at all
    ends it. A step that is not enabled leaves the state alone: every sequence of steps is a run. */
module ThreadPools {

  type Task = nat

  /** `Awake`: about to take the lock; `Blocked`: inside condition.wait; `Busy`: running a task. */
  datatype Worker = Awake | Blocked | Busy(task: Task) | Exited

  /** `notifies`: enqueue calls between their push and their notify_one; `notifyAll`: the destructor between
      setting `stop` and notify_all. `accepted`, `started` and `rejected` are histories. */
  datatype State = State(
    workers: seq<Worker>, tasks: seq<Task>, stop: bool, notifies: nat, notifyAll: bool,
    accepted: seq<Task>, started: seq<Task>, rejected: nat)

  datatype Step =
    | Enqueue(task: Task)          // lines 88-95
    | Notify(worker: nat)          // line 97, which wakes one waiter if there is any
    | Turn(worker: nat)            // lines 50-64
    | Spurious(worker: nat)        // a wait that ends by itself; the predicate of line 58 is then evaluated again
    | Finish(worker: nat)          // line 66
    | Stop                         // lines 104-107
    | NotifyAll                    // line 108

  function Start(threads: nat): State {
    State(seq(threads, _ => Awake), [], false, 0, false, [], [], 0)
  }

  predicate Enabled(s: State, step: Step) {
    match step
    case Enqueue(_) => true
    case Notify(w) => s.notifies > 0 && ((w < |s.workers| && s.workers[w].Blocked?) || Blocked !in s.workers)
    case Turn(w) => w < |s.workers| && s.workers[w].Awake?
    case Spurious(w) => w < |s.workers| && s.workers[w].Blocked?
    case Finish(w) => w < |s.workers| && s.workers[w].Busy?
    case Stop => !s.stop
    case NotifyAll => s.notifyAll
  }

  function Woken(workers: seq<Worker>): (r: seq<Worker>)
    ensures |r| == |workers| && Blocked !in r
    ensures forall i | 0 <= i < |r| :: r[i] == if workers[i].Blocked? then Awake else workers[i]
  {
    seq(|workers|, i requires 0 <= i < |workers| => if workers[i].Blocked? then Awake else workers[i])
  }

  function Apply(s: State, step: Step): State {
    if !Enabled(s, step) then s else
    match step
    case Enqueue(task) =>
      if s.stop then s.(rejected := s.rejected + 1)
      else s.(tasks := s.tasks + [task], accepted := s.accepted + [task], notifies := s.notifies + 1)
    case Notify(w) =>
      s.(notifies := s.notifies - 1, workers := if Blocked in s.workers then s.workers[w := Awake] else s.workers)
    case Turn(w) =>
      if !s.stop && s.tasks == [] then s.(workers := s.workers[w := Blocked])
      else if s.tasks == [] then s.(workers := s.workers[w := Exited])
      else s.(workers := s.workers[w := Busy(s.tasks[0])], tasks := s.tasks[1..], started := s.started + [s.tasks[0]])
    case Spurious(w) => s.(workers := s.workers[w := Awake])
    case Finish(w) => s.(workers := s.workers[w := Awake])
    case Stop => s.(stop := true, notifyAll := true)
    case NotifyAll => s.(notifyAll := false, workers := Woken(s.workers))
  }

  function From(s: State, steps: seq<Step>): State {
    if steps == [] then s else Apply(From(s, steps[..|steps| - 1]), steps[|steps| - 1])
  }

  // ---------------------------------------------------------------- the invariant

  predicate Up(w: Worker) {
    w.Awake? || w.Busy?
  }

  ghost predicate SomeoneUp(s: State) {
    exists i | 0 <= i < |s.workers| :: Up(s.workers[i])
  }

  ghost predicate Inv(s: State) {
    && s.accepted == s.started + s.tasks
    && (s.notifyAll ==> s.stop)
    && (Exited in s.workers ==> s.stop && s.tasks == [])
    && (s.stop && !s.notifyAll ==> Blocked !in s.workers)
    && (s.tasks != [] && s.notifies == 0 && !s.notifyAll && |s.workers| > 0 ==> SomeoneUp(s))
  }

  lemma InUpdate(ws: seq<Worker>, w: nat, x: Worker, y: Worker)
    requires w < |ws| && y in ws[w := x]
    ensures y == x || y in ws
  {
  }

  lemma AwakePreserved(s: State, w: nat)
    requires Inv(s) && w < |s.workers|
    ensures var t := s.(workers := s.workers[w := Awake]); Inv(t) && SomeoneUp(t)
  {
    var ws := s.workers[w := Awake];
    assert Up(ws[w]);
    if Exited in ws {
      InUpdate(s.workers, w, Awake, Exited);
    }
    if Blocked in ws {
      InUpdate(s.workers, w, Awake, Blocked);
    }
  }

  lemma Preserved(s: State, step: Step)
    requires Inv(s)
    ensures Inv(Apply(s, step))
  {
    var t := Apply(s, step);
    if Enabled(s, step) {
      match step
      case Enqueue(_) =>
      case Notify(w) =>
        if Blocked in s.workers {
          AwakePreserved(s, w);
        } else if |s.workers| > 0 && s.tasks != [] {
          assert s.workers[0] in s.workers;
          assert Up(s.workers[0]);
        }
      case Turn(w) => TurnPreserved(s, w);
      case Spurious(w) => AwakePreserved(s, w);
      case Finish(w) => AwakePreserved(s, w);
      case Stop =>
      case NotifyAll =>
        if Exited in t.workers {
          var i :| 0 <= i < |t.workers| && t.workers[i] == Exited;
          assert s.workers[i] == Exited;
        }
        if |s.workers| > 0 && s.tasks != [] {
          assert s.workers[0] in s.workers;
          assert Up(t.workers[0]);
        }
    }
  }

  lemma TurnPreserved(s: State, w: nat)
    requires Inv(s) && Enabled(s, Turn(w))
    ensures Inv(Apply(s, Turn(w)))
  {
    var t := Apply(s, Turn(w));
    var x := t.workers[w];
    if Exited in t.workers && x != Exited {
      InUpdate(s.workers, w, x, Exited);
    }
    if Blocked in t.workers && x != Blocked {
      InUpdate(s.workers, w, x, Blocked);
    }
    if s.tasks != [] {
      assert [s.tasks[0]] + s.tasks[1..] == s.tasks;
      assert Up(t.workers[w]);
    }
  }

  lemma {:induction false} Invariant(threads: nat, steps: seq<Step>)
    ensures Inv(From(Start(threads), steps)) && |From(Start(threads), steps).workers| == threads
  {
    if steps != [] {
      Invariant(threads, steps[..|steps| - 1]);
      Preserved(From(Start(threads), steps[..|steps| - 1]), steps[|steps| - 1]);
    } else {
      assert forall i | 0 <= i < threads :: Start(threads).workers[i] == Awake;
    }
  }

  // ---------------------------------------------------------------- the theorems

  /** The tasks handed to enqueue before the destructor set `stop`. */
  function AcceptedOf(steps: seq<Step>): seq<Task> {
    if steps == [] then []
    else
      var rest := steps[..|steps| - 1];
      AcceptedOf(rest) +
      match steps[|steps| - 1]
      case Enqueue(task) => if Stop in rest then [] else [task]
      case _ => []
  }

  lemma EnqueueAccepts(s: State, step: Step)
    ensures var t := Apply(s, step);
      && t.accepted == s.accepted + (if step.Enqueue? && !s.stop then [step.task] else [])
      && (t.stop <==> s.stop || step == Stop)
  {
  }

  lemma {:induction false} AcceptedIs(threads: nat, steps: seq<Step>)
    ensures var s := From(Start(threads), steps); s.accepted == AcceptedOf(steps) && (s.stop <==> Stop in steps)
  {
    if steps != [] {
      AcceptedIs(threads, steps[..|steps| - 1]);
      EnqueueAccepts(From(Start(threads), steps[..|steps| - 1]), steps[|steps| - 1]);
      assert steps == steps[..|steps| - 1] + [steps[|steps| - 1]];
    }
  }

  /** The tasks whose runs have ended: what a busy worker had when it finished. */
  function FinishedOf(threads: nat, steps: seq<Step>): seq<Task> {
    if steps == [] then []
    else
      var rest := steps[..|steps| - 1];
      var workers := From(Start(threads), rest).workers;
      FinishedOf(threads, rest) +
      match steps[|steps| - 1]
      case Finish(w) => if w < |workers| && workers[w].Busy? then [workers[w].task] else []
      case _ => []
  }

  function Has(w: Worker, task: Task): nat {
    if w == Busy(task) then 1 else 0
  }

  /** How many workers run the task. */
  function Running(ws: seq<Worker>, task: Task): nat {
    if ws == [] then 0 else Running(ws[..|ws| - 1], task) + Has(ws[|ws| - 1], task)
  }

  lemma {:induction false} RunningUpdate(ws: seq<Worker>, w: nat, x: Worker, task: Task)
    requires w < |ws|
    ensures Running(ws[w := x], task) == Running(ws, task) - Has(ws[w], task) + Has(x, task)
  {
    var n := |ws| - 1;
    if w == n {
      assert ws[w := x][..n] == ws[..n];
    } else {
      RunningUpdate(ws[..n], w, x, task);
      assert ws[w := x][..n] == ws[..n][w := x];
    }
  }

  lemma {:induction false} RunningWoken(ws: seq<Worker>, task: Task)
    ensures Running(Woken(ws), task) == Running(ws, task)
  {
    if ws != [] {
      RunningWoken(ws[..|ws| - 1], task);
      assert Woken(ws)[..|ws| - 1] == Woken(ws[..|ws| - 1]);
    }
  }

  lemma {:induction false} NoneRunning(ws: seq<Worker>, task: Task)
    requires forall i | 0 <= i < |ws| :: !ws[i].Busy?
    ensures Running(ws, task) == 0
  {
    if ws != [] {
      NoneRunning(ws[..|ws| - 1], task);
    }
  }

  /** What one step changes in the numbers of runs started, going on and ended. */
  lemma StepRuns(s: State, step: Step, task: Task)
    ensures var t := Apply(s, step);
      var ended := if step.Finish? && step.worker < |s.workers| then Has(s.workers[step.worker], task) else 0;
      multiset(t.started)[task] - Running(t.workers, task) == multiset(s.started)[task] - Running(s.workers, task) + ended
  {
    if Enabled(s, step) {
      match step
      case Notify(w) =>
        if w < |s.workers| {
          RunningUpdate(s.workers, w, Awake, task);
        }
      case Turn(w) => RunningUpdate(s.workers, w, Apply(s, step).workers[w], task);
      case Spurious(w) => RunningUpdate(s.workers, w, Awake, task);
      case Finish(w) => RunningUpdate(s.workers, w, Awake, task);
      case NotifyAll => RunningWoken(s.workers, task);
      case _ =>
    }
  }

  lemma {:induction false} StartedIs(threads: nat, steps: seq<Step>, task: Task)
    ensures var s := From(Start(threads), steps);
      multiset(s.started)[task] == multiset(FinishedOf(threads, steps))[task] + Running(s.workers, task)
  {
    if steps == [] {
      NoneRunning(Start(threads).workers, task);
    } else {
      var rest := steps[..|steps| - 1];
      StartedIs(threads, rest, task);
      StepRuns(From(Start(threads), rest), steps[|steps| - 1], task);
    }
  }

  /** Tasks start in the order in which they were handed over before the stop, each once; what has started is finished
      or run by one worker; and a worker leaves only a stopped pool whose queue is empty. */
  lemma TasksStartInOrder(threads: nat, steps: seq<Step>)
    ensures var s := From(Start(threads), steps);
      && s.started + s.tasks == AcceptedOf(steps)
      && (forall task: Task ::
            multiset(s.started)[task] == multiset(FinishedOf(threads, steps))[task] + Running(s.workers, task))
      && (Exited in s.workers ==> Stop in steps && s.tasks == [])
  {
    Invariant(threads, steps);
    AcceptedIs(threads, steps);
    forall task: Task {
      StartedIs(threads, steps, task);
    }
  }

  /** A worker that takes the lock while tasks wait starts the next one in that order, stopped or not. */
  lemma TurnStartsNext(threads: nat, steps: seq<Step>, w: nat)
    requires var s := From(Start(threads), steps); w < threads && |s.workers| == threads
    requires var s := From(Start(threads), steps); s.workers[w].Awake? && |s.started| < |AcceptedOf(steps)|
    ensures var (s, t) := (From(Start(threads), steps), From(Start(threads), steps + [Turn(w)]));
      var next := AcceptedOf(steps)[|s.started|];
      t.started == s.started + [next] && |t.workers| == threads && t.workers[w] == Busy(next)
  {
    Invariant(threads, steps);
    AcceptedIs(threads, steps);
    assert (steps + [Turn(w)])[..|steps|] == steps;
  }

  /** After stop nothing more is accepted. */
  lemma {:induction false} NothingAcceptedAfterStop(s: State, steps: seq<Step>)
    requires s.stop
    ensures From(s, steps).accepted == s.accepted && From(s, steps).stop
  {
    if steps != [] {
      NothingAcceptedAfterStop(s, steps[..|steps| - 1]);
    }
  }

  /** No task waits while every worker sleeps, except between a push and its notification. */
  lemma NoTaskIsForgotten(threads: nat, steps: seq<Step>)
    requires var s := From(Start(threads), steps); s.tasks != [] && s.notifies == 0 && !s.notifyAll && threads > 0
    ensures SomeoneUp(From(Start(threads), steps))
  {
    Invariant(threads, steps);
  }

  // ---------------------------------------------------------------- the destructor

  function Work(w: Worker): nat {
    match w
    case Exited => 0
    case Awake => 1
    case Blocked => 2
    case Busy(_) => 2
  }

  function Works(ws: seq<Worker>): nat {
    if ws == [] then 0 else Works(ws[..|ws| - 1]) + Work(ws[|ws| - 1])
  }

  lemma {:induction false} WorksUpdate(ws: seq<Worker>, w: nat, x: Worker)
    requires w < |ws|
    ensures Works(ws[w := x]) == Works(ws) - Work(ws[w]) + Work(x)
  {
    var n := |ws| - 1;
    if w == n {
      assert ws[w := x][..n] == ws[..n];
    } else {
      WorksUpdate(ws[..n], w, x);
      assert ws[w := x][..n] == ws[..n][w := x];
    }
  }

  lemma {:induction false} WorksZero(ws: seq<Worker>)
    ensures Works(ws) == 0 <==> forall i | 0 <= i < |ws| :: ws[i].Exited?
  {
    if ws != [] {
      WorksZero(ws[..|ws| - 1]);
    }
  }

  /** Queued tasks weigh two, a running task and an idle worker one each. */
  function Remaining(s: State): nat {
    2 * |s.tasks| + Works(s.workers)
  }

  ghost predicate Ending(s: State) {
    Inv(s) && s.stop && !s.notifyAll
  }

  ghost predicate AllExited(s: State) {
    forall i | 0 <= i < |s.workers| :: s.workers[i].Exited?
  }

  predicate OfWorker(step: Step) {
    step.Turn? || step.Finish?
  }

  /** Once notify_all is done, every step a worker can take brings the end nearer, no other step moves it, and
      while some worker has not left, a worker has a step to take. */
  lemma EveryStepBringsTheEnd(s: State, step: Step)
    requires Ending(s)
    ensures Ending(Apply(s, step))
    ensures if OfWorker(step) && Enabled(s, step) then Remaining(Apply(s, step)) < Remaining(s)
            else Remaining(Apply(s, step)) == Remaining(s)
    ensures AllExited(s) || exists next :: OfWorker(next) && Enabled(s, next)
  {
    Preserved(s, step);
    var t := Apply(s, step);
    if Enabled(s, step) && OfWorker(step) {
      var w := step.worker;
      WorksUpdate(s.workers, w, t.workers[w]);
    }
    if !AllExited(s) {
      var i :| 0 <= i < |s.workers| && !s.workers[i].Exited?;
      assert s.workers[i] in s.workers;
      if s.workers[i].Awake? {
        assert OfWorker(Turn(i)) && Enabled(s, Turn(i));
      } else {
        assert OfWorker(Finish(i)) && Enabled(s, Finish(i));
      }
    }
  }

  function WorkerSteps(steps: seq<Step>, s: State): nat
    decreases |steps|
  {
    if steps == [] then 0
    else (if OfWorker(steps[0]) && Enabled(s, steps[0]) then 1 else 0) + WorkerSteps(steps[1..], Apply(s, steps[0]))
  }

  /** So the workers' steps of any continuation are bounded, and the joins return. */
  lemma {:induction false} WorkersTerminate(s: State, steps: seq<Step>)
    requires Ending(s)
    ensures WorkerSteps(steps, s) <= Remaining(s)
    decreases |steps|
  {
    if steps != [] {
      EveryStepBringsTheEnd(s, steps[0]);
      WorkersTerminate(Apply(s, steps[0]), steps[1..]);
    }
  }

  /** The destructor's joins are over when all workers have left. Every task handed over before the stop has then been
      run to its end, once, exactly when there was a worker to run it, or there was none. */
  lemma DestructorLeavesNothingIff(threads: nat, steps: seq<Step>)
    requires AllExited(From(Start(threads), steps))
    ensures multiset(FinishedOf(threads, steps)) == multiset(AcceptedOf(steps)) <==> threads > 0 || AcceptedOf(steps) == []
  {
    Invariant(threads, steps);
    AcceptedIs(threads, steps);
    var s := From(Start(threads), steps);
    forall task: Task
      ensures multiset(FinishedOf(threads, steps))[task] == multiset(s.started)[task]
    {
      StartedIs(threads, steps, task);
      NoneRunning(s.workers, task);
    }
    if threads > 0 {
      assert s.workers[0] in s.workers && s.workers[0] == Exited;
      assert s.accepted == s.started;
    } else {
      NoWorkerNoStart(steps);
      assert |multiset(AcceptedOf(steps))| == |AcceptedOf(steps)|;
    }
  }

  lemma {:induction false} NoWorkerNoStart(steps: seq<Step>)
    ensures From(Start(0), steps).started == [] && From(Start(0), steps).workers == []
  {
    if steps != [] {
      NoWorkerNoStart(steps[..|steps| - 1]);
    }
  }
}
