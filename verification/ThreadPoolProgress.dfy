// What becomes of the tasks given to ThreadPool.cc's run: who takes them, that they are called,
// and that the pool comes to rest once all have been.

module ThreadPoolProgress {
  import opened ThreadPoolProtocol

  /** The tasks that callers of run may count on: all that come before a stop, and in a pool
      without workers all there are. */
  function Admitted(steps: seq<Step>, n: nat): seq<Task> {
    if steps == [] then []
    else
      var before, last := steps[..|steps| - 1], steps[|steps| - 1];
      Admitted(before, n) + if last.Run? && (n == 0 || Stop !in before) then [last.task] else []
  }

  lemma StepLogs(p: Pool, step: Step)
    requires Enabled(p, step)
    ensures var q, n := Apply(p, step), |p.workers|;
            && |q.workers| == n && (q.running <==> p.running && step != Stop)
            && q.accepted == p.accepted + (if step.Run? && n > 0 && p.running then [step.task] else [])
            && q.inline == p.inline + if step.Run? && n == 0 then [step.task] else []
  {
  }

  lemma OneMoreStep(steps: seq<Step>, i: nat, n: nat)
    requires i < |steps|
    ensures Stop in steps[..i + 1] <==> Stop in steps[..i] || steps[i] == Stop
    ensures Admitted(steps[..i + 1], n) ==
            Admitted(steps[..i], n) + if steps[i].Run? && (n == 0 || Stop !in steps[..i]) then [steps[i].task] else []
  {
    assert steps[..i + 1] == steps[..i] + [steps[i]];
  }

  /** In every run from start just these are accepted, in order, or are called by run itself if
      there are no workers; and the pool runs exactly until the first stop. */
  lemma {:induction false} AdmittedIsAccepted(n: nat, states: seq<Pool>, steps: seq<Step>, i: nat)
    requires IsRun(states, steps) && states[0] == Started(n) && i <= |steps|
    ensures |states[i].workers| == n
    ensures states[i].running <==> Stop !in steps[..i]
    ensures states[i].accepted == if n == 0 then [] else Admitted(steps[..i], n)
    ensures states[i].inline == if n == 0 then Admitted(steps[..i], n) else []
  {
    if i > 0 {
      AdmittedIsAccepted(n, states, steps, i - 1);
      assert Enabled(states[i - 1], steps[i - 1]) && states[i - 1 + 1] == Apply(states[i - 1], steps[i - 1]);
      OneMoreStep(steps, i - 1, n);
      StepLogs(states[i - 1], steps[i - 1]);
    }
  }

  /** What can move worker w, and where to: a task is left only by its own end, for the loop test,
      and entered only by being taken off the queue; a worker sleeps only on an empty queue,
      passes by a task only if there is none after a stop or it is empty, returns only after a
      stop, and one run wakes one sleeper at most. */
  lemma WorkerMoves(p: Pool, step: Step, w: nat)
    requires Enabled(p, step) && w < |p.workers|
    ensures |Apply(p, step).workers| == |p.workers|
    ensures var x, y := p.workers[w], Apply(p, step).workers[w];
            x != y ==>
              && (x.Running? <==> step == Finish(w)) && (x.Running? ==> y == AtLoopTest)
              && (x == AtLoopTest ==> step == LoopTest(w) && y == if p.running then InTake else Done)
              && (x == InTake && y == AtLoopTest ==>
                    if p.queue == [] then !p.running else p.queue[0] == EmptyTask)
              && (y.Running? ==> step == Take(w) && p.queue != [] && y == Running(p.queue[0]))
              && (y == Asleep ==> step == Take(w) && p.queue == [] && p.running)
              && (y == Done ==> step == LoopTest(w) && !p.running)
              && (x == Asleep ==> y == InTake)
              && (x == Asleep ==> step == SpuriousWakeup(w) || step == Stop || (step.Run? && step.wake == w))
  {
  }

  /** A taken task is called: the worker that takes the k-th task is in that very task right
      after its Take step, unless the task is empty. */
  lemma TakenIsCalled(n: nat, states: seq<Pool>, steps: seq<Step>, k: nat) returns (i: nat, w: nat)
    requires IsRun(states, steps) && states[0] == Started(n)
    requires k < |states[|steps|].taken|
    ensures i < |steps| && steps[i] == Take(w) && |states[i].taken| == k && w < n
    ensures |states[i + 1].workers| == n
    ensures var task := states[|steps|].taken[k];
            states[i + 1].workers[w] == if task == EmptyTask then AtLoopTest else Running(task)
  {
    i := ExactlyOnce(n, states, steps, k);
    w := steps[i].w;
    RunKeepsInv(n, states, steps, i);
    assert Enabled(states[i], steps[i]) && states[i + 1] == Apply(states[i], steps[i]);
    assert states[|steps|].accepted[k] == states[|steps|].taken[k];
    assert states[i].queue != [];
    assert states[i + 1].taken[k] == states[i].queue[0];
  }

  const IS_BUSY: Worker -> nat := (w: Worker) => if w.Running? then 1 else 0

  function Calls(tasks: seq<Task>): nat {
    if tasks == [] then 0
    else Calls(tasks[..|tasks| - 1]) + if tasks[|tasks| - 1] == EmptyTask then 0 else 1
  }

  function Finishes(steps: seq<Step>): nat {
    if steps == [] then 0
    else Finishes(steps[..|steps| - 1]) + if steps[|steps| - 1].Finish? then 1 else 0
  }

  lemma StepKeepsCalls(p: Pool, step: Step)
    requires Enabled(p, step)
    ensures var q := Apply(p, step);
            Sum(q.workers, IS_BUSY) + (if step.Finish? then 1 else 0) + Calls(p.taken) ==
            Sum(p.workers, IS_BUSY) + Calls(q.taken)
  {
    var q := Apply(p, step);
    match step
    case Run(task, wake) =>
      if wake < |p.workers| && q.workers != p.workers {
        SumUpdate(p.workers, IS_BUSY, wake, InTake);
      }
    case Stop => WakingKeepsBusy(p.workers);
    case LoopTest(w) => SumUpdate(p.workers, IS_BUSY, w, q.workers[w]);
    case Take(w) =>
      SumUpdate(p.workers, IS_BUSY, w, q.workers[w]);
      if p.queue != [] {
        assert q.taken[..|q.taken| - 1] == p.taken;
      }
    case Finish(w) => SumUpdate(p.workers, IS_BUSY, w, q.workers[w]);
    case SpuriousWakeup(w) => SumUpdate(p.workers, IS_BUSY, w, q.workers[w]);
  }

  lemma {:induction false} WakingKeepsBusy(workers: seq<Worker>)
    ensures Sum(NotifyAll(workers), IS_BUSY) == Sum(workers, IS_BUSY)
  {
    if workers != [] {
      assert NotifyAll(workers)[1..] == NotifyAll(workers[1..]);
      WakingKeepsBusy(workers[1..]);
    }
  }

  /** Conservation of calls: at every point of every run the tasks that were called, all taken
      ones but the empty, are those that have ended and those some worker is in. */
  lemma {:induction false} CallsConserved(n: nat, states: seq<Pool>, steps: seq<Step>, i: nat)
    requires IsRun(states, steps) && states[0] == Started(n) && i <= |steps|
    ensures Calls(states[i].taken) == Finishes(steps[..i]) + Sum(states[i].workers, IS_BUSY)
  {
    if i == 0 {
      NobodyBusy(states[0].workers);
    } else {
      CallsConserved(n, states, steps, i - 1);
      assert Enabled(states[i - 1], steps[i - 1]) && states[i - 1 + 1] == Apply(states[i - 1], steps[i - 1]);
      StepKeepsCalls(states[i - 1], steps[i - 1]);
      assert steps[..i][..i - 1] == steps[..i - 1];
    }
  }

  lemma {:induction false} NobodyBusy(workers: seq<Worker>)
    requires forall w | 0 <= w < |workers| :: !workers[w].Running?
    ensures Sum(workers, IS_BUSY) == 0
  {
    if workers != [] {
      assert forall w | 0 <= w < |workers| - 1 :: workers[1..][w] == workers[w + 1];
      NobodyBusy(workers[1..]);
    }
  }

  /** How many steps a worker still has before it sleeps, if it finds no task. */
  const STEPS_AWAKE: Worker -> nat := (w: Worker) =>
    match w
    case Asleep => 0
    case InTake => 1
    case AtLoopTest => 2
    case Running(_) => 3
    case Done => 0

  /** Each queued task costs one worker its Take, its Finish and the test of the loop. */
  function Work(p: Pool): nat { Sum(p.workers, STEPS_AWAKE) + 3 * |p.queue| }

  /** The steps workers take by themselves, and what those outside allow for. */
  function OwnSteps(steps: seq<Step>): nat {
    if steps == [] then 0
    else
      var last := steps[|steps| - 1];
      OwnSteps(steps[..|steps| - 1]) + if last.LoopTest? || last.Take? || last.Finish? then 1 else 0
  }

  function Allowance(steps: seq<Step>): nat {
    if steps == [] then 0
    else
      Allowance(steps[..|steps| - 1]) +
      match steps[|steps| - 1]
      case Run(_, _) => 4
      case SpuriousWakeup(_) => 1
      case _ => 0
  }

  lemma RunningStep(p: Pool, step: Step)
    requires Inv(p) && Enabled(p, step) && Apply(p, step).running
    ensures p.running
    ensures Work(Apply(p, step)) + OwnSteps([step]) <= Work(p) + Allowance([step])
  {
    var q := Apply(p, step);
    assert [step][..0] == [];
    match step
    case Run(task, wake) =>
      if wake < |p.workers| && q.workers != p.workers {
        SumUpdate(p.workers, STEPS_AWAKE, wake, InTake);
      }
    case LoopTest(w) => SumUpdate(p.workers, STEPS_AWAKE, w, q.workers[w]);
    case Take(w) => SumUpdate(p.workers, STEPS_AWAKE, w, q.workers[w]);
    case Finish(w) => SumUpdate(p.workers, STEPS_AWAKE, w, q.workers[w]);
    case SpuriousWakeup(w) => SumUpdate(p.workers, STEPS_AWAKE, w, q.workers[w]);
  }

  lemma {:induction false} StartedWork(n: nat)
    ensures Work(Started(n)) == 2 * n
  {
    if n > 0 {
      assert Started(n).workers[1..] == Started(n - 1).workers;
      StartedWork(n - 1);
    }
  }

  /** No busy waiting: as long as the pool runs, its workers have together taken at most two
      steps each, four per call of run and one per spurious wake-up, under every scheduler. */
  lemma {:induction false} NoBusyWaiting(n: nat, states: seq<Pool>, steps: seq<Step>, i: nat)
    requires IsRun(states, steps) && states[0] == Started(n) && i <= |steps| && states[i].running
    ensures OwnSteps(steps[..i]) + Work(states[i]) <= 2 * n + Allowance(steps[..i])
  {
    if i == 0 {
      StartedWork(n);
    } else {
      var step := steps[i - 1];
      assert Enabled(states[i - 1], step) && states[i - 1 + 1] == Apply(states[i - 1], step);
      RunKeepsInv(n, states, steps, i - 1);
      RunningStep(states[i - 1], step);
      NoBusyWaiting(n, states, steps, i - 1);
      assert steps[..i][..i - 1] == steps[..i - 1] && [step][..0] == [];
    }
  }

  lemma QuietState(p: Pool)
    requires Inv(p) && p.running && p.workers != []
    requires forall w: nat, step | StepOf(step, w) :: !Enabled(p, step)
    ensures p.queue == [] && forall w | 0 <= w < |p.workers| :: p.workers[w] == Asleep
  {
    forall w | 0 <= w < |p.workers|
      ensures p.workers[w] == Asleep
    {
      assert StepOf(LoopTest(w), w) && StepOf(Take(w), w) && StepOf(Finish(w), w);
    }
    assert p.workers[0] == Asleep;
    if Ready(p) > 0 {
      var w := SumHasPositive(p.workers, IS_READY);
    }
  }

  /** Every task is run: when, in a pool that runs, no worker has a step left to take by itself
      (by NoBusyWaiting that comes about), all tasks given to run have been taken, in order, and
      the calls of all that are not empty have ended; and all workers sleep. */
  lemma QuietMeansAllDone(n: nat, states: seq<Pool>, steps: seq<Step>)
    requires IsRun(states, steps) && states[0] == Started(n) && n > 0
    requires var last := states[|steps|];
             last.running && forall w: nat, step | StepOf(step, w) :: !Enabled(last, step)
    ensures var last := states[|steps|];
            && last.queue == [] && last.taken == Admitted(steps, n)
            && Finishes(steps) == Calls(last.taken)
            && |last.workers| == n && forall w | 0 <= w < n :: last.workers[w] == Asleep
  {
    var last := states[|steps|];
    RunKeepsInv(n, states, steps, |steps|);
    AdmittedIsAccepted(n, states, steps, |steps|);
    CallsConserved(n, states, steps, |steps|);
    assert steps[..|steps|] == steps;
    QuietState(last);
    NobodyBusy(last.workers);
  }

  /** When, after a stop, all workers have returned, every call of a task has ended. */
  lemma ReturnedMeansCallsEnded(n: nat, states: seq<Pool>, steps: seq<Step>)
    requires IsRun(states, steps) && states[0] == Started(n)
    requires forall w | 0 <= w < |states[|steps|].workers| :: states[|steps|].workers[w] == Done
    ensures Finishes(steps) == Calls(states[|steps|].taken)
  {
    CallsConserved(n, states, steps, |steps|);
    NobodyBusy(states[|steps|].workers);
    assert steps[..|steps|] == steps;
  }
}
