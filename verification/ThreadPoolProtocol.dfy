// The condition-variable protocol of log_time_server's ThreadPool.cc: one step per region
// that runs under the mutex or reads running_ once, in any interleaving.

module ThreadPoolProtocol {
  import opened Helpers

  /** A queued std::function. An empty one is taken from the queue but not called. */
  datatype Task = Task(id: nat) | EmptyTask

  /** Where a worker is: at the test of the loop in runInThread, waiting on notEmpty_, in
      take and about to test the wait condition under the mutex, in task(), or returned. */
  datatype Worker = AtLoopTest | Asleep | InTake | Running(task: Task) | Done

  datatype Pool = Pool(
    workers: seq<Worker>,
    queue: seq<Task>,
    running: bool,
    accepted: seq<Task>,  // every task run pushed, in order
    taken: seq<Task>,     // every task take returned, in order
    inline: seq<Task>     // every task run called itself, having no workers
  )

  /** `start(n)`: running_ is set before the first thread exists. */
  function Started(n: nat): Pool {
    Pool(seq(n, _ => AtLoopTest), [], true, [], [], [])
  }

  datatype Step =
    | Run(task: Task, wake: nat)  // wake: the waiter that notify picks, if there is one
    | Stop
    | LoopTest(w: nat)
    | Take(w: nat)
    | Finish(w: nat)
    | SpuriousWakeup(w: nat)

  predicate SomeAsleep(workers: seq<Worker>) {
    exists w | 0 <= w < |workers| :: workers[w] == Asleep
  }

  predicate Enabled(p: Pool, step: Step) {
    match step
    case Run(_, wake) => SomeAsleep(p.workers) ==> wake < |p.workers| && p.workers[wake] == Asleep
    case Stop => true
    case LoopTest(w) => w < |p.workers| && p.workers[w] == AtLoopTest
    case Take(w) => w < |p.workers| && p.workers[w] == InTake
    case Finish(w) => w < |p.workers| && p.workers[w].Running?
    case SpuriousWakeup(w) => w < |p.workers| && p.workers[w] == Asleep
  }

  /** `notify`: one waiter, if any, leaves the wait. */
  function Notify(workers: seq<Worker>, wake: nat): seq<Worker> {
    if wake < |workers| && workers[wake] == Asleep then workers[wake := InTake] else workers
  }

  function NotifyAll(workers: seq<Worker>): seq<Worker> {
    seq(|workers|, w requires 0 <= w < |workers| => if workers[w] == Asleep then InTake else workers[w])
  }

  function Apply(p: Pool, step: Step): Pool
    requires Enabled(p, step)
  {
    match step
    case Run(task, wake) =>
      if p.workers == [] then p.(inline := p.inline + [task])
      else if !p.running then p
      else p.(queue := p.queue + [task], accepted := p.accepted + [task], workers := Notify(p.workers, wake))
    case Stop => p.(running := false, workers := NotifyAll(p.workers))
    case LoopTest(w) => p.(workers := p.workers[w := if p.running then InTake else Done])
    case Take(w) =>
      if p.queue == [] then
        p.(workers := p.workers[w := if p.running then Asleep else AtLoopTest])
      else
        var task := p.queue[0];
        p.(queue := p.queue[1..], taken := p.taken + [task],
           workers := p.workers[w := if task == EmptyTask then AtLoopTest else Running(task)])
    case Finish(w) => p.(workers := p.workers[w := AtLoopTest])
    case SpuriousWakeup(w) => p.(workers := p.workers[w := InTake])
  }

  /** A run: states[i] goes to states[i + 1] by steps[i]. */
  ghost predicate IsRun(states: seq<Pool>, steps: seq<Step>) {
    && |states| == |steps| + 1
    && forall i | 0 <= i < |steps| :: Enabled(states[i], steps[i]) && states[i + 1] == Apply(states[i], steps[i])
  }

  function Sum(workers: seq<Worker>, f: Worker -> nat): nat {
    if workers == [] then 0 else f(workers[0]) + Sum(workers[1..], f)
  }

  lemma {:induction false} SumUpdate(workers: seq<Worker>, f: Worker -> nat, w: nat, x: Worker)
    requires w < |workers|
    ensures Sum(workers[w := x], f) == Sum(workers, f) - f(workers[w]) + f(x)
  {
    if w > 0 {
      assert workers[w := x][1..] == workers[1..][w - 1 := x];
      SumUpdate(workers[1..], f, w - 1, x);
    } else {
      assert workers[w := x][1..] == workers[1..];
    }
  }

  lemma SumHasPositive(workers: seq<Worker>, f: Worker -> nat) returns (w: nat)
    requires Sum(workers, f) > 0
    ensures w < |workers| && f(workers[w]) > 0
  {
    if f(workers[0]) > 0 {
      w := 0;
    } else {
      w := SumHasPositive(workers[1..], f);
      w := w + 1;
    }
  }

  lemma {:induction false} SumHasAll(workers: seq<Worker>, f: Worker -> nat, w: nat)
    requires w < |workers|
    ensures Sum(workers, f) >= f(workers[w])
  {
    if w > 0 {
      SumHasAll(workers[1..], f, w - 1);
    }
  }

  const IS_AWAKE: Worker -> nat := w => if w == Asleep then 0 else 1

  /** The number of workers not asleep in wait. */
  function Awake(p: Pool): nat { Sum(p.workers, IS_AWAKE) }

  const IS_READY: Worker -> nat := w => if w == AtLoopTest || w == InTake then 1 else 0

  /** The number of workers on their way to take: neither asleep in wait nor busy in a task. */
  function Ready(p: Pool): nat { Sum(p.workers, IS_READY) }

  lemma {:induction false} AllAwake(workers: seq<Worker>)
    requires !SomeAsleep(workers)
    ensures Sum(workers, IS_AWAKE) == |workers|
  {
    if workers != [] {
      forall w | 0 <= w < |workers| - 1
        ensures workers[1..][w] != Asleep
      {
        assert workers[w + 1] != Asleep;
      }
      AllAwake(workers[1..]);
    }
  }

  lemma {:induction false} ReadyIsAwake(workers: seq<Worker>)
    ensures Sum(workers, IS_READY) <= Sum(workers, IS_AWAKE)
  {
    if workers != [] {
      ReadyIsAwake(workers[1..]);
    }
  }

  /** What every state of every run satisfies. */
  ghost predicate Inv(p: Pool) {
    // no wake-up is lost: while anyone sleeps, every queued task has a worker on its way to it
    && (p.running && SomeAsleep(p.workers) ==> Ready(p) >= |p.queue|)
    // nobody returns early, and nobody sleeps through a stop
    && (p.running ==> forall w | 0 <= w < |p.workers| :: p.workers[w] != Done)
    && (!p.running ==> !SomeAsleep(p.workers))
    // accepted tasks are the taken ones followed by the waiting ones
    && p.accepted == p.taken + p.queue
    && (p.workers == [] ==> p.accepted == [])
    && (p.workers != [] ==> p.inline == [])
  }

  lemma StartedInv(n: nat)
    ensures Inv(Started(n))
  {
  }

  lemma StepKeepsReady(p: Pool, step: Step)
    requires Inv(p) && Enabled(p, step) && p.workers != []
    ensures var q := Apply(p, step);
            q.running && SomeAsleep(q.workers) ==> Ready(q) >= |q.queue|
  {
    var q := Apply(p, step);
    match step
    case Run(task, wake) =>
      if SomeAsleep(p.workers) {
        SumUpdate(p.workers, IS_READY, wake, InTake);
      }
    case Stop =>
    case LoopTest(w) => SumUpdate(p.workers, IS_READY, w, q.workers[w]);
    case Take(w) => SumUpdate(p.workers, IS_READY, w, q.workers[w]);
    case Finish(w) => SumUpdate(p.workers, IS_READY, w, q.workers[w]);
    case SpuriousWakeup(w) => SumUpdate(p.workers, IS_READY, w, q.workers[w]);
  }

  lemma StepKeepsInv(p: Pool, step: Step)
    requires Inv(p) && Enabled(p, step)
    ensures Inv(Apply(p, step)) && |Apply(p, step).workers| == |p.workers|
  {
    if p.workers != [] {
      StepKeepsReady(p, step);
    }
  }

  /** The invariant holds at every point of every run from start, under every interleaving. */
  lemma {:induction false} RunKeepsInv(n: nat, states: seq<Pool>, steps: seq<Step>, i: nat)
    requires IsRun(states, steps) && states[0] == Started(n) && i <= |steps|
    ensures Inv(states[i]) && |states[i].workers| == n
  {
    if i == 0 {
      StartedInv(n);
    } else {
      RunKeepsInv(n, states, steps, i - 1);
      StepKeepsInv(states[i - 1], steps[i - 1]);
    }
  }

  /** No lost wake-up: while the pool runs, as long as any worker sleeps in wait there are at
      least as many workers at the loop test or in take as there are tasks in the queue; a
      worker busy in a task does not count. So at least min(queue length, n) of the n workers
      are not asleep. */
  lemma NoLostWakeup(n: nat, states: seq<Pool>, steps: seq<Step>, i: nat)
    requires IsRun(states, steps) && states[0] == Started(n) && i <= |steps|
    requires states[i].running
    ensures SomeAsleep(states[i].workers) ==> Ready(states[i]) >= |states[i].queue|
    ensures Awake(states[i]) >= Min(|states[i].queue|, n)
  {
    RunKeepsInv(n, states, steps, i);
    ReadyIsAwake(states[i].workers);
    if !SomeAsleep(states[i].workers) {
      AllAwake(states[i].workers);
    }
  }

  /** The steps that worker w takes by itself. */
  predicate StepOf(step: Step, w: nat) {
    step == LoopTest(w) || step == Take(w) || step == Finish(w)
  }

  /** Worker w, which is on its way to take, gets the oldest task by its own next steps. */
  lemma ReadyWorkerTakes(p: Pool, w: nat) returns (states: seq<Pool>, steps: seq<Step>)
    requires p.running && p.queue != [] && w < |p.workers| && IS_READY(p.workers[w]) > 0
    ensures IsRun(states, steps) && states[0] == p
    ensures steps == if p.workers[w] == InTake then [Take(w)] else [LoopTest(w), Take(w)]
    ensures states[|steps|].taken == p.taken + [p.queue[0]] && states[|steps|].queue == p.queue[1..]
  {
    states, steps := [p], [];
    if p.workers[w] == AtLoopTest {
      states, steps := states + [Apply(p, LoopTest(w))], [LoopTest(w)];
    }
    states, steps := states + [Apply(states[|steps|], Take(w))], steps + [Take(w)];
  }

  /** Nor does a queued task wait for a notify, a spurious wake-up or the end of some task while
      a worker sleeps: in every reachable running state with a task in the queue, if any worker
      is not busy one takes the oldest task by at most two steps of its own, and so it is
      whenever a worker sleeps. Only when all are busy must one of them finish first. */
  lemma HeadIsTakenByAnAwakeWorker(p: Pool) returns (w: nat, states: seq<Pool>, steps: seq<Step>)
    requires Inv(p) && p.running && p.queue != [] && p.workers != []
    ensures IsRun(states, steps) && states[0] == p
    ensures forall step | step in steps :: StepOf(step, w)
    ensures states[|steps|].taken == p.taken + [p.queue[0]] && states[|steps|].queue == p.queue[1..]
    ensures var allBusy := forall v | 0 <= v < |p.workers| :: p.workers[v].Running?;
            && (if allBusy then steps == [Finish(w), LoopTest(w), Take(w)]
                else |steps| <= 2 && Finish(w) !in steps)
            && (SomeAsleep(p.workers) ==> !allBusy)
  {
    if Ready(p) > 0 {
      w := SumHasPositive(p.workers, IS_READY);
      states, steps := ReadyWorkerTakes(p, w);
    } else {
      w := 0;
      forall v | 0 <= v < |p.workers|
        ensures p.workers[v].Running?
      {
        if IS_READY(p.workers[v]) > 0 {
          SumHasAll(p.workers, IS_READY, v);
        }
      }
      var q := Apply(p, Finish(w));
      states, steps := ReadyWorkerTakes(q, w);
      states, steps := [p] + states, [Finish(w)] + steps;
    }
  }

  /** Tasks are only ever added at the end of what was accepted and of what was taken. */
  lemma {:induction false} LogsGrow(states: seq<Pool>, steps: seq<Step>, i: nat, j: nat)
    requires IsRun(states, steps) && i <= j <= |steps|
    ensures states[i].accepted <= states[j].accepted && states[i].taken <= states[j].taken
    decreases j - i
  {
    if i < j {
      LogsGrow(states, steps, i, j - 1);
      assert Enabled(states[j - 1], steps[j - 1]);
      var a, b := states[j - 1], states[j];
      assert b == Apply(a, steps[j - 1]);
      assert a.accepted <= b.accepted && a.taken <= b.taken;
    }
  }

  /** FIFO and exactly once: accepted tasks are those taken, in order, and then the queue; and
      the k-th accepted task is taken by one Take step, the one that makes k + 1 taken tasks
      out of k, and by no other. */
  lemma {:induction false} ExactlyOnce(n: nat, states: seq<Pool>, steps: seq<Step>, k: nat) returns (i: nat)
    requires IsRun(states, steps) && states[0] == Started(n)
    requires k < |states[|steps|].taken|
    ensures states[|steps|].accepted == states[|steps|].taken + states[|steps|].queue
    ensures i < |steps| && steps[i].Take? && |states[i].taken| == k
    ensures states[i + 1].taken == states[i].taken + [states[|steps|].accepted[k]]
    ensures forall j | 0 <= j < |steps| && j != i :: !(|states[j].taken| <= k < |states[j + 1].taken|)
  {
    RunKeepsInv(n, states, steps, |steps|);
    i := 0;
    while |states[i + 1].taken| <= k
      invariant i < |steps| && |states[i].taken| <= k
      decreases |steps| - i
    {
      i := i + 1;
    }
    assert Enabled(states[i], steps[i]) && states[i + 1] == Apply(states[i], steps[i]);
    LogsGrow(states, steps, i + 1, |steps|);
    forall j | 0 <= j < |steps| && j != i
      ensures !(|states[j].taken| <= k < |states[j + 1].taken|)
    {
      if j < i {
        LogsGrow(states, steps, j + 1, i);
      } else {
        LogsGrow(states, steps, i + 1, j);
      }
    }
  }

  // ---- stop ----

  /** How many steps a worker still has before it returns, once running_ is false. */
  const STEPS_LEFT: Worker -> nat := (w: Worker) =>
    match w
    case Asleep => 4
    case InTake => 3
    case Running(_) => 2
    case AtLoopTest => 1
    case Done => 0

  function Measure(p: Pool): nat { Sum(p.workers, STEPS_LEFT) }

  lemma {:induction false} MeasureBound(workers: seq<Worker>)
    requires !SomeAsleep(workers)
    ensures Sum(workers, STEPS_LEFT) <= 3 * |workers|
  {
    if workers != [] {
      forall w | 0 <= w < |workers| - 1
        ensures workers[1..][w] != Asleep
      {
        assert workers[w + 1] != Asleep;
      }
      MeasureBound(workers[1..]);
    }
  }

  predicate WorkerStep(step: Step) { !step.Run? && !step.Stop? }

  /** After a stop every step of a worker decreases the measure, no other step changes the
      pool at all, and the pool stays stopped. */
  lemma StoppedStep(p: Pool, step: Step)
    requires Inv(p) && !p.running && p.workers != [] && Enabled(p, step)
    ensures WorkerStep(step) ==> Measure(Apply(p, step)) < Measure(p)
    ensures !WorkerStep(step) ==> Apply(p, step) == p
    ensures !Apply(p, step).running
  {
    var q := Apply(p, step);
    match step
    case Run(_, _) =>
    case Stop => assert q.workers == p.workers;
    case LoopTest(w) => SumUpdate(p.workers, STEPS_LEFT, w, q.workers[w]);
    case Take(w) => SumUpdate(p.workers, STEPS_LEFT, w, q.workers[w]);
    case Finish(w) => SumUpdate(p.workers, STEPS_LEFT, w, q.workers[w]);
    case SpuriousWakeup(w) => assert false;
  }

  function WorkerSteps(steps: seq<Step>): nat {
    if steps == [] then 0
    else WorkerSteps(steps[..|steps| - 1]) + if WorkerStep(steps[|steps| - 1]) then 1 else 0
  }

  /** How many tasks worker w takes in a run. */
  ghost function TasksTaken(states: seq<Pool>, steps: seq<Step>, w: nat): nat
    requires IsRun(states, steps)
  {
    if steps == [] then 0
    else
      var last := |steps| - 1;
      TasksTaken(states[..|steps|], steps[..last], w) +
      if steps[last] == Take(w) && states[last].queue != [] then 1 else 0
  }

  /** Every run after a stop: the workers together make at most as many steps as the measure
      says, each starts at most one more task, nothing is accepted, and the tasks not started
      are still queued in their order. */
  lemma {:induction false} AfterStop(states: seq<Pool>, steps: seq<Step>, w: nat)
    requires IsRun(states, steps)
    requires Inv(states[0]) && !states[0].running && w < |states[0].workers|
    ensures var first, last := states[0], states[|steps|];
            && Inv(last) && !last.running && |last.workers| == |first.workers|
            && WorkerSteps(steps) + Measure(last) <= Measure(first) <= 3 * |first.workers|
            && TasksTaken(states, steps, w) + (if last.workers[w] == InTake then 1 else 0)
                 <= (if first.workers[w] == InTake then 1 else 0)
            && last.accepted == first.accepted
            && first.taken <= last.taken
            && first.queue == last.taken[|first.taken|..] + last.queue
  {
    var first := states[0];
    if steps == [] {
      MeasureBound(first.workers);
      assert first.taken[|first.taken|..] == [];
    } else {
      var n := |steps| - 1;
      var before, p, q := states[..|steps|], states[n], states[n + 1];
      assert Enabled(p, steps[n]) && q == Apply(p, steps[n]);
      AfterStop(before, steps[..n], w);
      assert before[n] == p;
      StepKeepsInv(p, steps[n]);
      StoppedStep(p, steps[n]);
      StoppedTake(first, p, steps[n]);
      StoppedWorker(p, steps[n], w);
    }
  }

  /** In a stopped pool a step of anyone else leaves worker w where it is, and only Take moves
      it out of take; nothing moves it back in. */
  lemma StoppedWorker(p: Pool, step: Step, w: nat)
    requires Inv(p) && !p.running && Enabled(p, step) && w < |p.workers|
    ensures Apply(p, step).workers[w] == InTake <==> p.workers[w] == InTake && step != Take(w)
    ensures step == Take(w) ==> p.workers[w] == InTake
  {
  }

  lemma StoppedTake(first: Pool, p: Pool, step: Step)
    requires !p.running && p.workers != [] && Enabled(p, step)
    requires first.taken <= p.taken && first.queue == p.taken[|first.taken|..] + p.queue
    ensures var q := Apply(p, step);
            && q.accepted == p.accepted
            && first.taken <= q.taken
            && first.queue == q.taken[|first.taken|..] + q.queue
  {
  }

  /** What follows a stop, in any run from start: at most three more steps per worker, at most
      one more task each, and nothing accepted; what is taken comes off the queue's front. */
  lemma StopEndsEveryRun(n: nat, states: seq<Pool>, steps: seq<Step>, i: nat, w: nat)
    requires IsRun(states, steps) && states[0] == Started(n)
    requires i < |steps| && steps[i] == Stop && w < n
    ensures IsRun(states[i + 1..], steps[i + 1..])
    ensures var last := states[|steps|];
            && !last.running && last.accepted == states[i].accepted
            && states[i].taken <= last.taken
            && states[i].queue == last.taken[|states[i].taken|..] + last.queue
            && WorkerSteps(steps[i + 1..]) + Measure(last) <= 3 * n
            && TasksTaken(states[i + 1..], steps[i + 1..], w) <= 1
  {
    RunKeepsInv(n, states, steps, i + 1);
    assert Enabled(states[i], steps[i]) && states[i + 1] == Apply(states[i], Stop);
    var later, rest := states[i + 1..], steps[i + 1..];
    forall j | 0 <= j < |rest|
      ensures Enabled(later[j], rest[j]) && later[j + 1] == Apply(later[j], rest[j])
    {
      var k := i + 1 + j;
      assert Enabled(states[k], steps[k]) && states[k + 1] == Apply(states[k], steps[k]);
    }
    AfterStop(later, rest, w);
  }

  /** When no worker can make another step, all have returned: the joins in stop return. */
  lemma StoppedAndStuckMeansDone(p: Pool)
    requires Inv(p) && !p.running
    requires forall step | Enabled(p, step) :: !WorkerStep(step)
    ensures forall w | 0 <= w < |p.workers| :: p.workers[w] == Done
  {
    forall w | 0 <= w < |p.workers|
      ensures p.workers[w] == Done
    {
      assert !Enabled(p, LoopTest(w));
      assert !Enabled(p, Take(w));
      assert !Enabled(p, Finish(w));
      assert p.workers[w] != Asleep;
    }
  }
}
