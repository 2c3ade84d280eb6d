// The pool object of ThreadPool.cc. Each method is one region that runs under mutex_ or one
// read of running_, done by the caller or by worker w, and is one protocol step.

module ThreadPool {
  import opened ThreadPoolProtocol

  class ThreadPool {
    var threads: seq<Worker>
    var queue: seq<Task>
    var running: bool
    // Tasks pushed, tasks taken from the queue, tasks run without a worker.
    ghost var accepted: seq<Task>
    ghost var taken: seq<Task>
    ghost var inline: seq<Task>

    ghost function State(): Pool
      reads this
    {
      Pool(threads, queue, running, accepted, taken, inline)
    }

    constructor ()
      ensures State() == Pool([], [], false, [], [], [])
    {
      threads, queue, running := [], [], false;
      accepted, taken, inline := [], [], [];
    }

    method Start(numThreads: nat)
      requires State() == Pool([], [], false, [], [], [])
      modifies this
      ensures State() == Started(numThreads)
    {
      running := true;
      for i := 0 to numThreads
        invariant State() == Started(i)
      {
        threads := threads + [AtLoopTest];
      }
    }

    /** `notEmpty_.notify()`: the scheduler picks one of the waiters. */
    method Notify() returns (ghost wake: nat)
      modifies this`threads
      ensures SomeAsleep(old(threads)) ==> wake < |old(threads)| && old(threads)[wake] == Asleep
      ensures threads == ThreadPoolProtocol.Notify(old(threads), wake)
    {
      wake := |threads|;
      if SomeAsleep(threads) {
        var w :| 0 <= w < |threads| && threads[w] == Asleep;
        threads := threads[w := InTake];
        wake := w;
      }
    }

    /** `run` */
    method RunTask(task: Task) returns (ghost step: Step)
      modifies this
      ensures step.Run? && step.task == task && Enabled(old(State()), step)
      ensures State() == Apply(old(State()), step)
    {
      step := Run(task, if SomeAsleep(threads) then var w :| 0 <= w < |threads| && threads[w] == Asleep; w else 0);
      if threads == [] {
        inline := inline + [task];
      } else {
        if !running {
          return;
        }
        queue := queue + [task];
        accepted := accepted + [task];
        if queue != [] {
          ghost var wake := Notify();
          step := Run(task, wake);
        }
      }
    }

    /** `stop` up to its joins */
    method StopRunning()
      modifies this
      ensures State() == Apply(old(State()), Stop)
    {
      running := false;
      var i := 0;
      while i < |threads|
        invariant i <= |threads| == |old(threads)|
        invariant forall w | 0 <= w < |threads| ::
                    threads[w] == if w < i then NotifyAll(old(threads))[w] else old(threads)[w]
        invariant !running && queue == old(queue)
        invariant accepted == old(accepted) && taken == old(taken) && inline == old(inline)
      {
        if threads[i] == Asleep {
          threads := threads[i := InTake];
        }
        i := i + 1;
      }
    }

    /** `while (running_)` in runInThread */
    method TestLoop(w: nat)
      requires Enabled(State(), LoopTest(w))
      modifies this
      ensures State() == Apply(old(State()), LoopTest(w))
    {
      threads := threads[w := if running then InTake else Done];
    }

    /** One pass of `take` under the mutex: the test of the wait condition and what follows,
        up to the wait or to the test of the task in runInThread. */
    method TakeTask(w: nat)
      requires Enabled(State(), Take(w))
      modifies this
      ensures State() == Apply(old(State()), Take(w))
    {
      if queue == [] && running {
        threads := threads[w := Asleep];
      } else {
        var task := EmptyTask;
        if queue != [] {
          task := queue[0];
          queue := queue[1..];
          taken := taken + [task];
        }
        threads := threads[w := if task != EmptyTask then Running(task) else AtLoopTest];
      }
    }

    /** `task()` returns. */
    method FinishTask(w: nat)
      requires Enabled(State(), Finish(w))
      modifies this
      ensures State() == Apply(old(State()), Finish(w))
    {
      threads := threads[w := AtLoopTest];
    }
  }
}
