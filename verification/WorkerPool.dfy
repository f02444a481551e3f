/**
 The bounded worker pool: a queue with a capacity, a fixed number of workers, and a signal that
 makes idle workers leave. Every channel operation is one step and the steps of submitters and
 workers interleave arbitrarily. A task is named by the number of its submission.
 */
module WorkerPool {

  type Task = nat

  datatype Worker = Idle | Busy(task: Task) | Left

  datatype Pool = Pool(
    capacity: nat,
    queue: seq<Task>,
    workers: seq<Worker>,
    closed: bool,
    returned: bool,       // Shutdown has returned
    submitted: nat,
    dropped: set<Task>,
    started: seq<Task>,
    done: set<Task>)

  datatype Step =
    | Submit             // the queue takes the task, or it is dropped
    | HandOver(w: nat)   // a task is submitted while this worker waits on an empty queue
    | Receive(w: nat)
    | Finish(w: nat)
    | Leave(w: nat)      // the worker sees the closed signal
    | Close              // Shutdown closes the signal
    | Return             // Shutdown has waited for all workers

  function NewPool(numWorkers: nat, capacity: nat): Pool {
    Pool(capacity, [], seq(numWorkers, _ => Idle), false, false, 0, {}, [], {})
  }

  predicate Enabled(p: Pool, step: Step) {
    match step
    case Submit => true
    case HandOver(w) => w < |p.workers| && p.workers[w] == Idle && p.queue == []
    case Receive(w) => w < |p.workers| && p.workers[w] == Idle && p.queue != []
    case Finish(w) => w < |p.workers| && p.workers[w].Busy?
    case Leave(w) => w < |p.workers| && p.workers[w] == Idle && p.closed
    case Close => !p.closed
    case Return => p.closed && !p.returned && forall w :: 0 <= w < |p.workers| ==> p.workers[w] == Left
  }

  function Apply(p: Pool, step: Step): Pool
    requires Enabled(p, step)
  {
    match step
    case Submit =>
      if |p.queue| < p.capacity
      then p.(queue := p.queue + [p.submitted], submitted := p.submitted + 1)
      else p.(dropped := p.dropped + {p.submitted}, submitted := p.submitted + 1)
    case HandOver(w) =>
      p.(workers := p.workers[w := Busy(p.submitted)], started := p.started + [p.submitted],
         submitted := p.submitted + 1)
    case Receive(w) =>
      p.(workers := p.workers[w := Busy(p.queue[0])], started := p.started + [p.queue[0]], queue := p.queue[1..])
    case Finish(w) => p.(workers := p.workers[w := Idle], done := p.done + {p.workers[w].task})
    case Leave(w) => p.(workers := p.workers[w := Left])
    case Close => p.(closed := true)
    case Return => p.(returned := true)
  }

  predicate Run(pools: seq<Pool>, steps: seq<Step>) {
    && |pools| == |steps| + 1
    && forall i :: 0 <= i < |steps| ==> Enabled(pools[i], steps[i]) && pools[i + 1] == Apply(pools[i], steps[i])
  }

  /** The pool's own state, and the number that names the next task; the history is kept for the
      proofs only. */
  class ConcretePool {
    const capacity: nat
    var queue: seq<Task>
    var workers: seq<Worker>
    var closed: bool
    var returned: bool
    var submitted: nat
    ghost var history: Pool

    ghost predicate Valid()
      reads this
    {
      && history.capacity == capacity && history.queue == queue && history.workers == workers
      && history.closed == closed && history.returned == returned && history.submitted == submitted
    }

    constructor (numWorkers: nat, capacity: nat)
      ensures Valid() && history == NewPool(numWorkers, capacity)
    {
      this.capacity := capacity;
      queue, workers, closed, returned, submitted := [], seq(numWorkers, _ => Idle), false, false, 0;
      history := NewPool(numWorkers, capacity);
    }

    /** No worker waits for a task. Never blocks: a full queue drops the task. */
    method Submit()
      requires Valid()
      modifies this
      ensures Valid() && history == Apply(old(history), Step.Submit)
    {
      if |queue| < capacity {
        queue := queue + [submitted];
      }
      submitted := submitted + 1;
      history := Apply(history, Step.Submit);
    }

    /** A worker that waits on the empty queue gets the task directly, even without a buffer. */
    method HandOver(w: nat)
      requires Valid() && Enabled(history, Step.HandOver(w))
      modifies this
      ensures Valid() && history == Apply(old(history), Step.HandOver(w))
    {
      workers := workers[w := Busy(submitted)];
      submitted := submitted + 1;
      history := Apply(history, Step.HandOver(w));
    }

    method Receive(w: nat)
      requires Valid() && Enabled(history, Step.Receive(w))
      modifies this
      ensures Valid() && history == Apply(old(history), Step.Receive(w))
    {
      var task := queue[0];
      queue := queue[1..];
      workers := workers[w := Busy(task)];
      history := Apply(history, Step.Receive(w));
    }

    method Finish(w: nat)
      requires Valid() && Enabled(history, Step.Finish(w))
      modifies this
      ensures Valid() && history == Apply(old(history), Step.Finish(w))
    {
      workers := workers[w := Idle];
      history := Apply(history, Step.Finish(w));
    }

    method Leave(w: nat)
      requires Valid() && Enabled(history, Step.Leave(w))
      modifies this
      ensures Valid() && history == Apply(old(history), Step.Leave(w))
    {
      workers := workers[w := Left];
      history := Apply(history, Step.Leave(w));
    }

    method CloseSignal()
      requires Valid() && Enabled(history, Close)
      modifies this
      ensures Valid() && history == Apply(old(history), Close)
    {
      closed := true;
      history := Apply(history, Close);
    }

    /** One look at the wait group: the wait is over exactly when all workers have left. */
    method Wait() returns (over: bool)
      requires Valid() && closed && !returned
      modifies this
      ensures Valid() && (over <==> Enabled(old(history), Return))
      ensures history == if over then Apply(old(history), Return) else old(history)
    {
      over := forall w :: 0 <= w < |workers| ==> workers[w] == Left;
      if over {
        returned := true;
        history := Apply(history, Return);
      }
    }
  }

  // ---------------------------------------------------------------------------------------
  // Conservation and order
  // ---------------------------------------------------------------------------------------

  predicate Increasing(tasks: seq<Task>) {
    forall i, j :: 0 <= i < j < |tasks| ==> tasks[i] < tasks[j]
  }

  predicate Running(p: Pool, task: Task) {
    exists w :: 0 <= w < |p.workers| && p.workers[w] == Busy(task)
  }

  ghost predicate QueueInv(p: Pool) {
    && |p.queue| <= p.capacity
    && Increasing(p.started + p.queue)
    && (forall t :: t in p.started + p.queue || t in p.dropped ==> t < p.submitted)
    && (forall t :: t in p.dropped ==> t !in p.started + p.queue)
    && (forall t :: 0 <= t < p.submitted ==> t in p.dropped || t in p.started + p.queue)
  }

  predicate WorkerInv(p: Pool) {
    && (forall w :: 0 <= w < |p.workers| && p.workers[w].Busy?
                    ==> p.workers[w].task in p.started && p.workers[w].task !in p.done)
    && (forall v, w :: 0 <= v < w < |p.workers| && p.workers[v].Busy? ==> p.workers[v] != p.workers[w])
    && (forall t :: t in p.done ==> t in p.started)
    && (forall t :: t in p.started && t !in p.done ==> Running(p, t))
    && (p.returned ==> p.closed && forall w :: 0 <= w < |p.workers| ==> p.workers[w] == Left)
  }

  ghost predicate Inv(p: Pool) {
    QueueInv(p) && WorkerInv(p)
  }

  lemma AppendIncreasing(tasks: seq<Task>, t: Task)
    requires Increasing(tasks) && forall u :: u in tasks ==> u < t
    ensures Increasing(tasks + [t])
  {
    assert forall i :: 0 <= i < |tasks| ==> tasks[i] in tasks;
  }

  lemma QueuedNotStarted(p: Pool, t: Task)
    requires Increasing(p.started + p.queue) && t in p.queue
    ensures t !in p.started
  {
    var n :| 0 <= n < |p.queue| && p.queue[n] == t;
    forall m | 0 <= m < |p.started|
      ensures p.started[m] != t
    {
      assert (p.started + p.queue)[m] < (p.started + p.queue)[|p.started| + n];
    }
  }

  /** Receiving does not change the sequence of started and queued tasks; a submission appends to
      it or drops the task. */
  lemma StepKeepsQueueInv(p: Pool, step: Step)
    requires QueueInv(p) && Enabled(p, step)
    ensures QueueInv(Apply(p, step))
  {
    var p' := Apply(p, step);
    var known, known' := p.started + p.queue, p'.started + p'.queue;
    AppendIncreasing(known, p.submitted);
    if step.Receive? {
      assert known' == known;
    } else if known' != known {
      assert known' == known + [p.submitted];
    }
  }

  /** A worker becomes busy with a task that has not been started before. */
  lemma StartKeepsWorkerInv(p: Pool, p': Pool, w: nat, t: Task)
    requires WorkerInv(p) && w < |p.workers| && p.workers[w] == Idle && t !in p.started
    requires p'.workers == p.workers[w := Busy(t)] && p'.started == p.started + [t] && p'.done == p.done
    requires p'.returned == p.returned && p'.closed == p.closed
    ensures WorkerInv(p')
  {
    forall u | u in p'.started && u !in p'.done
      ensures Running(p', u)
    {
      if u == t {
        assert p'.workers[w] == Busy(t);
      } else {
        assert u in p.started && Running(p, u);
        var v :| 0 <= v < |p.workers| && p.workers[v] == Busy(u);
        assert p'.workers[v] == Busy(u);
      }
    }
  }

  lemma FinishKeepsWorkerInv(p: Pool, w: nat)
    requires WorkerInv(p) && Enabled(p, Finish(w))
    ensures WorkerInv(Apply(p, Finish(w)))
  {
    var p' := Apply(p, Finish(w));
    forall u | u in p'.started && u !in p'.done
      ensures Running(p', u)
    {
      assert Running(p, u);
      var v :| 0 <= v < |p.workers| && p.workers[v] == Busy(u);
      assert p'.workers[v] == Busy(u);
    }
  }

  lemma LeaveKeepsWorkerInv(p: Pool, w: nat)
    requires WorkerInv(p) && Enabled(p, Leave(w))
    ensures WorkerInv(Apply(p, Leave(w)))
  {
    var p' := Apply(p, Leave(w));
    forall u | u in p'.started && u !in p'.done
      ensures Running(p', u)
    {
      assert Running(p, u);
      var v :| 0 <= v < |p.workers| && p.workers[v] == Busy(u);
      assert p'.workers[v] == Busy(u);
    }
  }

  lemma StepKeepsWorkerInv(p: Pool, step: Step)
    requires QueueInv(p) && WorkerInv(p) && Enabled(p, step)
    ensures WorkerInv(Apply(p, step))
  {
    var p' := Apply(p, step);
    match step
    case Receive(w) =>
      QueuedNotStarted(p, p.queue[0]);
      StartKeepsWorkerInv(p, p', w, p.queue[0]);
    case HandOver(w) =>
      assert forall t :: t in p.started ==> t in p.started + p.queue;
      StartKeepsWorkerInv(p, p', w, p.submitted);
    case Finish(w) => FinishKeepsWorkerInv(p, w);
    case Leave(w) => LeaveKeepsWorkerInv(p, w);
    case _ => assert forall u :: Running(p', u) == Running(p, u);
  }

  lemma {:induction false} RunKeepsInv(pools: seq<Pool>, steps: seq<Step>, numWorkers: nat, capacity: nat, i: nat)
    requires Run(pools, steps) && pools[0] == NewPool(numWorkers, capacity) && i < |pools|
    ensures Inv(pools[i]) && |pools[i].workers| == numWorkers && pools[i].capacity == capacity
  {
    if 0 < i {
      RunKeepsInv(pools, steps, numWorkers, capacity, i - 1);
      StepKeepsQueueInv(pools[i - 1], steps[i - 1]);
      StepKeepsWorkerInv(pools[i - 1], steps[i - 1]);
    }
  }

  /** In how many places a task is; a task never submitted is nowhere. */
  function Places(p: Pool, t: Task): nat {
    (if t in p.dropped then 1 else 0) + (if t in p.queue then 1 else 0)
    + (if Running(p, t) then 1 else 0) + (if t in p.done then 1 else 0)
  }

  /** Under every interleaving each submitted task is in exactly one place: dropped, queued,
      running or done. Nothing is duplicated and nothing is invented. */
  lemma TasksConserved(pools: seq<Pool>, steps: seq<Step>, numWorkers: nat, capacity: nat, i: nat, t: Task)
    requires Run(pools, steps) && pools[0] == NewPool(numWorkers, capacity) && i < |pools|
    ensures Places(pools[i], t) == if t < pools[i].submitted then 1 else 0
  {
    RunKeepsInv(pools, steps, numWorkers, capacity, i);
    var p := pools[i];
    if t in p.queue {
      QueuedNotStarted(p, t);
    }
  }

  function BusyWorkers(p: Pool): set<nat> {
    set w | 0 <= w < |p.workers| && p.workers[w].Busy?
  }

  function LiveWorkers(p: Pool): set<nat> {
    set w | 0 <= w < |p.workers| && p.workers[w] != Left
  }

  lemma {:induction false} IndexSetBounded(indices: set<nat>, n: nat)
    requires forall w :: w in indices ==> w < n
    ensures |indices| <= n
    decreases n
  {
    if n == 0 {
      assert indices == {};
    } else {
      IndexSetBounded(indices - {n - 1}, n - 1);
    }
  }

  /** Tasks start in the order of submission and at most once, behind the queue nothing has
      started, and neither the queue nor the workers exceed their number. */
  lemma StartedInOrder(pools: seq<Pool>, steps: seq<Step>, numWorkers: nat, capacity: nat, i: nat)
    requires Run(pools, steps) && pools[0] == NewPool(numWorkers, capacity) && i < |pools|
    ensures Increasing(pools[i].started + pools[i].queue)
    ensures |pools[i].queue| <= capacity && |BusyWorkers(pools[i])| <= numWorkers
  {
    RunKeepsInv(pools, steps, numWorkers, capacity, i);
    IndexSetBounded(BusyWorkers(pools[i]), numWorkers);
  }

  // ---------------------------------------------------------------------------------------
  // What is dropped, and who leaves
  // ---------------------------------------------------------------------------------------

  /** In this step a task was submitted to a full queue. */
  predicate DropsAt(p: Pool, step: Step, t: Task) {
    step.Submit? && p.submitted == t && |p.queue| == p.capacity
  }

  /** A task is dropped exactly if the queue was full when it was submitted. */
  lemma {:induction false} DroppedIff(pools: seq<Pool>, steps: seq<Step>, numWorkers: nat, capacity: nat, i: nat,
                                      t: Task)
    requires Run(pools, steps) && pools[0] == NewPool(numWorkers, capacity) && i < |pools|
    ensures t in pools[i].dropped
       <==> exists m :: 0 <= m < i && steps[m].Submit? && pools[m].submitted == t && |pools[m].queue| == capacity
  {
    if 0 < i {
      var m, p := i - 1, pools[i - 1];
      DroppedIff(pools, steps, numWorkers, capacity, m, t);
      RunKeepsInv(pools, steps, numWorkers, capacity, m);
      assert t in pools[i].dropped <==> t in p.dropped || DropsAt(p, steps[m], t);
    }
  }

  /** With room in the queue a submitted task is queued behind all others; without, nothing moves. */
  lemma SubmissionQueuedIff(pools: seq<Pool>, steps: seq<Step>, numWorkers: nat, capacity: nat, m: nat)
    requires Run(pools, steps) && pools[0] == NewPool(numWorkers, capacity) && m < |steps| && steps[m].Submit?
    ensures pools[m + 1].submitted == pools[m].submitted + 1
    ensures pools[m + 1].started == pools[m].started && pools[m + 1].workers == pools[m].workers
    ensures pools[m + 1].queue == pools[m].queue + if |pools[m].queue| < capacity then [pools[m].submitted] else []
  {
    RunKeepsInv(pools, steps, numWorkers, capacity, m);
  }

  /** No worker leaves before the signal is closed: until then all of them stay at work. */
  lemma {:induction false} NobodyLeavesEarly(pools: seq<Pool>, steps: seq<Step>, numWorkers: nat, capacity: nat, i: nat,
                                             w: nat)
    requires Run(pools, steps) && pools[0] == NewPool(numWorkers, capacity) && i < |pools| && w < |pools[i].workers|
    ensures pools[i].closed <==> exists m :: 0 <= m < i && steps[m].Close?
    ensures pools[i].workers[w] == Left ==> pools[i].closed
  {
    if 0 < i {
      NobodyLeavesEarly(pools, steps, numWorkers, capacity, i - 1, w);
    }
  }

  // ---------------------------------------------------------------------------------------
  // Shutdown
  // ---------------------------------------------------------------------------------------

  predicate Submits(step: Step) {
    step.Submit? || step.HandOver?
  }

  /** Work left after the signal is closed. A received task moves from the queue to a worker, so
      queued plus running plus live workers would not shrink: a queued task counts twice. */
  function WorkLeft(p: Pool): nat {
    2 * |p.queue| + |BusyWorkers(p)| + |LiveWorkers(p)| + if p.returned then 0 else 1
  }

  lemma ReceiveMakesBusy(p: Pool, w: nat)
    requires Enabled(p, Receive(w))
    ensures |BusyWorkers(Apply(p, Receive(w)))| == |BusyWorkers(p)| + 1
    ensures |LiveWorkers(Apply(p, Receive(w)))| == |LiveWorkers(p)|
  {
    assert BusyWorkers(Apply(p, Receive(w))) == BusyWorkers(p) + {w};
    assert LiveWorkers(Apply(p, Receive(w))) == LiveWorkers(p);
  }

  lemma FinishMakesIdle(p: Pool, w: nat)
    requires Enabled(p, Finish(w))
    ensures |BusyWorkers(Apply(p, Finish(w)))| == |BusyWorkers(p)| - 1
    ensures |LiveWorkers(Apply(p, Finish(w)))| == |LiveWorkers(p)|
  {
    assert BusyWorkers(Apply(p, Finish(w))) == BusyWorkers(p) - {w};
    assert LiveWorkers(Apply(p, Finish(w))) == LiveWorkers(p);
  }

  lemma LeaveEndsWorker(p: Pool, w: nat)
    requires Enabled(p, Leave(w))
    ensures |BusyWorkers(Apply(p, Leave(w)))| == |BusyWorkers(p)|
    ensures |LiveWorkers(Apply(p, Leave(w)))| == |LiveWorkers(p)| - 1
  {
    assert BusyWorkers(Apply(p, Leave(w))) == BusyWorkers(p);
    assert LiveWorkers(Apply(p, Leave(w))) == LiveWorkers(p) - {w};
  }

  lemma ShutdownStepDecreases(p: Pool, step: Step)
    requires p.closed && Enabled(p, step) && !Submits(step)
    ensures Apply(p, step).closed && WorkLeft(Apply(p, step)) < WorkLeft(p)
  {
    match step
    case Receive(w) => ReceiveMakesBusy(p, w);
    case Finish(w) => FinishMakesIdle(p, w);
    case Leave(w) => LeaveEndsWorker(p, w);
    case _ =>
  }

  /** After the signal is closed, without new submissions, the pool takes at most `WorkLeft` more
      steps, whatever the schedule. */
  lemma {:induction false} ShutdownTerminates(pools: seq<Pool>, steps: seq<Step>, i: nat, j: nat)
    requires Run(pools, steps) && i <= j < |pools| && pools[i].closed
    requires forall m :: i <= m < j ==> !Submits(steps[m])
    ensures pools[j].closed && j - i + WorkLeft(pools[j]) <= WorkLeft(pools[i])
  {
    if i < j {
      ShutdownTerminates(pools, steps, i, j - 1);
      ShutdownStepDecreases(pools[j - 1], steps[j - 1]);
    }
  }

  /** And it is never stuck before Shutdown has returned. */
  lemma ShutdownProgresses(p: Pool)
    requires p.closed && !p.returned
    ensures exists step :: Enabled(p, step) && !Submits(step)
  {
    if forall w :: 0 <= w < |p.workers| ==> p.workers[w] == Left {
      assert Enabled(p, Return) && !Submits(Return);
    } else {
      var w :| 0 <= w < |p.workers| && p.workers[w] != Left;
      var step := if p.workers[w].Busy? then Finish(w) else Leave(w);
      assert Enabled(p, step) && !Submits(step);
    }
  }

  /** Once Shutdown has returned no task starts or finishes any more, even if tasks are still queued
      or submitted. */
  lemma {:induction false} NothingStartsAfterShutdown(pools: seq<Pool>, steps: seq<Step>, numWorkers: nat,
                                                      capacity: nat, i: nat, j: nat)
    requires Run(pools, steps) && pools[0] == NewPool(numWorkers, capacity)
    requires i <= j < |pools| && pools[i].returned
    ensures pools[j].returned && pools[j].started == pools[i].started && pools[j].done == pools[i].done
  {
    if i < j {
      NothingStartsAfterShutdown(pools, steps, numWorkers, capacity, i, j - 1);
      RunKeepsInv(pools, steps, numWorkers, capacity, j - 1);
    }
  }
}
