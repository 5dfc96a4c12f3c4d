/** The thread pool: `src/utils/ThreadPool.cpp`, as the steps its threads take one at a time.

    A step is what a thread does while it holds the mutex, or one notification, or one task run to
    its end. Any thread may take the next step. */
module Pool {

  /** A task is named by a number; two submissions of the same task are told apart by their place in
      the history. */
  type Task = nat

  /** A worker is about to take the mutex and look at the queue (`Awake`), blocked in
      `condition_.wait` (`Asleep`), outside the mutex with a task (`Running`), or has returned. */
  datatype Worker = Awake | Asleep | Running(task: Task) | Exited

  /** Where the destructor is: not called, `stop_` set, everybody notified and `joined` workers
      joined, or returned. */
  datatype Destructor = NotCalled | StopSet | Joining(joined: nat) | Returned

  /** The pool, with three histories: the tasks accepted by `enqueue`, started by workers, and
      completed, each in the order of the steps. `notifiers` counts the threads inside `enqueue`
      between the push and `notify_one`. */
  datatype Pool = Pool(
    tasks: seq<Task>,
    stop: bool,
    workers: seq<Worker>,
    notifiers: nat,
    destructor: Destructor,
    accepted: seq<Task>,
    started: seq<Task>,
    completed: seq<Task>)

  datatype Event =
    | Submit(task: Task)        // the locked part of enqueue
    | NotifyOne(wakes: nat)     // condition_.notify_one, waking this worker if anyone sleeps
    | Look(w: nat)              // the locked part of the worker loop
    | Finish(w: nat)            // task() returns
    | Spurious(w: nat)          // a wakeup without a notification
    | SetStop                   // the locked part of the destructor
    | NotifyAll                 // condition_.notify_all
    | JoinNext                  // join() of the next worker returns
    | Return                    // the destructor returns

  predicate SomeAsleep(ws: seq<Worker>) {
    exists w :: 0 <= w < |ws| && ws[w] == Asleep
  }

  /** Whether the event can happen now. */
  predicate Enabled(p: Pool, e: Event) {
    match e
    case Submit(_) => true
    case NotifyOne(w) => p.notifiers > 0 && (SomeAsleep(p.workers) ==> w < |p.workers| && p.workers[w] == Asleep)
    case Look(w) => w < |p.workers| && p.workers[w] == Awake
    case Finish(w) => w < |p.workers| && p.workers[w].Running?
    case Spurious(w) => w < |p.workers| && p.workers[w] == Asleep
    case SetStop => p.destructor == NotCalled
    case NotifyAll => p.destructor == StopSet
    case JoinNext => p.destructor.Joining? && p.destructor.joined < |p.workers|
                     && p.workers[p.destructor.joined] == Exited
    case Return => p.destructor.Joining? && p.destructor.joined == |p.workers|
  }

  function WakeAll(ws: seq<Worker>): (r: seq<Worker>)
    ensures |r| == |ws|
    ensures forall w :: 0 <= w < |ws| ==> r[w] == if ws[w] == Asleep then Awake else ws[w]
  {
    seq(|ws|, w requires 0 <= w < |ws| => if ws[w] == Asleep then Awake else ws[w])
  }

  function SetWorker(p: Pool, w: nat, to: Worker): Pool
    requires w < |p.workers|
  {
    p.(workers := p.workers[w := to])
  }

  /** A worker that holds the mutex: it sleeps while there is nothing to do, returns when stopped with
      an empty queue, and otherwise takes the first task. */
  function LookStep(p: Pool, w: nat): Pool
    requires w < |p.workers|
  {
    if !p.stop && p.tasks == [] then SetWorker(p, w, Asleep)
    else if p.stop && p.tasks == [] then SetWorker(p, w, Exited)
    else SetWorker(p, w, Running(p.tasks[0])).(tasks := p.tasks[1..], started := p.started + [p.tasks[0]])
  }

  function Next(p: Pool, e: Event): Pool
    requires Enabled(p, e)
  {
    match e
    case Submit(t) =>
      if p.stop then p
      else p.(tasks := p.tasks + [t], accepted := p.accepted + [t], notifiers := p.notifiers + 1)
    case NotifyOne(w) =>
      var q := p.(notifiers := p.notifiers - 1);
      if SomeAsleep(p.workers) then SetWorker(q, w, Awake) else q
    case Look(w) => LookStep(p, w)
    case Finish(w) => SetWorker(p, w, Awake).(completed := p.completed + [p.workers[w].task])
    case Spurious(w) => SetWorker(p, w, Awake)
    case SetStop => p.(stop := true, destructor := StopSet)
    case NotifyAll => p.(workers := WakeAll(p.workers), destructor := Joining(0))
    case JoinNext => p.(destructor := Joining(p.destructor.joined + 1))
    case Return => p.(destructor := Returned)
  }

  function Initial(n: nat): (p: Pool)
    ensures |p.workers| == n && forall w :: 0 <= w < n ==> p.workers[w] == Awake
    ensures p.tasks == p.accepted == p.started == p.completed == [] && p.notifiers == 0
    ensures !p.stop && p.destructor == NotCalled
  {
    Pool([], false, seq(n, _ => Awake), 0, NotCalled, [], [], [])
  }

  // ---------- the class ----------

  class ThreadPool {
    var tasks: seq<Task>
    var stop: bool
    var workers: seq<Worker>
    var notifiers: nat
    var destructor: Destructor
    ghost var accepted: seq<Task>
    ghost var started: seq<Task>
    ghost var completed: seq<Task>

    ghost function State(): Pool
      reads this
    {
      Pool(tasks, stop, workers, notifiers, destructor, accepted, started, completed)
    }

    constructor (numThreads: nat)
      ensures State() == Initial(numThreads)
    {
      tasks, stop, notifiers, destructor := [], false, 0, NotCalled;
      accepted, started, completed := [], [], [];
      workers := [];
      new;
      var i := 0;
      while i < numThreads
        invariant 0 <= i <= numThreads
        invariant State() == Initial(i)
      {
        workers := workers + [Awake];
        i := i + 1;
      }
    }

    /** The locked part of `enqueue`; after an accepted task the caller still has to notify. */
    method Enqueue(task: Task)
      modifies this
      ensures State() == Next(old(State()), Submit(task))
      ensures old(stop) ==> State() == old(State())
      ensures !old(stop) ==> tasks == old(tasks) + [task] && notifiers == old(notifiers) + 1
    {
      if stop {
        return;
      }
      tasks := tasks + [task];
      notifiers := notifiers + 1;
      accepted := accepted + [task];
    }

    /** `notify_one`: if somebody sleeps, the library picks who wakes. */
    method Notify(wakes: nat)
      requires Enabled(State(), NotifyOne(wakes))
      modifies this
      ensures State() == Next(old(State()), NotifyOne(wakes))
    {
      notifiers := notifiers - 1;
      if wakes < |workers| && workers[wakes] == Asleep {
        workers := workers[wakes := Awake];
      }
    }

    /** One pass of the worker loop, from taking the mutex to releasing it. */
    method WorkerLook(w: nat)
      requires Enabled(State(), Look(w))
      modifies this
      ensures State() == Next(old(State()), Look(w))
    {
      if !(stop || tasks != []) {
        workers := workers[w := Asleep];
        return;
      }
      if stop && tasks == [] {
        workers := workers[w := Exited];
        return;
      }
      var task := tasks[0];
      tasks := tasks[1..];
      workers := workers[w := Running(task)];
      started := started + [task];
    }

    method FinishTask(w: nat)
      requires Enabled(State(), Finish(w))
      modifies this
      ensures State() == Next(old(State()), Finish(w))
    {
      completed := completed + [workers[w].task];
      workers := workers[w := Awake];
    }

    method BeginDestruction()
      requires Enabled(State(), SetStop)
      modifies this
      ensures State() == Next(old(State()), SetStop)
    {
      stop := true;
      destructor := StopSet;
    }

    method WakeEveryone()
      requires Enabled(State(), NotifyAll)
      modifies this
      ensures State() == Next(old(State()), NotifyAll)
    {
      var i := 0;
      while i < |workers|
        invariant 0 <= i <= |workers| == |old(workers)|
        invariant forall w :: 0 <= w < i ==> workers[w] == WakeAll(old(workers))[w]
        invariant forall w :: i <= w < |workers| ==> workers[w] == old(workers[w])
        invariant State() == old(State()).(workers := workers)
      {
        if workers[i] == Asleep {
          workers := workers[i := Awake];
        }
        i := i + 1;
      }
      destructor := Joining(0);
      assert workers == WakeAll(old(workers));
    }

    method Join()
      requires Enabled(State(), JoinNext)
      modifies this
      ensures State() == Next(old(State()), JoinNext)
    {
      destructor := Joining(destructor.joined + 1);
    }

    method FinishDestruction()
      requires Enabled(State(), Return)
      modifies this
      ensures State() == Next(old(State()), Return)
    {
      destructor := Returned;
    }
  }
}
