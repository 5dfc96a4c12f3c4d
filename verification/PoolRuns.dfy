/** What holds in every run of the thread pool, whatever the order of its steps. */
module PoolRuns {
  import opened Pool

  // ---------- counting workers ----------

  datatype Weights = Weights(awake: nat, asleep: nat, running: nat, exited: nat)

  function Weigh(w: Worker, k: Weights): nat {
    match w
    case Awake => k.awake
    case Asleep => k.asleep
    case Running(_) => k.running
    case Exited => k.exited
  }

  function Total(ws: seq<Worker>, k: Weights): nat {
    if ws == [] then 0 else Total(ws[..|ws| - 1], k) + Weigh(ws[|ws| - 1], k)
  }

  lemma {:induction false} TotalUpdate(ws: seq<Worker>, i: nat, w: Worker, k: Weights)
    requires i < |ws|
    ensures Total(ws[i := w], k) == Total(ws, k) - Weigh(ws[i], k) + Weigh(w, k)
  {
    var n := |ws| - 1;
    if i == n {
      assert ws[i := w][..n] == ws[..n];
    } else {
      TotalUpdate(ws[..n], i, w, k);
      assert ws[i := w][..n] == ws[..n][i := w];
    }
  }

  function AwakeCount(ws: seq<Worker>): nat {
    Total(ws, Weights(1, 0, 0, 0))
  }

  /** How many workers have the task in their hands. */
  function Holders(ws: seq<Worker>, t: Task): nat {
    if ws == [] then 0
    else Holders(ws[..|ws| - 1], t) + if ws[|ws| - 1] == Running(t) then 1 else 0
  }

  lemma {:induction false} HoldersUpdate(ws: seq<Worker>, i: nat, w: Worker, t: Task)
    requires i < |ws|
    ensures Holders(ws[i := w], t)
            == Holders(ws, t) - (if ws[i] == Running(t) then 1 else 0) + (if w == Running(t) then 1 else 0)
  {
    var n := |ws| - 1;
    if i == n {
      assert ws[i := w][..n] == ws[..n];
    } else {
      HoldersUpdate(ws[..n], i, w, t);
      assert ws[i := w][..n] == ws[..n][i := w];
    }
  }

  lemma {:induction false} WakeAllHolders(ws: seq<Worker>, t: Task)
    ensures Holders(WakeAll(ws), t) == Holders(ws, t)
  {
    if ws != [] {
      WakeAllHolders(ws[..|ws| - 1], t);
      assert WakeAll(ws)[..|ws| - 1] == WakeAll(ws[..|ws| - 1]);
    }
  }

  lemma {:induction false} WakeAllTotal(ws: seq<Worker>, k: Weights)
    requires k.awake <= k.asleep
    ensures Total(WakeAll(ws), k) <= Total(ws, k)
  {
    if ws != [] {
      WakeAllTotal(ws[..|ws| - 1], k);
      assert WakeAll(ws)[..|ws| - 1] == WakeAll(ws[..|ws| - 1]);
    }
  }

  lemma {:induction false} NobodyAwake(ws: seq<Worker>)
    requires forall w :: 0 <= w < |ws| ==> ws[w] != Awake
    ensures AwakeCount(ws) == 0
  {
    if ws != [] {
      NobodyAwake(ws[..|ws| - 1]);
    }
  }

  lemma {:induction false} NobodyRunning(ws: seq<Worker>, t: Task)
    requires forall w :: 0 <= w < |ws| ==> !ws[w].Running?
    ensures Holders(ws, t) == 0
  {
    if ws != [] {
      NobodyRunning(ws[..|ws| - 1], t);
    }
  }

  // ---------- the invariant ----------

  /** Each start of a task is a completion or a worker holding it, and nothing is counted twice. */
  ghost predicate Accounted(p: Pool, t: Task) {
    multiset(p.started)[t] == multiset(p.completed)[t] + Holders(p.workers, t)
  }

  /** Every accepted task was started, in order, or is still queued; every started task is completed
      or in the hands of exactly one worker. */
  ghost predicate Conserved(p: Pool) {
    && p.accepted == p.started + p.tasks
    && (forall t :: Accounted(p, t))
    && (p.workers == [] ==> p.started == [])
  }

  /** While somebody sleeps, every queued task has an awake worker or a pending notification. */
  ghost predicate NoLostWakeup(p: Pool) {
    SomeAsleep(p.workers) ==> |p.tasks| <= AwakeCount(p.workers) + p.notifiers
  }

  ghost predicate OrderlyShutdown(p: Pool) {
    && (p.stop <==> p.destructor != NotCalled)
    && (forall w :: 0 <= w < |p.workers| && p.workers[w] == Exited ==> p.stop && p.tasks == [])
    && (p.destructor.Joining? || p.destructor.Returned? ==> !SomeAsleep(p.workers))
    && (p.destructor.Joining? ==> p.destructor.joined <= |p.workers|)
    && (p.destructor.Joining? ==> forall w :: 0 <= w < p.destructor.joined ==> p.workers[w] == Exited)
    && (p.destructor.Returned? ==> forall w :: 0 <= w < |p.workers| ==> p.workers[w] == Exited)
  }

  lemma LookAccounts(p: Pool, w: nat, t: Task)
    requires Accounted(p, t) && Enabled(p, Look(w))
    ensures Accounted(LookStep(p, w), t)
  {
    hide Holders;
    HoldersUpdate(p.workers, w, LookStep(p, w).workers[w], t);
  }

  lemma FinishAccounts(p: Pool, w: nat, t: Task)
    requires Accounted(p, t) && Enabled(p, Finish(w))
    ensures Accounted(Next(p, Finish(w)), t)
  {
    hide Holders;
    HoldersUpdate(p.workers, w, Awake, t);
  }

  lemma WakeAccounts(p: Pool, q: Pool, w: nat, t: Task)
    requires Accounted(p, t) && w < |p.workers| && p.workers[w] == Asleep
    requires q.workers == p.workers[w := Awake] && q.started == p.started && q.completed == p.completed
    ensures Accounted(q, t)
  {
    hide Holders;
    HoldersUpdate(p.workers, w, Awake, t);
  }

  lemma NextAccounts(p: Pool, e: Event, t: Task)
    requires Accounted(p, t) && Enabled(p, e)
    ensures Accounted(Next(p, e), t)
  {
    hide Holders, LookStep;
    match e {
      case Look(w) => LookAccounts(p, w, t);
      case NotifyOne(w) =>
        if SomeAsleep(p.workers) {
          WakeAccounts(p, Next(p, e), w, t);
        }
      case Finish(w) => FinishAccounts(p, w, t);
      case Spurious(w) => WakeAccounts(p, Next(p, e), w, t);
      case NotifyAll => WakeAllHolders(p.workers, t);
      case _ =>
    }
  }

  lemma NextConserves(p: Pool, e: Event)
    requires Conserved(p) && Enabled(p, e)
    ensures Conserved(Next(p, e))
  {
    hide Accounted;
    forall t ensures Accounted(Next(p, e), t) {
      NextAccounts(p, e, t);
    }
    if p.tasks != [] {
      assert p.tasks == [p.tasks[0]] + p.tasks[1..];
    }
  }

  lemma SleepersStay(ws: seq<Worker>, w: nat, to: Worker)
    requires w < |ws| && to != Asleep
    ensures SomeAsleep(ws[w := to]) ==> SomeAsleep(ws)
  {
    if SomeAsleep(ws[w := to]) {
      var v :| 0 <= v < |ws| && ws[w := to][v] == Asleep;
      assert ws[v] == Asleep;
    }
  }

  lemma NextLosesNoWakeup(p: Pool, e: Event)
    requires NoLostWakeup(p) && Enabled(p, e)
    ensures NoLostWakeup(Next(p, e))
  {
    hide Total;
    var k := Weights(1, 0, 0, 0);
    match e {
      case Look(w) =>
        var to := LookStep(p, w).workers[w];
        TotalUpdate(p.workers, w, to, k);
        if to != Asleep {
          SleepersStay(p.workers, w, to);
        }
      case NotifyOne(w) =>
        if SomeAsleep(p.workers) {
          TotalUpdate(p.workers, w, Awake, k);
        }
      case Finish(w) =>
        TotalUpdate(p.workers, w, Awake, k);
        SleepersStay(p.workers, w, Awake);
      case Spurious(w) => TotalUpdate(p.workers, w, Awake, k);
      case _ =>
    }
  }

  lemma NextIsOrderly(p: Pool, e: Event)
    requires OrderlyShutdown(p) && Enabled(p, e)
    ensures OrderlyShutdown(Next(p, e))
  {
    match e {
      case Look(w) =>
        if LookStep(p, w).workers[w] != Asleep {
          SleepersStay(p.workers, w, LookStep(p, w).workers[w]);
        }
      case Finish(w) => SleepersStay(p.workers, w, Awake);
      case NotifyOne(w) =>
        if SomeAsleep(p.workers) {
          SleepersStay(p.workers, w, Awake);
        }
      case Spurious(w) => SleepersStay(p.workers, w, Awake);
      case _ =>
    }
  }

  ghost predicate Inv(p: Pool) {
    Conserved(p) && NoLostWakeup(p) && OrderlyShutdown(p)
  }

  // ---------- runs ----------

  /** Whether the events can happen one after the other from `p`. */
  predicate ValidRun(p: Pool, es: seq<Event>)
    decreases |es|
  {
    es == [] || (Enabled(p, es[0]) && ValidRun(Next(p, es[0]), es[1..]))
  }

  function After(p: Pool, es: seq<Event>): Pool
    requires ValidRun(p, es)
    decreases |es|
  {
    if es == [] then p else After(Next(p, es[0]), es[1..])
  }

  lemma NextKeepsWorkers(p: Pool, e: Event)
    requires Enabled(p, e)
    ensures |Next(p, e).workers| == |p.workers|
  {
  }

  lemma InitialInv(n: nat)
    ensures Inv(Initial(n))
  {
    var p := Initial(n);
    forall t ensures Accounted(p, t) {
      NobodyRunning(p.workers, t);
    }
  }

  lemma {:induction false} RunKeepsInv(p: Pool, es: seq<Event>)
    requires Inv(p) && ValidRun(p, es)
    ensures Inv(After(p, es)) && |After(p, es).workers| == |p.workers|
    decreases |es|
  {
    hide Conserved, NoLostWakeup, OrderlyShutdown, Enabled;
    if es != [] {
      NextConserves(p, es[0]);
      NextLosesNoWakeup(p, es[0]);
      NextIsOrderly(p, es[0]);
      NextKeepsWorkers(p, es[0]);
      RunKeepsInv(Next(p, es[0]), es[1..]);
    }
  }

  // ---------- what was submitted ----------

  /** The tasks handed to `enqueue` before `stop_` was set, in order: all that the pool owes. */
  function Submitted(es: seq<Event>): seq<Task>
    decreases |es|
  {
    if es == [] || es[0] == SetStop then []
    else (if es[0].Submit? then [es[0].task] else []) + Submitted(es[1..])
  }

  lemma SubmitStep(p: Pool, e: Event)
    requires Enabled(p, e)
    ensures Next(p, e).accepted == p.accepted + (if e.Submit? && !p.stop then [e.task] else [])
    ensures Next(p, e).stop <==> p.stop || e == SetStop
  {
  }

  /** The pool accepts exactly what is submitted before `stop_` is set, in that order, and nothing
      afterwards. */
  lemma {:induction false} AcceptedIsSubmitted(p: Pool, es: seq<Event>)
    requires ValidRun(p, es)
    ensures After(p, es).accepted == p.accepted + (if p.stop then [] else Submitted(es))
    decreases |es|
  {
    hide Enabled, Next;
    if es != [] {
      SubmitStep(p, es[0]);
      AcceptedIsSubmitted(Next(p, es[0]), es[1..]);
      var first := if es[0].Submit? then [es[0].task] else [];
      assert p.accepted + first + Submitted(es[1..]) == p.accepted + (first + Submitted(es[1..]));
    }
  }

  lemma {:induction false} NothingSubmitted(es: seq<Event>)
    requires forall e :: e in es ==> !e.Submit?
    ensures Submitted(es) == []
  {
    if es != [] {
      assert es[0] in es && forall e :: e in es[1..] ==> e in es;
      NothingSubmitted(es[1..]);
    }
  }

  /** The tasks a run from the start owes do not change while nobody submits. */
  lemma AcceptedStays(n: nat, es: seq<Event>, more: seq<Event>)
    requires ValidRun(Initial(n), es) && ValidRun(After(Initial(n), es), more)
    requires forall e :: e in more ==> !e.Submit?
    ensures After(After(Initial(n), es), more).accepted == Submitted(es)
  {
    hide ValidRun, After;
    AcceptedIsSubmitted(Initial(n), es);
    AcceptedIsSubmitted(After(Initial(n), es), more);
    NothingSubmitted(more);
  }

  /** The pool with more tasks behind those that wait, and a notification to come for each. */
  function Queued(p: Pool, ts: seq<Task>): Pool {
    p.(tasks := p.tasks + ts, accepted := p.accepted + ts, notifiers := p.notifiers + |ts|)
  }

  lemma QueuedTwice(p: Pool, t: Task, ts: seq<Task>)
    ensures Queued(Queued(p, [t]), ts) == Queued(p, [t] + ts)
  {
    assert p.tasks + [t] + ts == p.tasks + ([t] + ts);
    assert p.accepted + [t] + ts == p.accepted + ([t] + ts);
  }

  lemma QueuedNothing(p: Pool)
    ensures Queued(p, []) == p
  {
    assert p.tasks + [] == p.tasks && p.accepted + [] == p.accepted;
  }

  lemma SubmitQueues(p: Pool, t: Task)
    ensures Enabled(p, Submit(t)) && Next(p, Submit(t)) == if p.stop then p else Queued(p, [t])
  {
  }

  /** Any tasks can be submitted at any time; on a pool that is not stopped they join the queue in
      order behind what waits there, each with a notification to come. */
  lemma {:induction false} AnythingCanBeSubmitted(p: Pool, ts: seq<Task>)
    ensures ValidRun(p, Submits(ts))
    ensures After(p, Submits(ts)) == if p.stop then p else Queued(p, ts)
    decreases |ts|
  {
    hide Enabled, Next, Queued;
    if ts == [] {
      QueuedNothing(p);
    } else {
      assert Submits(ts)[1..] == Submits(ts[1..]) && ts == [ts[0]] + ts[1..];
      SubmitQueues(p, ts[0]);
      QueuedStays(p, [ts[0]]);
      AnythingCanBeSubmitted(Next(p, Submit(ts[0])), ts[1..]);
      QueuedTwice(p, ts[0], ts[1..]);
    }
  }

  lemma QueuedStays(p: Pool, ts: seq<Task>)
    ensures Queued(p, ts).stop == p.stop
  {
  }

  function Submits(ts: seq<Task>): (es: seq<Event>)
    ensures |es| == |ts| && forall i :: 0 <= i < |ts| ==> es[i] == Submit(ts[i])
  {
    seq(|ts|, i requires 0 <= i < |ts| => Submit(ts[i]))
  }

  /** No wakeup is lost: in every state of every run, with any number of workers and with spurious
      wakeups, if a worker sleeps then every queued task has an awake worker or a pending
      notification of its own; and once the destructor has notified everybody, nobody sleeps. */
  lemma NoWakeupIsLost(n: nat, es: seq<Event>)
    requires ValidRun(Initial(n), es)
    ensures var p := After(Initial(n), es);
            && (SomeAsleep(p.workers) ==> |p.tasks| <= AwakeCount(p.workers) + p.notifiers)
            && (p.destructor.Joining? || p.destructor.Returned? ==> !SomeAsleep(p.workers))
  {
    hide ValidRun, After, Conserved, Initial;
    InitialInv(n);
    RunKeepsInv(Initial(n), es);
  }

  // ---------- exactly once ----------

  lemma AllDone(p: Pool)
    requires Conserved(p) && p.tasks == [] && forall w :: 0 <= w < |p.workers| ==> !p.workers[w].Running?
    ensures multiset(p.completed) == multiset(p.accepted) && p.started == p.accepted
  {
    forall t ensures multiset(p.completed)[t] == multiset(p.started)[t] {
      NobodyRunning(p.workers, t);
      assert Accounted(p, t);
    }
    assert multiset(p.completed) == multiset(p.started);
  }

  lemma SubmittedIsAccepted(n: nat, es: seq<Event>)
    requires ValidRun(Initial(n), es)
    ensures After(Initial(n), es).accepted == Submitted(es)
  {
    hide ValidRun, After;
    AcceptedIsSubmitted(Initial(n), es);
  }

  /** Tasks are started first in, first out, and each exactly once: in every state of every run the
      tasks submitted before the stop are, in order, the started ones followed by the queue, and every
      start is either a completion or a task in the hands of exactly one worker. */
  lemma ExactlyOnceInOrder(n: nat, es: seq<Event>)
    requires ValidRun(Initial(n), es)
    ensures var p := After(Initial(n), es);
            && Submitted(es) == p.accepted == p.started + p.tasks
            && forall t :: multiset(p.started)[t] == multiset(p.completed)[t] + Holders(p.workers, t)
  {
    hide ValidRun, After, NoLostWakeup, OrderlyShutdown, Initial, Holders;
    InitialInv(n);
    RunKeepsInv(Initial(n), es);
    SubmittedIsAccepted(n, es);
    var p := After(Initial(n), es);
    forall t ensures multiset(p.started)[t] == multiset(p.completed)[t] + Holders(p.workers, t) {
      assert Accounted(p, t);
    }
  }

  /** When the destructor has returned, every task submitted before the stop has been completed exactly
      once - unless the pool was made without workers and was given work. */
  lemma DestructionDrains(n: nat, es: seq<Event>)
    requires ValidRun(Initial(n), es) && After(Initial(n), es).destructor == Returned
    ensures var p := After(Initial(n), es);
            multiset(p.completed) == multiset(Submitted(es)) <==> n > 0 || Submitted(es) == []
  {
    hide ValidRun, After, NoLostWakeup, Holders, Submitted;
    SubmittedIsAccepted(n, es);
    InitialInv(n);
    RunKeepsInv(Initial(n), es);
    var p := After(Initial(n), es);
    if n > 0 {
      assert p.workers[0] == Exited;
      AllDone(p);
    } else if p.accepted == [] {
      AllDone(p);
    } else {
      assert p.accepted[0] in multiset(p.accepted);
      assert Accounted(p, p.accepted[0]);
    }
  }

  // ---------- quiescence ----------

  /** The steps the pool takes by itself once nobody calls it: workers looking and finishing, and
      notifications on their way. */
  predicate OwnStep(e: Event) {
    e.Look? || e.Finish? || e.NotifyOne?
  }

  /** What bounds the steps the pool can take by itself. */
  function Activity(p: Pool): nat {
    2 * |p.tasks| + 2 * p.notifiers + Total(p.workers, Weights(1, 0, 2, 0))
  }

  lemma OwnStepsTire(p: Pool, e: Event)
    requires Enabled(p, e) && OwnStep(e)
    ensures Activity(Next(p, e)) < Activity(p)
  {
    hide Total;
    var k := Weights(1, 0, 2, 0);
    match e {
      case Look(w) => TotalUpdate(p.workers, w, LookStep(p, w).workers[w], k);
      case Finish(w) => TotalUpdate(p.workers, w, Awake, k);
      case NotifyOne(w) =>
        if SomeAsleep(p.workers) {
          TotalUpdate(p.workers, w, Awake, k);
        }
    }
  }

  lemma {:induction false} OwnRunsEnd(p: Pool, es: seq<Event>)
    requires ValidRun(p, es) && forall e :: e in es ==> OwnStep(e)
    ensures |es| + Activity(After(p, es)) <= Activity(p)
    decreases |es|
  {
    hide Activity, Enabled, OwnStep;
    if es != [] {
      assert forall e :: e in es[1..] ==> e in es;
      OwnStepsTire(p, es[0]);
      OwnRunsEnd(Next(p, es[0]), es[1..]);
    }
  }

  /** Left alone, the pool comes to rest with all its work done: after any run, the steps it can still
      take by itself are bounded in number, and when none is possible and there is a worker, every
      task submitted before the stop has been completed - none is stranded in the queue by a missed
      wakeup. */
  lemma QuiescentPoolIsDone(n: nat, es: seq<Event>, own: seq<Event>)
    requires n > 0 && ValidRun(Initial(n), es)
    requires ValidRun(After(Initial(n), es), own) && forall e :: e in own ==> OwnStep(e)
    ensures |own| <= Activity(After(Initial(n), es))
    ensures var q := After(After(Initial(n), es), own);
            (forall e :: OwnStep(e) ==> !Enabled(q, e)) ==> multiset(q.completed) == multiset(Submitted(es))
  {
    hide Conserved, NoLostWakeup, OrderlyShutdown, Enabled, Activity, ValidRun, After, Submitted;
    AcceptedStays(n, es, own);
    InitialInv(n);
    RunKeepsInv(Initial(n), es);
    var p := After(Initial(n), es);
    RunKeepsInv(p, own);
    OwnRunsEnd(p, own);
    var q := After(p, own);
    if forall e :: OwnStep(e) ==> !Enabled(q, e) {
      RestIsDone(q);
    }
  }

  lemma RestIsDone(q: Pool)
    requires Inv(q) && q.workers != [] && forall e :: OwnStep(e) ==> !Enabled(q, e)
    ensures multiset(q.completed) == multiset(q.accepted)
  {
    hide Holders, Total, Accounted;
    forall w | 0 <= w < |q.workers| ensures q.workers[w] != Awake && !q.workers[w].Running? {
      assert !Enabled(q, Look(w)) && !Enabled(q, Finish(w));
    }
    assert q.notifiers == 0 by {
      if SomeAsleep(q.workers) {
        var w :| 0 <= w < |q.workers| && q.workers[w] == Asleep;
        assert !Enabled(q, NotifyOne(w));
      } else {
        assert !Enabled(q, NotifyOne(0));
      }
    }
    NobodyAwake(q.workers);
    assert q.workers[0] == Asleep || q.workers[0] == Exited;
    AllDone(q);
  }

  // ---------- shutdown ----------

  function DestructorSteps(p: Pool): nat {
    match p.destructor
    case NotCalled => |p.workers| + 3
    case StopSet => |p.workers| + 2
    case Joining(j) => if j <= |p.workers| then |p.workers| - j + 1 else 1
    case Returned => 0
  }

  /** What bounds the steps until the destructor returns. */
  function Remaining(p: Pool): nat {
    2 * |p.tasks| + p.notifiers + Total(p.workers, Weights(1, 2, 2, 0)) + DestructorSteps(p)
  }

  /** Once `stop_` is set every step but a rejected `enqueue` brings the end nearer. */
  lemma ShutdownAdvances(p: Pool, e: Event)
    requires p.stop && OrderlyShutdown(p) && Enabled(p, e)
    ensures e.Submit? ==> Next(p, e) == p
    ensures !e.Submit? ==> Remaining(Next(p, e)) < Remaining(p)
  {
    hide Total;
    var k := Weights(1, 2, 2, 0);
    match e {
      case Look(w) => TotalUpdate(p.workers, w, LookStep(p, w).workers[w], k);
      case Finish(w) => TotalUpdate(p.workers, w, Awake, k);
      case Spurious(w) => TotalUpdate(p.workers, w, Awake, k);
      case NotifyOne(w) =>
        if SomeAsleep(p.workers) {
          TotalUpdate(p.workers, w, Awake, k);
        }
      case NotifyAll => WakeAllTotal(p.workers, k);
      case _ =>
    }
  }

  /** Until the destructor has returned, some step that needs no spurious wakeup is possible. */
  lemma ShutdownIsNotStuck(p: Pool) returns (e: Event)
    requires p.stop && OrderlyShutdown(p) && p.destructor != Returned
    ensures Enabled(p, e) && !e.Submit? && !e.Spurious?
  {
    if p.destructor == StopSet {
      e := NotifyAll;
    } else if p.destructor.joined == |p.workers| {
      e := Return;
    } else {
      var j := p.destructor.joined;
      assert p.workers[j] != Asleep;
      e := match p.workers[j] case Awake => Look(j) case Running(_) => Finish(j) case _ => JoinNext;
    }
  }

  lemma {:induction false} ShutdownRunsEnd(p: Pool, es: seq<Event>)
    requires p.stop && Inv(p) && ValidRun(p, es) && forall e :: e in es ==> !e.Submit?
    ensures |es| + Remaining(After(p, es)) <= Remaining(p)
    ensures After(p, es).stop && Inv(After(p, es))
    decreases |es|
  {
    hide Conserved, NoLostWakeup, OrderlyShutdown, Enabled, Remaining;
    RunKeepsInv(p, es);
    if es != [] {
      assert forall e :: e in es[1..] ==> e in es;
      ShutdownAdvances(p, es[0]);
      NextConserves(p, es[0]);
      NextLosesNoWakeup(p, es[0]);
      NextIsOrderly(p, es[0]);
      StopStays(p, es[0]);
      ShutdownRunsEnd(Next(p, es[0]), es[1..]);
    }
  }

  lemma StopStays(p: Pool, e: Event)
    requires p.stop && Enabled(p, e)
    ensures Next(p, e).stop
  {
  }

  /** Shutdown ends: after `stop_` is set the number of further steps (rejected submissions aside) is
      bounded, and a run that can go no further has returned from the destructor, with every worker
      gone and, if there was one, every task submitted before the stop completed exactly once. */
  lemma ShutdownEnds(n: nat, es: seq<Event>, more: seq<Event>)
    requires ValidRun(Initial(n), es) && After(Initial(n), es).stop
    requires ValidRun(After(Initial(n), es), more) && forall e :: e in more ==> !e.Submit?
    ensures |more| <= Remaining(After(Initial(n), es))
    ensures var q := After(After(Initial(n), es), more);
            (forall e :: Enabled(q, e) ==> e.Submit?)
            ==> q.destructor == Returned
                && (forall w :: 0 <= w < |q.workers| ==> q.workers[w] == Exited)
                && (n > 0 ==> q.tasks == [] && multiset(q.completed) == multiset(Submitted(es)))
  {
    hide Conserved, NoLostWakeup, OrderlyShutdown, Enabled, Remaining, ValidRun, After, Submitted;
    AcceptedStays(n, es, more);
    InitialInv(n);
    RunKeepsInv(Initial(n), es);
    var p := After(Initial(n), es);
    ShutdownRunsEnd(p, more);
    RunKeepsInv(p, more);
    var q := After(p, more);
    if forall e :: Enabled(q, e) ==> e.Submit? {
      if q.destructor != Returned {
        var e := ShutdownIsNotStuck(q);
      }
      ReturnedIsDone(q);
    }
  }

  lemma ReturnedIsDone(q: Pool)
    requires Inv(q) && q.destructor == Returned
    ensures forall w :: 0 <= w < |q.workers| ==> q.workers[w] == Exited
    ensures q.workers != [] ==> q.tasks == [] && multiset(q.completed) == multiset(q.accepted)
  {
    hide Accounted;
    if q.workers != [] {
      assert q.workers[0] == Exited;
      AllDone(q);
    }
  }

  // ---------- nothing is excluded ----------

  /** Every thread that is not blocked may take the next step: an awake worker looks, a running one
      finishes, a sleeping one wakes for no reason or by any notification, and the destructor goes on
      as soon as it can. */
  lemma AnyThreadMayBeNext(p: Pool, w: nat)
    requires w < |p.workers|
    ensures p.workers[w] == Awake ==> Enabled(p, Look(w))
    ensures p.workers[w].Running? ==> Enabled(p, Finish(w))
    ensures p.workers[w] == Asleep ==>
              && Enabled(p, Spurious(w)) && Next(p, Spurious(w)) == p.(workers := p.workers[w := Awake])
              && (p.notifiers > 0 ==> Enabled(p, NotifyOne(w)) && Next(p, NotifyOne(w)).workers[w] == Awake)
    ensures p.notifiers > 0 && !SomeAsleep(p.workers) ==> Enabled(p, NotifyOne(w))
    ensures p.destructor == NotCalled ==> Enabled(p, SetStop)
    ensures p.destructor == StopSet ==> Enabled(p, NotifyAll)
    ensures p.destructor == Joining(w) && p.workers[w] == Exited ==> Enabled(p, JoinNext)
    ensures p.destructor == Joining(|p.workers|) ==> Enabled(p, Return)
  {
  }
}
