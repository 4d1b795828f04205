/**
 * The thread pool as a step system. Taking the mutex, checking the predicate and either waiting, popping or leaving
 * is one step of a worker; a notification is a step of its own, after the mutex was released.
 */
module ThreadPool {
  type Task = nat

  datatype Worker = Awake | Waiting | Running(task: Task) | Exited

  datatype State = State(
    workers: seq<Worker>,
    queue: seq<Task>,
    stop: bool,
    pending: nat,          // notify_one calls still to be made
    pendingAll: bool,      // the destructor's notify_all is still to be made
    enqueued: seq<Task>,   // every task, in the order of enqueue
    started: seq<Task>,    // every task popped, in order
    finished: seq<Task>)

  /** `EnqueueFrom` is a job that enqueues; `Acquire` is a worker that gets the mutex. */
  datatype Action =
    | Enqueue(t: Task) | EnqueueFrom(w: nat, t: Task) | NotifyOne(w: nat) | NotifyNobody
    | Acquire(w: nat) | Finish(w: nat) | Spurious(w: nat) | Stop | NotifyAll

  predicate Is(s: State, w: nat, x: Worker) { w < |s.workers| && s.workers[w] == x }

  /** `enqueue` is called before destruction or from a running job; a notification wakes a waiting worker if there is one. */
  ghost predicate Enabled(s: State, a: Action) {
    match a
    case Enqueue(_) => !s.stop
    case EnqueueFrom(w, _) => w < |s.workers| && s.workers[w].Running?
    case NotifyOne(w) => s.pending > 0 && Is(s, w, Waiting)
    case NotifyNobody => s.pending > 0 && forall w :: 0 <= w < |s.workers| ==> !s.workers[w].Waiting?
    case Acquire(w) => Is(s, w, Awake)
    case Finish(w) => w < |s.workers| && s.workers[w].Running?
    case Spurious(w) => Is(s, w, Waiting)
    case Stop => !s.stop
    case NotifyAll => s.pendingAll
  }

  function WakeAll(ws: seq<Worker>): (r: seq<Worker>)
    ensures |r| == |ws|
    ensures forall i :: 0 <= i < |ws| ==> r[i] == if ws[i].Waiting? then Awake else ws[i]
  {
    if ws == [] then [] else [if ws[0].Waiting? then Awake else ws[0]] + WakeAll(ws[1..])
  }

  /** A worker with the mutex: wait, leave, or pop the front of the queue. */
  function AfterAcquire(s: State, w: nat): State
    requires Is(s, w, Awake)
  {
    if !s.stop && s.queue == [] then s.(workers := s.workers[w := Waiting])
    else if s.queue == [] then s.(workers := s.workers[w := Exited])
    else s.(workers := s.workers[w := Running(s.queue[0])], queue := s.queue[1..], started := s.started + [s.queue[0]])
  }

  function Push(s: State, t: Task): State {
    s.(queue := s.queue + [t], enqueued := s.enqueued + [t], pending := s.pending + 1)
  }

  ghost function Next(s: State, a: Action): State
    requires Enabled(s, a)
  {
    match a
    case Enqueue(t) => Push(s, t)
    case EnqueueFrom(_, t) => Push(s, t)
    case NotifyOne(w) => s.(workers := s.workers[w := Awake], pending := s.pending - 1)
    case NotifyNobody => s.(pending := s.pending - 1)
    case Acquire(w) => AfterAcquire(s, w)
    case Finish(w) => s.(workers := s.workers[w := Awake], finished := s.finished + [s.workers[w].task])
    case Spurious(w) => s.(workers := s.workers[w := Awake])
    case Stop => s.(stop := true, pendingAll := true)
    case NotifyAll => s.(workers := WakeAll(s.workers), pendingAll := false)
  }

  /** The constructor: at least one worker, each about to take the mutex for the first time. */
  function Init(numThreads: nat): State {
    State(seq(if numThreads == 0 then 1 else numThreads, i => Awake), [], false, 0, false, [], [], [])
  }

  ghost predicate RunsTo(s: State, acts: seq<Action>, s': State)
    decreases |acts|
  {
    if acts == [] then s' == s
    else Enabled(s, acts[0]) && RunsTo(Next(s, acts[0]), acts[1..], s')
  }

  // ---- Running tasks and weights, as sums over the workers ----

  function TaskCount(x: Worker, t: Task): nat { if x == Running(t) then 1 else 0 }

  /** How many workers are running task `t`. */
  function RunningCount(ws: seq<Worker>, t: Task): nat {
    if ws == [] then 0 else TaskCount(ws[0], t) + RunningCount(ws[1..], t)
  }

  lemma {:induction false} UpdateRunning(ws: seq<Worker>, w: nat, x: Worker, t: Task)
    requires w < |ws|
    ensures RunningCount(ws[w := x], t) + TaskCount(ws[w], t) == RunningCount(ws, t) + TaskCount(x, t)
  {
    if w == 0 {
      assert ws[w := x][1..] == ws[1..];
    } else {
      UpdateRunning(ws[1..], w - 1, x, t);
      assert ws[w := x][1..] == ws[1..][w - 1 := x];
    }
  }

  lemma {:induction false} WakeAllRunning(ws: seq<Worker>, t: Task)
    ensures RunningCount(WakeAll(ws), t) == RunningCount(ws, t)
  {
    if ws != [] { WakeAllRunning(ws[1..], t); }
  }

  lemma {:induction false} NoneRunning(ws: seq<Worker>, t: Task)
    requires forall i :: 0 <= i < |ws| ==> !ws[i].Running?
    ensures RunningCount(ws, t) == 0
  {
    if ws != [] { NoneRunning(ws[1..], t); }
  }

  // ---- The invariant ----

  ghost predicate Busy(s: State) {
    exists w :: 0 <= w < |s.workers| && (s.workers[w].Awake? || s.workers[w].Running?)
  }

  ghost predicate Alive(s: State) { exists w :: 0 <= w < |s.workers| && !s.workers[w].Exited? }

  /** No wakeup is lost: a queued task has a worker that will come for it, or a notification on its way. */
  ghost predicate NoLostWakeup(s: State) { s.queue != [] ==> s.pending > 0 || s.pendingAll || Busy(s) }

  ghost predicate ConservedTask(s: State, t: Task) {
    multiset(s.started)[t] == multiset(s.finished)[t] + RunningCount(s.workers, t)
  }

  /** Every enqueued task is queued, running or finished, and tasks were started in the order of enqueue. */
  ghost predicate Conserved(s: State) {
    s.enqueued == s.started + s.queue && forall t :: ConservedTask(s, t)
  }

  ghost predicate Awakened(s: State) {
    && s.workers != []
    && NoLostWakeup(s)
    && (s.queue != [] ==> Alive(s))
    && (!s.stop ==> !s.pendingAll && forall w :: 0 <= w < |s.workers| ==> !s.workers[w].Exited?)
    && (s.stop && !s.pendingAll ==> forall w :: 0 <= w < |s.workers| ==> !s.workers[w].Waiting?)
  }

  ghost predicate Inv(s: State) { Awakened(s) && Conserved(s) }

  lemma StepKeepsAwakened(s: State, a: Action)
    requires Awakened(s) && Enabled(s, a)
    ensures Awakened(Next(s, a))
  {
    var s' := Next(s, a);
    match a {
      case Enqueue(t) => assert !s'.workers[0].Exited?;
      case EnqueueFrom(w, t) => assert s'.workers[w].Running?;
      case NotifyOne(w) => assert s'.workers[w].Awake?;
      case NotifyNobody =>
      case Acquire(w) => assert s.queue != [] ==> s'.workers[w].Running?;
      case Finish(w) => assert s'.workers[w].Awake?;
      case Spurious(w) => assert s'.workers[w].Awake?;
      case Stop =>
      case NotifyAll =>
        if s.queue != [] {
          var w :| 0 <= w < |s.workers| && !s.workers[w].Exited?;
          assert s'.workers[w].Awake? || s'.workers[w].Running?;
        }
    }
  }

  lemma AcquireConserves(s: State, w: nat, t: Task)
    requires ConservedTask(s, t) && Is(s, w, Awake)
    ensures ConservedTask(AfterAcquire(s, w), t)
  {
    UpdateRunning(s.workers, w, AfterAcquire(s, w).workers[w], t);
  }

  lemma FinishConserves(s: State, w: nat, t: Task)
    requires ConservedTask(s, t) && Enabled(s, Finish(w))
    ensures ConservedTask(Next(s, Finish(w)), t)
  {
    UpdateRunning(s.workers, w, Awake, t);
  }

  lemma StepConservesTask(s: State, a: Action, t: Task)
    requires ConservedTask(s, t) && Enabled(s, a)
    ensures ConservedTask(Next(s, a), t)
  {
    match a {
      case NotifyOne(w) => UpdateRunning(s.workers, w, Awake, t);
      case Acquire(w) => AcquireConserves(s, w, t);
      case Finish(w) => FinishConserves(s, w, t);
      case Spurious(w) => UpdateRunning(s.workers, w, Awake, t);
      case NotifyAll => WakeAllRunning(s.workers, t);
      case _ =>
    }
  }

  lemma StepConserves(s: State, a: Action)
    requires Conserved(s) && Enabled(s, a)
    ensures Conserved(Next(s, a))
  {
    hide ConservedTask;
    assert Next(s, a).enqueued == Next(s, a).started + Next(s, a).queue;
    forall t ensures ConservedTask(Next(s, a), t) { StepConservesTask(s, a, t); }
  }

  lemma {:induction false} RunKeepsInv(s: State, acts: seq<Action>, s': State)
    requires Inv(s) && RunsTo(s, acts, s')
    ensures Inv(s')
    decreases |acts|
  {
    hide Awakened, Conserved, Enabled, Next;
    if acts != [] {
      StepKeepsAwakened(s, acts[0]);
      StepConserves(s, acts[0]);
      RunKeepsInv(Next(s, acts[0]), acts[1..], s');
    }
  }

  /** The task a step hands in, from outside or from a running job. */
  function Handed(a: Action): seq<Task> { if a.Enqueue? || a.EnqueueFrom? then [a.t] else [] }

  function Calls(acts: seq<Action>): seq<Task> { if acts == [] then [] else Handed(acts[0]) + Calls(acts[1..]) }

  lemma StepEnqueues(s: State, a: Action)
    requires Enabled(s, a)
    ensures Next(s, a).enqueued == s.enqueued + Handed(a)
    ensures |Next(s, a).workers| == |s.workers|
  {
  }

  lemma {:induction false} RunEnqueues(s: State, acts: seq<Action>, s': State)
    requires RunsTo(s, acts, s')
    ensures s'.enqueued == s.enqueued + Calls(acts) && |s'.workers| == |s.workers|
    decreases |acts|
  {
    hide Enabled, Next, Handed;
    if acts != [] {
      StepEnqueues(s, acts[0]);
      RunEnqueues(Next(s, acts[0]), acts[1..], s');
      assert s.enqueued + Handed(acts[0]) + Calls(acts[1..]) == s.enqueued + (Handed(acts[0]) + Calls(acts[1..]));
    }
  }

  /** In every run the pool has the workers it was asked for, at least one, and the tasks are those handed in. */
  lemma PoolServesCalls(n: nat, acts: seq<Action>, s: State)
    requires RunsTo(Init(n), acts, s)
    ensures |s.workers| == if n == 0 then 1 else n
    ensures s.enqueued == Calls(acts)
  {
    RunEnqueues(Init(n), acts, s);
  }

  lemma InitInv(n: nat)
    ensures Inv(Init(n))
  {
    forall t ensures ConservedTask(Init(n), t) { NoneRunning(Init(n).workers, t); }
  }

  // ---- No lost wakeup, no deadlock ----

  /** Steps the pool takes by itself, without its callers, its jobs' requests or spurious wakeups. */
  predicate Internal(a: Action) {
    a.NotifyOne? || a.NotifyNobody? || a.Acquire? || a.Finish? || a.NotifyAll?
  }

  ghost predicate Stuck(s: State) { forall a :: Internal(a) ==> !Enabled(s, a) }

  ghost predicate Idle(s: State) {
    !s.stop && s.queue == [] && s.pending == 0 && forall w :: 0 <= w < |s.workers| ==> s.workers[w].Waiting?
  }

  ghost predicate Done(s: State) {
    s.stop && s.queue == [] && s.pending == 0 && !s.pendingAll && forall w :: 0 <= w < |s.workers| ==> s.workers[w].Exited?
  }

  lemma StuckMeansIdleOrDone(s: State)
    requires Inv(s) && Stuck(s)
    ensures Idle(s) || Done(s)
  {
    assert !Enabled(s, NotifyAll) && !Enabled(s, NotifyNobody);
    forall w | 0 <= w < |s.workers|
      ensures (s.workers[w].Waiting? && s.pending == 0) || s.workers[w].Exited?
    {
      assert !Enabled(s, Acquire(w)) && !Enabled(s, Finish(w)) && !Enabled(s, NotifyOne(w));
    }
  }

  /**
   * In every run, a queued task has an awake or busy worker or a pending notification, and the pool is stuck exactly
   * when it is idle (nothing queued, everyone waiting) or done (everyone exited, nothing queued).
   */
  lemma NoDeadlock(n: nat, acts: seq<Action>, s: State)
    requires RunsTo(Init(n), acts, s)
    ensures NoLostWakeup(s)
    ensures Stuck(s) <==> Idle(s) || Done(s)
  {
    InitInv(n);
    RunKeepsInv(Init(n), acts, s);
    if Stuck(s) { StuckMeansIdleOrDone(s); }
  }

  // ---- Exactly once ----

  lemma AllExitedAllFinished(s: State)
    requires Inv(s) && forall w :: 0 <= w < |s.workers| ==> s.workers[w].Exited?
    ensures multiset(s.finished) == multiset(s.enqueued)
  {
    assert s.queue == [];
    forall t ensures multiset(s.finished)[t] == multiset(s.enqueued)[t] {
      assert ConservedTask(s, t);
      NoneRunning(s.workers, t);
    }
  }

  /** Tasks start in the order of enqueue, none is lost or run twice, and after the pool is gone all have finished. */
  lemma ExactlyOnce(n: nat, acts: seq<Action>, s: State)
    requires RunsTo(Init(n), acts, s)
    ensures s.started <= s.enqueued
    ensures forall t ::
      multiset(s.enqueued)[t] == multiset(s.queue)[t] + RunningCount(s.workers, t) + multiset(s.finished)[t]
    ensures (forall w :: 0 <= w < |s.workers| ==> s.workers[w].Exited?) ==> multiset(s.finished) == multiset(s.enqueued)
  {
    InitInv(n);
    RunKeepsInv(Init(n), acts, s);
    assert multiset(s.enqueued) == multiset(s.started) + multiset(s.queue);
    forall t
      ensures multiset(s.enqueued)[t] == multiset(s.queue)[t] + RunningCount(s.workers, t) + multiset(s.finished)[t]
    {
      assert ConservedTask(s, t);
    }
    if forall w :: 0 <= w < |s.workers| ==> s.workers[w].Exited? {
      AllExitedAllFinished(s);
    }
  }

  // ---- Left to itself, the pool comes to rest ----

  function Weight(x: Worker): nat { if x.Running? then 2 else if x.Awake? then 1 else 0 }

  function WeightSum(ws: seq<Worker>): nat { if ws == [] then 0 else Weight(ws[0]) + WeightSum(ws[1..]) }

  lemma {:induction false} UpdateWeight(ws: seq<Worker>, w: nat, x: Worker)
    requires w < |ws|
    ensures WeightSum(ws[w := x]) + Weight(ws[w]) == WeightSum(ws) + Weight(x)
  {
    if w > 0 {
      UpdateWeight(ws[1..], w - 1, x);
      assert ws[w := x][1..] == ws[1..][w - 1 := x];
    }
  }

  lemma {:induction false} WakeAllWeight(ws: seq<Worker>)
    ensures WeightSum(WakeAll(ws)) <= WeightSum(ws) + |ws|
  {
    if ws != [] { WakeAllWeight(ws[1..]); }
  }

  function Measure(s: State): nat {
    2 * |s.queue| + WeightSum(s.workers) + 2 * s.pending + if s.pendingAll then |s.workers| + 1 else 0
  }

  lemma InternalDecreases(s: State, a: Action)
    requires Enabled(s, a) && Internal(a)
    ensures Measure(Next(s, a)) < Measure(s)
  {
    match a
    case NotifyOne(w) => UpdateWeight(s.workers, w, Awake);
    case NotifyNobody =>
    case Acquire(w) => UpdateWeight(s.workers, w, Next(s, a).workers[w]);
    case Finish(w) => UpdateWeight(s.workers, w, Awake);
    case NotifyAll => WakeAllWeight(s.workers);
  }

  lemma {:induction false} InternalRunBounded(s: State, acts: seq<Action>, s': State)
    requires RunsTo(s, acts, s') && forall i :: 0 <= i < |acts| ==> Internal(acts[i])
    ensures |acts| + Measure(s') <= Measure(s) && s'.stop == s.stop && s'.enqueued == s.enqueued
    decreases |acts|
  {
    if acts != [] {
      InternalDecreases(s, acts[0]);
      InternalRunBounded(Next(s, acts[0]), acts[1..], s');
    }
  }

  /**
   * Destruction terminates: from any reachable state in which the destructor has set the flag, the pool's own steps
   * can only go on for a bounded time, and when none is left every worker has exited and every task has finished.
   */
  lemma DestructorDrains(n: nat, acts: seq<Action>, s: State, own: seq<Action>, s': State)
    requires RunsTo(Init(n), acts, s) && s.stop
    requires RunsTo(s, own, s') && forall i :: 0 <= i < |own| ==> Internal(own[i])
    ensures |own| <= Measure(s)
    ensures Stuck(s') ==> Done(s') && multiset(s'.finished) == multiset(s.enqueued)
  {
    InitInv(n);
    RunKeepsInv(Init(n), acts, s);
    RunKeepsInv(s, own, s');
    InternalRunBounded(s, own, s');
    if Stuck(s') {
      StuckMeansIdleOrDone(s');
      AllExitedAllFinished(s');
    }
  }
}
