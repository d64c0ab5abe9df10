/** The thread pool of src/ThreadPool.cpp and include/ThreadPool.h as a concurrent protocol:
    its atomic steps, and what holds in every interleaving of them. */
module ThreadPool {
  import opened Bytes

  // ---------------------------------------------------------------------------------------------
  // States
  // ---------------------------------------------------------------------------------------------

  /** A worker thread: about to lock queue_mutex, holding it at the wait predicate, asleep on the
      condition (mutex released), running a task without the mutex, or returned. */
  datatype Worker = Awake | Deciding | Sleeping | Running(task: nat) | Exited

  /** One call of enqueue; call j submits task j. Notifying: lock released, notify_one still to come. */
  datatype Caller = Ready | Locked | Notifying | Accepted | Refused

  /** The call of shutdown. Joining(k): the first k workers have been joined. */
  datatype Stopper = NotCalled | StopLocked | StopNotifying | Joining(k: nat) | Joined

  datatype Holder = Free | HeldByWorker(i: nat) | HeldByCaller(j: nat) | HeldByStopper

  /** The shared state with the history of accepted, dispatched and finished tasks. */
  datatype State = State(workers: seq<Worker>, tasks: seq<nat>, stop: bool, lock: Holder,
                         callers: seq<Caller>, stopper: Stopper,
                         accepted: seq<nat>, dispatched: seq<nat>, finished: seq<nat>)

  datatype Action =
    | WorkerLocks(i: nat)
    | WorkerDecides(i: nat)
    | TaskReturns(i: nat, threw: bool)
    | SpuriousWakeup(i: nat)
    | CallerLocks(j: nat)
    | CallerPushes(j: nat)
    | CallerNotifies(j: nat, woken: Option<nat>)
    | StopperLocks
    | StopperStops
    | StopperNotifies
    | StopperJoins

  function Init(threads: nat, calls: nat): State {
    State(seq(threads, i => Awake), [], false, Free, seq(calls, j => Ready), NotCalled, [], [], [])
  }

  predicate IsWorker(s: State, i: nat, w: Worker) {
    i < |s.workers| && s.workers[i] == w
  }

  predicate IsCaller(s: State, j: nat, c: Caller) {
    j < |s.callers| && s.callers[j] == c
  }

  predicate Enabled(s: State, a: Action) {
    match a
    case WorkerLocks(i) => IsWorker(s, i, Awake) && s.lock == Free
    case WorkerDecides(i) => IsWorker(s, i, Deciding)
    case TaskReturns(i, _) => i < |s.workers| && s.workers[i].Running?
    case SpuriousWakeup(i) => IsWorker(s, i, Sleeping)
    case CallerLocks(j) => IsCaller(s, j, Ready) && s.lock == Free
    case CallerPushes(j) => IsCaller(s, j, Locked)
    case CallerNotifies(j, woken) =>
      IsCaller(s, j, Notifying) && (if woken.Some? then IsWorker(s, woken.value, Sleeping) else Sleeping !in s.workers)
    case StopperLocks => s.stopper == NotCalled && s.lock == Free
    case StopperStops => s.stopper == StopLocked
    case StopperNotifies => s.stopper == StopNotifying
    case StopperJoins => s.stopper.Joining? && (s.stopper.k >= |s.workers| || s.workers[s.stopper.k] == Exited)
  }

  function Wake(w: Worker): Worker {
    if w == Sleeping then Awake else w
  }

  function WakeAll(ws: seq<Worker>): (r: seq<Worker>)
    ensures |r| == |ws|
  {
    seq(|ws|, i requires 0 <= i < |ws| => Wake(ws[i]))
  }

  /** The state after one atomic step. */
  function Apply(s: State, a: Action): State
    requires Enabled(s, a)
  {
    match a
    case WorkerLocks(i) => s.(workers := s.workers[i := Deciding], lock := HeldByWorker(i))
    case WorkerDecides(i) =>
      if s.tasks != [] then
        s.(workers := s.workers[i := Running(s.tasks[0])], tasks := s.tasks[1..], lock := Free,
           dispatched := s.dispatched + [s.tasks[0]])
      else
        s.(workers := s.workers[i := if s.stop then Exited else Sleeping], lock := Free)
    case TaskReturns(i, _) =>
      s.(workers := s.workers[i := Awake], finished := s.finished + [s.workers[i].task])
    case SpuriousWakeup(i) => s.(workers := s.workers[i := Awake])
    case CallerLocks(j) => s.(callers := s.callers[j := Locked], lock := HeldByCaller(j))
    case CallerPushes(j) =>
      if s.stop then
        s.(callers := s.callers[j := Refused], lock := Free)
      else
        s.(callers := s.callers[j := Notifying], lock := Free, tasks := s.tasks + [j], accepted := s.accepted + [j])
    case CallerNotifies(j, woken) =>
      s.(callers := s.callers[j := Accepted],
         workers := if woken.Some? then s.workers[woken.value := Awake] else s.workers)
    case StopperLocks => s.(stopper := StopLocked, lock := HeldByStopper)
    case StopperStops => s.(stopper := StopNotifying, lock := Free, stop := true)
    case StopperNotifies => s.(stopper := Joining(0), workers := WakeAll(s.workers))
    case StopperJoins =>
      if s.stopper.k < |s.workers| then s.(stopper := Joining(s.stopper.k + 1))
      else s.(stopper := Joined, workers := [])
  }

  // ---------------------------------------------------------------------------------------------
  // Counting over threads
  // ---------------------------------------------------------------------------------------------

  function Sum<T>(weight: T -> nat, xs: seq<T>): nat {
    if xs == [] then 0 else weight(xs[0]) + Sum(weight, xs[1..])
  }

  lemma {:induction false} SumUpdate<T>(weight: T -> nat, xs: seq<T>, i: nat, x: T)
    requires i < |xs|
    ensures Sum(weight, xs[i := x]) + weight(xs[i]) == Sum(weight, xs) + weight(x)
    decreases |xs|
  {
    if i == 0 {
      assert xs[0 := x][1..] == xs[1..];
    } else {
      assert xs[i := x][1..] == xs[1..][i - 1 := x];
      SumUpdate(weight, xs[1..], i - 1, x);
    }
  }

  lemma {:induction false} SumZero<T>(weight: T -> nat, xs: seq<T>)
    requires forall x | x in xs :: weight(x) == 0
    ensures Sum(weight, xs) == 0
  {
    if xs != [] {
      SumZero(weight, xs[1..]);
    }
  }

  function RunningTasks(ws: seq<Worker>): multiset<nat> {
    if ws == [] then multiset{} else Load(ws[0]) + RunningTasks(ws[1..])
  }

  function Load(w: Worker): multiset<nat> {
    if w.Running? then multiset{w.task} else multiset{}
  }

  lemma Reassociate(a: multiset<nat>, b: multiset<nat>, c: multiset<nat>)
    ensures (a + b) + c == a + (b + c)
    ensures (a + b) + c == (c + b) + a
    ensures a + multiset{} == a
  {
  }

  lemma {:induction false} RunningUpdate(ws: seq<Worker>, i: nat, w: Worker)
    requires i < |ws|
    ensures RunningTasks(ws[i := w]) + Load(ws[i]) == RunningTasks(ws) + Load(w)
    decreases |ws|
  {
    hide Load;
    var vs, first := ws[i := w], Load(ws[0]);
    var rest := RunningTasks(ws[1..]);
    assert RunningTasks(vs) == Load(vs[0]) + RunningTasks(vs[1..]);
    if i == 0 {
      assert vs[1..] == ws[1..];
      Reassociate(Load(w), rest, first);
    } else {
      assert vs[1..] == ws[1..][i - 1 := w];
      RunningUpdate(ws[1..], i - 1, w);
      Reassociate(first, RunningTasks(vs[1..]), Load(ws[i]));
      Reassociate(first, rest, Load(w));
    }
  }

  lemma {:induction false} RunningNone(ws: seq<Worker>)
    requires forall w | w in ws :: !w.Running?
    ensures RunningTasks(ws) == multiset{}
  {
    if ws != [] {
      RunningNone(ws[1..]);
    }
  }

  lemma {:induction false} RunningWakeAll(ws: seq<Worker>)
    ensures RunningTasks(WakeAll(ws)) == RunningTasks(ws)
  {
    if ws != [] {
      assert WakeAll(ws)[1..] == WakeAll(ws[1..]);
      RunningWakeAll(ws[1..]);
    }
  }

  // ---------------------------------------------------------------------------------------------
  // The invariant
  // ---------------------------------------------------------------------------------------------

  /** Workers on their way to look at the queue. */
  function Coming(w: Worker): nat {
    if w == Awake || w == Deciding then 1 else 0
  }

  function Pending(c: Caller): nat {
    if c == Notifying then 1 else 0
  }

  /** The mutex excludes: its holder is in its critical section, and nobody else is. */
  ghost predicate MutexInv(s: State) {
    && (forall i: nat | i < |s.workers| :: s.workers[i] == Deciding <==> s.lock == HeldByWorker(i))
    && (forall j: nat | j < |s.callers| :: s.callers[j] == Locked <==> s.lock == HeldByCaller(j))
    && (s.stopper == StopLocked <==> s.lock == HeldByStopper)
    && (s.lock.HeldByWorker? ==> s.lock.i < |s.workers|)
    && (s.lock.HeldByCaller? ==> s.lock.j < |s.callers|)
  }

  /** How far shutdown has come. */
  ghost predicate StopInv(s: State) {
    && (s.stop <==> s.stopper.StopNotifying? || s.stopper.Joining? || s.stopper.Joined?)
    && (s.stopper.Joining? || s.stopper.Joined? ==> Sleeping !in s.workers)
    && (Exited in s.workers ==> s.stop && s.tasks == [])
    && (s.stopper.Joining? ==> s.stopper.k <= |s.workers| && forall i | 0 <= i < s.stopper.k :: s.workers[i] == Exited)
    && (if s.stopper.Joined? then s.workers == [] && s.tasks == [] else s.workers != [])
    && (Refused in s.callers ==> s.stop)
  }

  /** No wakeup is lost: while any worker sleeps, every queued task has a worker of its own coming
      for it or a notification of its own still to be sent. */
  ghost predicate WakeupInv(s: State) {
    Sleeping in s.workers ==> |s.tasks| <= Sum(Coming, s.workers) + Sum(Pending, s.callers)
  }

  /** First in, first out, exactly once. */
  ghost predicate DispatchInv(s: State) {
    FlowInv(s) && AcceptedInv(s)
  }

  ghost predicate Inv(s: State) {
    MutexInv(s) && StopInv(s) && WakeupInv(s) && DispatchInv(s)
  }

  lemma InitInv(threads: nat, calls: nat)
    requires threads >= 1
    ensures Inv(Init(threads, calls))
  {
    RunningNone(Init(threads, calls).workers);
  }

  lemma MutexStep(s: State, a: Action)
    requires Inv(s) && Enabled(s, a)
    ensures MutexInv(Apply(s, a))
  {
  }

  lemma StopStep(s: State, a: Action)
    requires Inv(s) && Enabled(s, a)
    ensures StopInv(Apply(s, a))
  {
    hide WakeupInv, DispatchInv;
    var t := Apply(s, a);
    if a.StopperNotifies? {
      forall i | 0 <= i < |t.workers|
        ensures t.workers[i] != Sleeping && (t.workers[i] == Exited ==> s.workers[i] == Exited)
      {
      }
    } else if a.StopperJoins? {
      if s.stopper.k >= |s.workers| {
        assert s.workers[0] == Exited;
      }
    } else {
      WorkersBefore(s, a);
    }
  }

  /** A step other than notify_all changes the state of at most one worker, and only a worker
      that finds stop set and the queue empty returns. */
  lemma WorkersBefore(s: State, a: Action)
    requires Enabled(s, a) && !a.StopperNotifies? && !a.StopperJoins?
    ensures |Apply(s, a).workers| == |s.workers|
    ensures Exited in Apply(s, a).workers ==> Exited in s.workers || (a.WorkerDecides? && s.stop && s.tasks == [])
    ensures Sleeping in Apply(s, a).workers ==> Sleeping in s.workers || (a.WorkerDecides? && !s.stop && s.tasks == [])
  {
    var t := Apply(s, a);
    if Exited in t.workers {
      var i :| 0 <= i < |t.workers| && t.workers[i] == Exited;
      assert s.workers[i] in s.workers;
    }
    if Sleeping in t.workers {
      var i :| 0 <= i < |t.workers| && t.workers[i] == Sleeping;
      assert s.workers[i] in s.workers;
    }
  }

  lemma WakeupStep(s: State, a: Action)
    requires Inv(s) && Enabled(s, a)
    ensures WakeupInv(Apply(s, a))
  {
    hide MutexInv, DispatchInv;
    var t := Apply(s, a);
    match a
    case WorkerLocks(i) => SumUpdate(Coming, s.workers, i, Deciding);
    case WorkerDecides(i) => SumUpdate(Coming, s.workers, i, t.workers[i]);
    case TaskReturns(i, _) => SumUpdate(Coming, s.workers, i, Awake);
    case SpuriousWakeup(i) => SumUpdate(Coming, s.workers, i, Awake);
    case CallerLocks(j) => SumUpdate(Pending, s.callers, j, Locked);
    case CallerPushes(j) => SumUpdate(Pending, s.callers, j, t.callers[j]);
    case CallerNotifies(j, woken) =>
      SumUpdate(Pending, s.callers, j, Accepted);
      if woken.Some? {
        SumUpdate(Coming, s.workers, woken.value, Awake);
      }
    case StopperLocks =>
    case StopperStops =>
    case StopperNotifies =>
    case StopperJoins =>
  }

  /** Which calls have been accepted. */
  ghost predicate AcceptedInv(s: State) {
    && (forall j | j in s.accepted :: j < |s.callers| && (s.callers[j] == Notifying || s.callers[j] == Accepted))
    && (forall j: nat | j < |s.callers| && (s.callers[j] == Notifying || s.callers[j] == Accepted) :: j in s.accepted)
    && (forall k, l | 0 <= k < l < |s.accepted| :: s.accepted[k] != s.accepted[l])
  }

  lemma AcceptedStep(s: State, a: Action)
    requires Inv(s) && Enabled(s, a)
    ensures AcceptedInv(Apply(s, a))
  {
    hide MutexInv, WakeupInv, StopInv, FlowInv;
  }

  /** Where the tasks are. */
  ghost predicate FlowInv(s: State) {
    && s.accepted == s.dispatched + s.tasks
    && multiset(s.dispatched) == multiset(s.finished) + RunningTasks(s.workers)
  }

  lemma MultisetPush(xs: seq<nat>, x: nat)
    ensures multiset(xs + [x]) == multiset(xs) + multiset{x}
  {
  }

  lemma RunningAdd(ws: seq<Worker>, i: nat, task: nat)
    requires i < |ws| && !ws[i].Running?
    ensures RunningTasks(ws[i := Running(task)]) == RunningTasks(ws) + multiset{task}
  {
    RunningUpdate(ws, i, Running(task));
    hide RunningTasks;
    Reassociate(RunningTasks(ws[i := Running(task)]), multiset{}, multiset{});
  }

  lemma RunningDrop(ws: seq<Worker>, i: nat)
    requires i < |ws| && ws[i].Running?
    ensures RunningTasks(ws[i := Awake]) + multiset{ws[i].task} == RunningTasks(ws)
  {
    RunningUpdate(ws, i, Awake);
    hide RunningTasks;
    Reassociate(RunningTasks(ws), multiset{}, multiset{});
  }

  lemma FlowUnloaded(s: State, i: nat, w: Worker)
    requires i < |s.workers| && !s.workers[i].Running? && !w.Running?
    ensures RunningTasks(s.workers[i := w]) == RunningTasks(s.workers)
  {
    RunningUpdate(s.workers, i, w);
    hide RunningTasks;
    Reassociate(RunningTasks(s.workers), multiset{}, multiset{});
    Reassociate(RunningTasks(s.workers[i := w]), multiset{}, multiset{});
  }

  lemma FlowDispatch(s: State, i: nat)
    requires FlowInv(s) && IsWorker(s, i, Deciding) && s.tasks != []
    ensures FlowInv(Apply(s, WorkerDecides(i)))
  {
    hide RunningTasks;
    var t, task := Apply(s, WorkerDecides(i)), s.tasks[0];
    RunningAdd(s.workers, i, task);
    MultisetPush(s.dispatched, task);
    Reassociate(multiset(s.finished), RunningTasks(s.workers), multiset{task});
    assert s.accepted == t.dispatched + t.tasks by {
      assert s.tasks == [task] + s.tasks[1..];
    }
  }

  lemma FlowFinish(s: State, i: nat, threw: bool)
    requires FlowInv(s) && i < |s.workers| && s.workers[i].Running?
    ensures FlowInv(Apply(s, TaskReturns(i, threw)))
  {
    hide RunningTasks;
    var t, task := Apply(s, TaskReturns(i, threw)), s.workers[i].task;
    RunningDrop(s.workers, i);
    MultisetPush(s.finished, task);
    Swap(multiset(s.finished), RunningTasks(t.workers), multiset{task});
  }

  lemma Swap(a: multiset<nat>, b: multiset<nat>, c: multiset<nat>)
    ensures a + (b + c) == (a + c) + b
  {
  }

  lemma FlowStep(s: State, a: Action)
    requires Inv(s) && Enabled(s, a)
    ensures FlowInv(Apply(s, a))
  {
    hide MutexInv, WakeupInv, AcceptedInv, RunningTasks;
    match a
    case WorkerLocks(i) => FlowUnloaded(s, i, Deciding);
    case WorkerDecides(i) =>
      if s.tasks != [] {
        FlowDispatch(s, i);
      } else {
        FlowUnloaded(s, i, if s.stop then Exited else Sleeping);
      }
    case TaskReturns(i, threw) => FlowFinish(s, i, threw);
    case SpuriousWakeup(i) => FlowUnloaded(s, i, Awake);
    case CallerLocks(j) =>
    case CallerPushes(j) => assert s.accepted + [j] == s.dispatched + (s.tasks + [j]);
    case CallerNotifies(j, woken) =>
      if woken.Some? {
        FlowUnloaded(s, woken.value, Awake);
      }
    case StopperLocks =>
    case StopperStops =>
    case StopperNotifies => RunningWakeAll(s.workers);
    case StopperJoins =>
      if s.stopper.k >= |s.workers| {
        RunningNone(s.workers);
        RunningNone([]);
      }
  }

  lemma InvStep(s: State, a: Action)
    requires Inv(s) && Enabled(s, a)
    ensures Inv(Apply(s, a))
  {
    MutexStep(s, a);
    StopStep(s, a);
    WakeupStep(s, a);
    FlowStep(s, a);
    AcceptedStep(s, a);
  }

  // ---------------------------------------------------------------------------------------------
  // The implementation
  // ---------------------------------------------------------------------------------------------

  /** class ThreadPool with the control points of the threads that use it. Each method is one critical
      section or one unlocked stretch of the source, run by the thread it names; it takes the step of the
      transition system and keeps the invariant. */
  class Pool {
    var workers: seq<Worker>
    var tasks: seq<nat>
    var stop: bool
    var lock: Holder
    var callers: seq<Caller>
    var stopper: Stopper
    ghost var accepted: seq<nat>
    ghost var dispatched: seq<nat>
    ghost var finished: seq<nat>

    ghost function View(): State
      reads this
    {
      State(workers, tasks, stop, lock, callers, stopper, accepted, dispatched, finished)
    }

    /** Mutual exclusion, no lost wakeup, and the account of tasks hold between any two steps. */
    ghost predicate Valid()
      reads this
    {
      Inv(View())
    }

    constructor (threads: nat, calls: nat)
      requires threads >= 1
      ensures Valid() && View() == Init(threads, calls)
      ensures |workers| == threads && (forall w | w in workers :: w == Awake) && |callers| == calls
    {
      workers := seq(threads, i => Awake);
      tasks, stop, lock := [], false, Free;
      callers := seq(calls, j => Ready);
      stopper := NotCalled;
      accepted, dispatched, finished := [], [], [];
      new;
      InitInv(threads, calls);
    }

    method QueueSize() returns (n: nat)
      ensures n == |View().tasks|
    {
      n := |tasks|;
    }

    method LockAsWorker(i: nat)
      requires Valid() && Enabled(View(), WorkerLocks(i))
      modifies this
      ensures Valid() && View() == Apply(old(View()), WorkerLocks(i))
    {
      hide Inv;
      InvStep(View(), WorkerLocks(i));
      workers, lock := workers[i := Deciding], HeldByWorker(i);
    }

    /** The wait predicate and what follows it up to the release of the lock. */
    method Decide(i: nat)
      requires Valid() && Enabled(View(), WorkerDecides(i))
      modifies this
      ensures Valid() && View() == Apply(old(View()), WorkerDecides(i))
    {
      hide Inv;
      InvStep(View(), WorkerDecides(i));
      if !(stop || tasks != []) {
        workers := workers[i := Sleeping];
      } else if stop && tasks == [] {
        workers := workers[i := Exited];
      } else {
        var task := tasks[0];
        tasks := tasks[1..];
        dispatched := dispatched + [task];
        workers := workers[i := Running(task)];
      }
      lock := Free;
    }

    /** The task call comes back, normally or by an exception, which the worker catches. */
    method FinishTask(i: nat, threw: bool)
      requires Valid() && Enabled(View(), TaskReturns(i, threw))
      modifies this
      ensures Valid() && View() == Apply(old(View()), TaskReturns(i, threw))
    {
      hide Inv;
      InvStep(View(), TaskReturns(i, threw));
      finished := finished + [workers[i].task];
      workers := workers[i := Awake];
    }

    method LockAsCaller(j: nat)
      requires Valid() && Enabled(View(), CallerLocks(j))
      modifies this
      ensures Valid() && View() == Apply(old(View()), CallerLocks(j))
    {
      hide Inv;
      InvStep(View(), CallerLocks(j));
      callers, lock := callers[j := Locked], HeldByCaller(j);
    }

    /** The critical section of enqueue; not ok stands for the exception. */
    method Push(j: nat) returns (ok: bool)
      requires Valid() && Enabled(View(), CallerPushes(j))
      modifies this
      ensures Valid() && View() == Apply(old(View()), CallerPushes(j))
      ensures ok == !old(stop)
    {
      hide Inv;
      InvStep(View(), CallerPushes(j));
      if stop {
        callers, lock := callers[j := Refused], Free;
        return false;
      }
      tasks := tasks + [j];
      accepted := accepted + [j];
      callers, lock := callers[j := Notifying], Free;
      return true;
    }

    /** notify_one wakes some sleeping worker, if there is one. */
    method NotifyOne(j: nat) returns (woken: Option<nat>)
      requires Valid() && IsCaller(View(), j, Notifying)
      modifies this
      ensures Valid() && Enabled(old(View()), CallerNotifies(j, woken))
      ensures View() == Apply(old(View()), CallerNotifies(j, woken))
    {
      hide Inv;
      ghost var before := View();
      woken := None;
      if Sleeping in workers {
        var i: nat :| i < |workers| && workers[i] == Sleeping;
        woken := Some(i);
        workers := workers[i := Awake];
      }
      callers := callers[j := Accepted];
      InvStep(before, CallerNotifies(j, woken));
    }

    method LockAsStopper()
      requires Valid() && Enabled(View(), StopperLocks)
      modifies this
      ensures Valid() && View() == Apply(old(View()), StopperLocks)
    {
      hide Inv;
      InvStep(View(), StopperLocks);
      stopper, lock := StopLocked, HeldByStopper;
    }

    method Stop()
      requires Valid() && Enabled(View(), StopperStops)
      modifies this
      ensures Valid() && View() == Apply(old(View()), StopperStops)
    {
      hide Inv;
      InvStep(View(), StopperStops);
      stop := true;
      stopper, lock := StopNotifying, Free;
    }

    method NotifyAll()
      requires Valid() && Enabled(View(), StopperNotifies)
      modifies this
      ensures Valid() && View() == Apply(old(View()), StopperNotifies)
    {
      hide Inv;
      InvStep(View(), StopperNotifies);
      var i := 0;
      ghost var before := workers;
      while i < |workers|
        invariant i <= |workers| == |before|
        invariant forall k | 0 <= k < |workers| :: workers[k] == if k < i then Wake(before[k]) else before[k]
        invariant View() == old(View()).(workers := workers)
      {
        workers := workers[i := Wake(workers[i])];
        i := i + 1;
      }
      assert workers == WakeAll(before);
      stopper := Joining(0);
    }

    /** One turn of the join loop, or the end of it with workers.clear(). */
    method Join()
      requires Valid() && Enabled(View(), StopperJoins)
      modifies this
      ensures Valid() && View() == Apply(old(View()), StopperJoins)
    {
      hide Inv;
      InvStep(View(), StopperJoins);
      if stopper.k < |workers| {
        stopper := Joining(stopper.k + 1);
      } else {
        workers, stopper := [], Joined;
      }
    }
  }

  // ---------------------------------------------------------------------------------------------
  // Runs
  // ---------------------------------------------------------------------------------------------

  ghost predicate IsRun(s: State, acts: seq<Action>)
    decreases |acts|
  {
    acts == [] || (Enabled(s, acts[0]) && IsRun(Apply(s, acts[0]), acts[1..]))
  }

  ghost function After(s: State, acts: seq<Action>): State
    requires IsRun(s, acts)
    decreases |acts|
  {
    if acts == [] then s else After(Apply(s, acts[0]), acts[1..])
  }

  lemma {:induction false} RunInv(s: State, acts: seq<Action>)
    requires Inv(s) && IsRun(s, acts)
    ensures Inv(After(s, acts))
    decreases |acts|
  {
    hide Inv, Apply, Enabled;
    if acts != [] {
      InvStep(s, acts[0]);
      RunInv(Apply(s, acts[0]), acts[1..]);
    }
  }

  /** The invariant holds in every state that any interleaving can reach. */
  lemma ReachableInv(threads: nat, calls: nat, acts: seq<Action>)
    requires threads >= 1 && IsRun(Init(threads, calls), acts)
    ensures Inv(After(Init(threads, calls), acts))
  {
    hide Inv, Init, IsRun, After;
    InitInv(threads, calls);
    RunInv(Init(threads, calls), acts);
  }

  lemma {:induction false} SumPositive<T>(weight: T -> nat, xs: seq<T>)
    ensures Sum(weight, xs) > 0 ==> exists x :: x in xs && weight(x) > 0
  {
    if xs != [] {
      SumPositive(weight, xs[1..]);
      if weight(xs[0]) > 0 {
        assert xs[0] in xs;
      }
    }
  }

  /** No lost wakeup. In every reachable state with a queued task some worker is coming for it or busy,
      or a notification is still to be sent; and after notify_all of shutdown no worker sleeps. */
  lemma NoLostWakeup(threads: nat, calls: nat, acts: seq<Action>)
    requires threads >= 1 && IsRun(Init(threads, calls), acts)
    ensures var s := After(Init(threads, calls), acts);
            && (s.tasks != [] ==>
                  || (exists w :: w in s.workers && (w == Awake || w == Deciding || w.Running?))
                  || Notifying in s.callers)
            && (s.stop && s.stopper != StopNotifying ==> Sleeping !in s.workers)
            && (Sleeping in s.workers ==> |s.tasks| <= Sum(Coming, s.workers) + Sum(Pending, s.callers))
  {
    ReachableInv(threads, calls, acts);
    var s := After(Init(threads, calls), acts);
    hide Init, IsRun, After, MutexInv, DispatchInv;
    if s.tasks != [] {
      SumPositive(Coming, s.workers);
      SumPositive(Pending, s.callers);
      if Sleeping !in s.workers {
        var w := s.workers[0];
        assert w in s.workers && w != Exited;
      }
    }
  }

  /** Steps the pool owes by itself. A spurious wakeup and the decision to shut down are not owed. */
  predicate Internal(a: Action) {
    !a.SpuriousWakeup? && !a.StopperLocks?
  }

  ghost predicate Stuck(s: State) {
    forall a | Internal(a) :: !Enabled(s, a)
  }

  lemma StuckParts(s: State)
    requires Inv(s) && Stuck(s)
    ensures s.lock == Free
    ensures forall w | w in s.workers :: w == Sleeping || w == Exited
    ensures forall c | c in s.callers :: c == Accepted || c == Refused
    ensures s.stopper == NotCalled || s.stopper.Joining? || s.stopper.Joined?
  {
    hide StopInv, WakeupInv, DispatchInv;
    assert s.lock.HeldByWorker? ==> Enabled(s, WorkerDecides(s.lock.i));
    assert s.lock.HeldByCaller? ==> Enabled(s, CallerPushes(s.lock.j));
    assert s.lock.HeldByStopper? ==> Enabled(s, StopperStops);
    forall i: nat | i < |s.workers|
      ensures s.workers[i] == Sleeping || s.workers[i] == Exited
    {
      assert !Enabled(s, WorkerLocks(i)) && !Enabled(s, TaskReturns(i, false));
    }
    forall j: nat | j < |s.callers|
      ensures s.callers[j] == Accepted || s.callers[j] == Refused
    {
      assert !Enabled(s, CallerLocks(j));
      if Sleeping in s.workers {
        var i: nat :| i < |s.workers| && s.workers[i] == Sleeping;
        assert !Enabled(s, CallerNotifies(j, Some(i)));
      } else {
        assert !Enabled(s, CallerNotifies(j, None));
      }
    }
    assert !Enabled(s, StopperNotifies);
  }

  lemma JoinEnabled(s: State)
    requires StopInv(s) && s.stopper.Joining?
    requires forall w | w in s.workers :: w == Sleeping || w == Exited
    ensures Enabled(s, StopperJoins)
  {
    var k := s.stopper.k;
    if k < |s.workers| {
      assert s.workers[k] in s.workers;
    }
  }

  lemma StuckStopper(s: State)
    requires Inv(s) && Stuck(s)
    ensures s.stopper == NotCalled || s.stopper == Joined
    ensures if s.stopper == NotCalled then forall w | w in s.workers :: w == Sleeping else s.workers == []
    ensures s.tasks == []
  {
    StuckParts(s);
    if s.stopper.Joining? {
      JoinEnabled(s);
      assert false;
    }
    hide MutexInv, DispatchInv, Stuck;
    SumZero(Coming, s.workers);
    SumZero(Pending, s.callers);
    if s.workers != [] {
      assert s.workers[0] in s.workers;
    }
  }

  lemma StuckIsDone(s: State)
    requires Inv(s) && Stuck(s)
    ensures s.lock == Free && s.tasks == []
    ensures forall c | c in s.callers :: c == Accepted || c == Refused
    ensures multiset(s.finished) == multiset(s.accepted)
    ensures if s.stopper == NotCalled then forall w | w in s.workers :: w == Sleeping else s.stopper == Joined
  {
    StuckParts(s);
    StuckStopper(s);
    hide MutexInv, WakeupInv, StopInv, AcceptedInv, Stuck;
    RunningNone(s.workers);
    assert s.dispatched + [] == s.dispatched;
  }

  /** The pool never deadlocks: a reachable state that owes no step has nothing left to do. The queue is
      empty, every call has returned, every accepted task is finished, and either shutdown has not
      been called and all workers sleep, or shutdown has joined them all. */
  lemma NoDeadlock(threads: nat, calls: nat, acts: seq<Action>)
    requires threads >= 1 && IsRun(Init(threads, calls), acts)
    requires Stuck(After(Init(threads, calls), acts))
    ensures var s := After(Init(threads, calls), acts);
            && s.lock == Free && s.tasks == []
            && (forall c | c in s.callers :: c == Accepted || c == Refused)
            && multiset(s.finished) == multiset(s.accepted)
            && if s.stopper == NotCalled then forall w | w in s.workers :: w == Sleeping else s.stopper == Joined
  {
    ReachableInv(threads, calls, acts);
    hide Init, IsRun, After, Inv, Stuck;
    StuckIsDone(After(Init(threads, calls), acts));
  }

  // ---------------------------------------------------------------------------------------------
  // Exactly once
  // ---------------------------------------------------------------------------------------------

  lemma {:induction false} CountDistinct(xs: seq<nat>, x: nat)
    requires forall k, l | 0 <= k < l < |xs| :: xs[k] != xs[l]
    ensures multiset(xs)[x] == if x in xs then 1 else 0
  {
    if xs != [] {
      assert xs == [xs[0]] + xs[1..];
      CountDistinct(xs[1..], x);
    }
  }

  lemma {:induction false} RunningSize(ws: seq<Worker>)
    ensures |RunningTasks(ws)| <= |ws|
  {
    if ws != [] {
      RunningSize(ws[1..]);
    }
  }

  predicate WasAccepted(s: State, j: nat) {
    IsCaller(s, j, Notifying) || IsCaller(s, j, Accepted)
  }

  /** Tasks leave the queue in the order they were accepted, and in every reachable state each accepted
      task is in exactly one place: queued, running (on at most one worker each) or finished, whether or
      not task calls throw. A call that was not accepted has its task nowhere. */
  lemma ExactlyOnce(threads: nat, calls: nat, acts: seq<Action>, j: nat)
    requires threads >= 1 && IsRun(Init(threads, calls), acts)
    ensures var s := After(Init(threads, calls), acts);
            && s.accepted == s.dispatched + s.tasks
            && multiset(s.finished)[j] + RunningTasks(s.workers)[j] + multiset(s.tasks)[j] ==
                 (if WasAccepted(s, j) then 1 else 0)
            && |RunningTasks(s.workers)| <= |s.workers|
  {
    ReachableInv(threads, calls, acts);
    var s := After(Init(threads, calls), acts);
    hide Init, IsRun, After, MutexInv, WakeupInv, StopInv, RunningTasks;
    CountDistinct(s.accepted, j);
    RunningSize(s.workers);
    assert multiset(s.accepted) == multiset(s.dispatched) + multiset(s.tasks);
  }

  // ---------------------------------------------------------------------------------------------
  // Shutdown
  // ---------------------------------------------------------------------------------------------

  lemma StopStable(s: State, a: Action)
    requires Inv(s) && Enabled(s, a) && s.stop
    ensures Apply(s, a).stop && Apply(s, a).accepted == s.accepted
    ensures s.tasks == [] ==> Apply(s, a).tasks == []
  {
  }

  lemma {:induction false} StopStableRun(s: State, acts: seq<Action>)
    requires Inv(s) && IsRun(s, acts) && s.stop
    ensures After(s, acts).stop && After(s, acts).accepted == s.accepted
    ensures s.tasks == [] ==> After(s, acts).tasks == []
    decreases |acts|
  {
    hide Inv, Apply, Enabled;
    if acts != [] {
      StopStable(s, acts[0]);
      InvStep(s, acts[0]);
      StopStableRun(Apply(s, acts[0]), acts[1..]);
    }
  }

  /** Once any worker has returned, or shutdown has joined, the queue is empty for ever and no task is
      accepted any more. */
  lemma DrainedForEver(threads: nat, calls: nat, acts: seq<Action>, more: seq<Action>)
    requires threads >= 1 && IsRun(Init(threads, calls), acts)
    requires IsRun(After(Init(threads, calls), acts), more)
    requires var s := After(Init(threads, calls), acts); Exited in s.workers || s.stopper == Joined
    ensures var s := After(Init(threads, calls), acts);
            After(s, more).tasks == [] && After(s, more).accepted == s.accepted
  {
    ReachableInv(threads, calls, acts);
    hide Init, IsRun, After, MutexInv, DispatchInv, WakeupInv;
    StopStableRun(After(Init(threads, calls), acts), more);
  }

  /** When shutdown has joined the workers, every task whose enqueue was accepted has been run, once. */
  lemma JoinedAllRun(threads: nat, calls: nat, acts: seq<Action>, j: nat)
    requires threads >= 1 && IsRun(Init(threads, calls), acts)
    requires After(Init(threads, calls), acts).stopper == Joined
    ensures var s := After(Init(threads, calls), acts);
            multiset(s.finished)[j] == if WasAccepted(s, j) then 1 else 0
  {
    ReachableInv(threads, calls, acts);
    ExactlyOnce(threads, calls, acts, j);
  }

  function WorkerFuel(w: Worker): nat {
    match w
    case Sleeping => 4
    case Running(_) => 4
    case Awake => 3
    case Deciding => 2
    case Exited => 0
  }

  function CallerFuel(c: Caller): nat {
    match c
    case Ready => 3
    case Locked => 2
    case Notifying => 1
    case Accepted => 0
    case Refused => 0
  }

  function StopperFuel(s: State): nat {
    match s.stopper
    case NotCalled => |s.workers| + 4
    case StopLocked => |s.workers| + 3
    case StopNotifying => |s.workers| + 2
    case Joining(k) => if k <= |s.workers| then |s.workers| - k + 1 else 1
    case Joined => 0
  }

  /** The work left after stop is set. */
  function Fuel(s: State): nat {
    3 * |s.tasks| + Sum(WorkerFuel, s.workers) + Sum(CallerFuel, s.callers) + StopperFuel(s)
  }

  lemma {:induction false} WakeAllFuel(ws: seq<Worker>)
    ensures Sum(WorkerFuel, WakeAll(ws)) <= Sum(WorkerFuel, ws)
  {
    if ws != [] {
      assert WakeAll(ws)[1..] == WakeAll(ws[1..]);
      WakeAllFuel(ws[1..]);
    }
  }

  /** After stop is set every step of any thread, spurious wakeups included, uses up fuel. */
  lemma FuelDecreases(s: State, a: Action)
    requires Inv(s) && Enabled(s, a) && s.stop
    ensures Fuel(Apply(s, a)) < Fuel(s)
  {
    hide MutexInv, WakeupInv, DispatchInv, Sum, WakeAll;
    var t := Apply(s, a);
    match a
    case WorkerLocks(i) => SumUpdate(WorkerFuel, s.workers, i, Deciding);
    case WorkerDecides(i) => SumUpdate(WorkerFuel, s.workers, i, t.workers[i]);
    case TaskReturns(i, _) => SumUpdate(WorkerFuel, s.workers, i, Awake);
    case SpuriousWakeup(i) => SumUpdate(WorkerFuel, s.workers, i, Awake);
    case CallerLocks(j) => SumUpdate(CallerFuel, s.callers, j, Locked);
    case CallerPushes(j) => SumUpdate(CallerFuel, s.callers, j, t.callers[j]);
    case CallerNotifies(j, woken) =>
      SumUpdate(CallerFuel, s.callers, j, Accepted);
      if woken.Some? {
        SumUpdate(WorkerFuel, s.workers, woken.value, Awake);
      }
    case StopperLocks =>
    case StopperStops =>
    case StopperNotifies => WakeAllFuel(s.workers);
    case StopperJoins => SumZero(WorkerFuel, []);
  }

  lemma {:induction false} FuelBoundsRun(s: State, acts: seq<Action>)
    requires Inv(s) && IsRun(s, acts) && s.stop
    ensures |acts| + Fuel(After(s, acts)) <= Fuel(s)
    decreases |acts|
  {
    hide Inv, Apply, Enabled, Fuel;
    if acts != [] {
      FuelDecreases(s, acts[0]);
      StopStable(s, acts[0]);
      InvStep(s, acts[0]);
      FuelBoundsRun(Apply(s, acts[0]), acts[1..]);
    }
  }

  /** Shutdown terminates: once stop is set no run is longer than the fuel at that point, and a run that
      can be continued by no owed step has joined every worker. */
  lemma ShutdownTerminates(threads: nat, calls: nat, acts: seq<Action>, more: seq<Action>)
    requires threads >= 1 && IsRun(Init(threads, calls), acts)
    requires After(Init(threads, calls), acts).stop && IsRun(After(Init(threads, calls), acts), more)
    ensures var s := After(Init(threads, calls), acts);
            && |more| <= Fuel(s)
            && (Stuck(After(s, more)) ==> After(s, more).stopper == Joined)
  {
    ReachableInv(threads, calls, acts);
    var s := After(Init(threads, calls), acts);
    FuelBoundsRun(s, more);
    StopStableRun(s, more);
    RunInv(s, more);
    var t := After(s, more);
    if Stuck(t) {
      hide Init, IsRun, After, MutexInv, DispatchInv, WakeupInv, Fuel, Stuck;
      StuckIsDone(t);
    }
  }

  // ---------------------------------------------------------------------------------------------
  // Before shutdown
  // ---------------------------------------------------------------------------------------------

  function WorkerDuty(w: Worker): nat {
    match w
    case Running(_) => 3
    case Awake => 2
    case Deciding => 1
    case Sleeping => 0
    case Exited => 0
  }

  function CallerDuty(c: Caller): nat {
    match c
    case Ready => 8
    case Locked => 7
    case Notifying => 3
    case Accepted => 0
    case Refused => 0
  }

  function StopperDuty(s: State): nat {
    match s.stopper
    case NotCalled => 3 * |s.workers| + 4
    case StopLocked => 3 * |s.workers| + 3
    case StopNotifying => 3 * |s.workers| + 2
    case Joining(k) => if k <= |s.workers| then |s.workers| - k + 1 else 1
    case Joined => 0
  }

  /** The work that is owed, whether or not shutdown is ever called: a sleeping worker owes none. */
  function Duty(s: State): nat {
    3 * |s.tasks| + Sum(WorkerDuty, s.workers) + Sum(CallerDuty, s.callers) + StopperDuty(s)
  }

  lemma {:induction false} WakeAllDuty(ws: seq<Worker>)
    ensures Sum(WorkerDuty, WakeAll(ws)) <= Sum(WorkerDuty, ws) + 2 * |ws|
  {
    if ws != [] {
      assert WakeAll(ws)[1..] == WakeAll(ws[1..]);
      WakeAllDuty(ws[1..]);
    }
  }

  lemma WorkerDutyStep(s: State, a: Action)
    requires Enabled(s, a) && (a.WorkerLocks? || a.WorkerDecides? || a.TaskReturns? || a.SpuriousWakeup?)
    ensures if a.SpuriousWakeup? then Duty(Apply(s, a)) == Duty(s) + 2 else Duty(Apply(s, a)) < Duty(s)
  {
    hide Sum;
    var t := Apply(s, a);
    var i := match a case WorkerLocks(i) => i case WorkerDecides(i) => i case TaskReturns(i, _) => i
             case SpuriousWakeup(i) => i;
    SumUpdate(WorkerDuty, s.workers, i, t.workers[i]);
  }

  lemma CallerDutyStep(s: State, a: Action)
    requires Enabled(s, a) && (a.CallerLocks? || a.CallerPushes? || a.CallerNotifies?)
    ensures Duty(Apply(s, a)) < Duty(s)
  {
    hide Sum;
    var t := Apply(s, a);
    var j := match a case CallerLocks(j) => j case CallerPushes(j) => j case CallerNotifies(j, _) => j;
    SumUpdate(CallerDuty, s.callers, j, t.callers[j]);
    if a.CallerNotifies? && a.woken.Some? {
      SumUpdate(WorkerDuty, s.workers, a.woken.value, Awake);
    }
  }

  /** Before and after stop, every step but a spurious wakeup does some of the work that is owed, and a
      spurious wakeup adds no more than one look at the queue. */
  lemma DutyDecreases(s: State, a: Action)
    requires Inv(s) && Enabled(s, a)
    ensures if a.SpuriousWakeup? then Duty(Apply(s, a)) == Duty(s) + 2 else Duty(Apply(s, a)) < Duty(s)
  {
    hide MutexInv, WakeupInv, DispatchInv, Sum, WakeAll;
    match a
    case StopperLocks =>
    case StopperStops =>
    case StopperNotifies => WakeAllDuty(s.workers);
    case StopperJoins => SumZero(WorkerDuty, []);
    case CallerLocks(_) => CallerDutyStep(s, a);
    case CallerPushes(_) => CallerDutyStep(s, a);
    case CallerNotifies(_, _) => CallerDutyStep(s, a);
    case _ => WorkerDutyStep(s, a);
  }

  function SpuriousWakeups(acts: seq<Action>): nat {
    if acts == [] then 0 else (if acts[0].SpuriousWakeup? then 1 else 0) + SpuriousWakeups(acts[1..])
  }

  lemma {:induction false} DutyBoundsRun(s: State, acts: seq<Action>)
    requires Inv(s) && IsRun(s, acts)
    ensures |acts| + Duty(After(s, acts)) <= Duty(s) + 3 * SpuriousWakeups(acts)
    decreases |acts|
  {
    hide Inv, Apply, Enabled, Duty;
    if acts != [] {
      DutyDecreases(s, acts[0]);
      InvStep(s, acts[0]);
      DutyBoundsRun(Apply(s, acts[0]), acts[1..]);
    }
  }

  /** All accepted work gets done, with or without shutdown. A run has no more steps, apart from spurious
      wakeups, than the work owed at its start and two for each spurious wakeup; so a run without
      further wakeups ends, and where it ends, every call has returned and every accepted task has
      been run, once. */
  lemma WorkGetsDone(threads: nat, calls: nat, acts: seq<Action>, more: seq<Action>, j: nat)
    requires threads >= 1 && IsRun(Init(threads, calls), acts)
    requires IsRun(After(Init(threads, calls), acts), more)
    ensures var s := After(Init(threads, calls), acts); var t := After(s, more);
            && |more| - SpuriousWakeups(more) <= Duty(s) + 2 * SpuriousWakeups(more)
            && (Stuck(t) ==>
                  && (forall c | c in t.callers :: c == Accepted || c == Refused)
                  && multiset(t.finished) == multiset(t.accepted)
                  && multiset(t.finished)[j] == if IsCaller(t, j, Accepted) then 1 else 0)
  {
    ReachableInv(threads, calls, acts);
    var s := After(Init(threads, calls), acts);
    DutyBoundsRun(s, more);
    RunInv(s, more);
    var t := After(s, more);
    if Stuck(t) {
      StuckIsDone(t);
      hide Init, IsRun, After, MutexInv, FlowInv, StopInv, WakeupInv, Duty, Stuck;
      CountDistinct(t.accepted, j);
      assert j < |t.callers| ==> t.callers[j] in t.callers;
    }
  }

  // ---------------------------------------------------------------------------------------------
  // All workers work
  // ---------------------------------------------------------------------------------------------

  lemma SizesStep(s: State, a: Action)
    requires Enabled(s, a)
    ensures |Apply(s, a).callers| == |s.callers|
    ensures Apply(s, a).stopper == Joined || |Apply(s, a).workers| == |s.workers|
  {
  }

  lemma JoinedStays(s: State, a: Action)
    requires Inv(s) && Enabled(s, a) && s.stopper == Joined
    ensures Apply(s, a).stopper == Joined
  {
  }

  lemma {:induction false} SizesRun(s: State, acts: seq<Action>, threads: nat)
    requires Inv(s) && IsRun(s, acts) && (s.stopper == Joined || |s.workers| == threads)
    ensures var t := After(s, acts);
            |t.callers| == |s.callers| && (t.stopper == Joined || |t.workers| == threads)
    decreases |acts|
  {
    hide Inv, Apply, Enabled;
    if acts != [] {
      SizesStep(s, acts[0]);
      InvStep(s, acts[0]);
      if s.stopper == Joined {
        JoinedStays(s, acts[0]);
      }
      SizesRun(Apply(s, acts[0]), acts[1..], threads);
    }
  }

  /** In every reachable state the pool has as many workers as it was started with, until shutdown has
      joined them; then it has none. */
  lemma WorkerCount(threads: nat, calls: nat, acts: seq<Action>)
    requires threads >= 1 && IsRun(Init(threads, calls), acts)
    ensures var s := After(Init(threads, calls), acts);
            |s.workers| == (if s.stopper == Joined then 0 else threads) && |s.callers| == calls
  {
    InitInv(threads, calls);
    ReachableInv(threads, calls, acts);
    SizesRun(Init(threads, calls), acts, threads);
  }

  lemma {:induction false} RunAppend(s: State, acts: seq<Action>, more: seq<Action>)
    requires IsRun(s, acts) && IsRun(After(s, acts), more)
    ensures IsRun(s, acts + more) && After(s, acts + more) == After(After(s, acts), more)
    decreases |acts|
  {
    hide Apply, Enabled;
    if acts == [] {
      assert acts + more == more;
    } else {
      assert (acts + more)[1..] == acts[1..] + more;
      RunAppend(Apply(s, acts[0]), acts[1..], more);
    }
  }

  lemma RunPush(s: State, acts: seq<Action>, a: Action)
    requires IsRun(s, acts) && Enabled(After(s, acts), a)
    ensures IsRun(s, acts + [a]) && After(s, acts + [a]) == Apply(After(s, acts), a)
  {
    var t := After(s, acts);
    assert [a][0] == a && [a][1..] == [];
    assert IsRun(Apply(t, a), []) && After(Apply(t, a), []) == Apply(t, a);
    assert IsRun(t, [a]) && After(t, [a]) == After(Apply(t, a), []);
    hide Apply, Enabled, IsRun, After;
    RunAppend(s, acts, [a]);
  }

  function Range(lo: nat, hi: nat): (r: seq<nat>)
    requires lo <= hi
    ensures |r| == hi - lo && forall i | 0 <= i < hi - lo :: r[i] == lo + i
  {
    seq(hi - lo, i requires 0 <= i => lo + i)
  }

  /** The first n calls have been accepted. */
  function Submitted(threads: nat, calls: nat, n: nat): State
    requires n <= calls
  {
    State(seq(threads, i => Awake), Range(0, n), false, Free,
          seq(calls, j requires 0 <= j < calls => if j < n then Accepted else Ready), NotCalled, Range(0, n), [], [])
  }

  /** And the first k workers have each started one of the tasks. */
  function Started(threads: nat, calls: nat, n: nat, k: nat): State
    requires k <= n <= calls
  {
    Submitted(threads, calls, n).(
      workers := seq(threads, i requires 0 <= i < threads => if i < k then Running(i) else Awake),
      tasks := Range(k, n), dispatched := Range(0, k))
  }

  lemma SubmitOne(threads: nat, calls: nat, n: nat)
    requires n < calls
    ensures var s := Submitted(threads, calls, n);
            && Enabled(s, CallerLocks(n)) && Enabled(Apply(s, CallerLocks(n)), CallerPushes(n))
            && var t := Apply(Apply(s, CallerLocks(n)), CallerPushes(n));
            && Enabled(t, CallerNotifies(n, None))
            && Apply(t, CallerNotifies(n, None)) == Submitted(threads, calls, n + 1)
  {
    var s := Submitted(threads, calls, n);
    var t := Apply(Apply(s, CallerLocks(n)), CallerPushes(n));
    var u := Apply(t, CallerNotifies(n, None));
    assert Range(0, n + 1) == Range(0, n) + [n];
    assert u.callers == Submitted(threads, calls, n + 1).callers;
  }

  lemma {:induction false} Submit(threads: nat, calls: nat, n: nat) returns (acts: seq<Action>)
    requires n <= calls
    ensures IsRun(Init(threads, calls), acts)
    ensures After(Init(threads, calls), acts) == Submitted(threads, calls, n)
  {
    if n == 0 {
      acts := [];
      assert Init(threads, calls) == Submitted(threads, calls, 0);
    } else {
      acts := Submit(threads, calls, n - 1);
      SubmitOne(threads, calls, n - 1);
      hide *;
      RunPush(Init(threads, calls), acts, CallerLocks(n - 1));
      acts := acts + [CallerLocks(n - 1)];
      RunPush(Init(threads, calls), acts, CallerPushes(n - 1));
      acts := acts + [CallerPushes(n - 1)];
      RunPush(Init(threads, calls), acts, CallerNotifies(n - 1, None));
      acts := acts + [CallerNotifies(n - 1, None)];
    }
  }

  lemma StartOne(threads: nat, calls: nat, n: nat, k: nat)
    requires k < n <= calls && n <= threads
    ensures var s := Started(threads, calls, n, k);
            && Enabled(s, WorkerLocks(k)) && Enabled(Apply(s, WorkerLocks(k)), WorkerDecides(k))
            && Apply(Apply(s, WorkerLocks(k)), WorkerDecides(k)) == Started(threads, calls, n, k + 1)
  {
    var s := Started(threads, calls, n, k);
    var t := Apply(Apply(s, WorkerLocks(k)), WorkerDecides(k));
    assert Range(0, k + 1) == Range(0, k) + [k];
    assert Range(k, n)[1..] == Range(k + 1, n);
    assert t.workers == Started(threads, calls, n, k + 1).workers;
  }

  lemma {:induction false} Start(threads: nat, calls: nat, n: nat, k: nat) returns (acts: seq<Action>)
    requires k <= n <= calls && n <= threads
    ensures IsRun(Init(threads, calls), acts)
    ensures After(Init(threads, calls), acts) == Started(threads, calls, n, k)
    decreases k
  {
    if k == 0 {
      acts := Submit(threads, calls, n);
      assert Submitted(threads, calls, n) == Started(threads, calls, n, 0);
    } else {
      acts := Start(threads, calls, n, k - 1);
      StartOne(threads, calls, n, k - 1);
      hide *;
      RunPush(Init(threads, calls), acts, WorkerLocks(k - 1));
      acts := acts + [WorkerLocks(k - 1)];
      RunPush(Init(threads, calls), acts, WorkerDecides(k - 1));
      acts := acts + [WorkerDecides(k - 1)];
    }
  }

  /** Nothing serialises the workers: some run has as many of them inside a task at once as there are
      workers and tasks. */
  lemma AllAtOnce(threads: nat, calls: nat) returns (acts: seq<Action>)
    ensures IsRun(Init(threads, calls), acts)
    ensures var s := After(Init(threads, calls), acts); var n := if threads < calls then threads else calls;
            |s.workers| == threads && forall i: nat | i < n :: s.workers[i] == Running(i)
  {
    var n := if threads < calls then threads else calls;
    acts := Start(threads, calls, n, n);
  }
}
