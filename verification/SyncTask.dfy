/** The hand-off between a caller thread and the worker thread of a synchronous task runner.

    Both threads share two mutexes and two condition variables, and take the mutexes in opposite
    orders. The protocol is a step system: a state holds both program points, both lock owners and
    the shared fields, and `Next` executes one atomic step of one thread. A condition variable's wait
    set is the thread standing at its blocked point. Fields written while the worker mutex is held are
    written in one step, since every read of them also happens under that mutex.
 */
module SyncTask {

  datatype Option<+T> = None | Some(value: T)

  /** A task code and the context pointer passed with it (0 is the null pointer). */
  datatype Task = Task(code: int, context: int)

  /** What the caller thread is executing. */
  datatype Call = Construct | Perform(request: Task) | Terminate(request: Task)

  datatype CallerPoint =
    | Lock            // about to take the caller mutex
    | Spawn           // constructor: about to start the worker
    | LockWorker      // about to take the worker mutex
    | Post            // about to write the task fields
    | Notify          // about to notify the worker
    | UnlockWorker    // about to leave the inner scope
    | Wait            // about to wait on the caller condition variable
    | Blocked         // in that wait set
    | Relock          // notified, about to take the caller mutex back
    | Return          // about to release the caller mutex and return
    | Idle            // between calls
    | Join            // destructor: joining the worker
    | Joined

  datatype WorkerPoint =
    | NotStarted
    | Start           // about to take the worker mutex
    | AnnounceLock    // about to take the caller mutex
    | Announce        // about to notify that it is ready
    | AnnounceUnlock
    | Test            // loop condition
    | Check           // wait predicate
    | Asleep          // in the worker condition variable's wait set
    | Awake           // notified or woken spuriously, about to take the worker mutex back
    | Dispatch        // about to look at the exit flag
    | Running         // inside OnTask
    | Clear           // about to clear the pending flag
    | SignalLock      // about to take the caller mutex
    | Signal          // about to notify completion
    | SignalUnlock
    | Leave           // out of the loop, about to release the worker mutex
    | Done

  datatype Owner = Free | ByCaller | ByWorker

  /** `posted`, `ran` and `returned` log the requests written by PerformTask, those OnTask finished
      and those whose PerformTask returned. */
  datatype State = State(
    caller: CallerPoint, call: Call, worker: WorkerPoint,
    callerMutex: Owner, workerMutex: Owner,
    task: Task, exit: bool, pending: bool,
    posted: seq<Task>, ran: seq<Task>, returned: seq<Task>)

  datatype Action =
    | CallerStep
    | WorkerStep
    | StartCall(request: Task)
    | Destroy
    | SpuriousWorker
    | SpuriousCaller

  function Init(junk: Task): State {
    State(Lock, Construct, NotStarted, Free, Free, junk, false, false, [], [], [])
  }

  function NotifyCaller(s: State): State {
    if s.caller == Blocked then s.(caller := Relock) else s
  }

  function NotifyWorker(s: State): State {
    if s.worker == Asleep then s.(worker := Awake) else s
  }

  function StepCaller(s: State): Option<State> {
    match s.caller
    case Lock =>
      if s.callerMutex != Free then None
      else Some(s.(callerMutex := ByCaller, caller := if s.call.Construct? then Spawn else LockWorker))
    case Spawn => Some(s.(worker := Start, caller := Wait))
    case LockWorker =>
      if s.workerMutex != Free then None else Some(s.(workerMutex := ByCaller, caller := Post))
    case Post =>
      if s.call.Construct? then None
      else
        Some(s.(task := s.call.request, exit := s.call.Terminate?, pending := true, caller := Notify,
                posted := if s.call.Perform? then s.posted + [s.call.request] else s.posted))
    case Notify => Some(NotifyWorker(s).(caller := UnlockWorker))
    case UnlockWorker => Some(s.(workerMutex := Free, caller := Wait))
    case Wait => Some(s.(callerMutex := Free, caller := Blocked))
    case Relock =>
      if s.callerMutex != Free then None else Some(s.(callerMutex := ByCaller, caller := Return))
    case Return =>
      Some(s.(callerMutex := Free, caller := if s.call.Terminate? then Join else Idle,
              returned := if s.call.Perform? then s.returned + [s.call.request] else s.returned))
    case Join => if s.worker != Done then None else Some(s.(caller := Joined))
    case _ => None
  }

  function StepWorker(s: State): Option<State> {
    match s.worker
    case Start =>
      if s.workerMutex != Free then None else Some(s.(workerMutex := ByWorker, worker := AnnounceLock))
    case AnnounceLock =>
      if s.callerMutex != Free then None else Some(s.(callerMutex := ByWorker, worker := Announce))
    case Announce => Some(NotifyCaller(s).(worker := AnnounceUnlock))
    case AnnounceUnlock => Some(s.(callerMutex := Free, worker := Test))
    case Test => Some(s.(worker := if s.exit then Leave else Check))
    case Check =>
      Some(if s.pending then s.(worker := Dispatch) else s.(workerMutex := Free, worker := Asleep))
    case Awake =>
      if s.workerMutex != Free then None else Some(s.(workerMutex := ByWorker, worker := Check))
    case Dispatch => Some(s.(worker := if s.exit then Clear else Running))
    case Running => Some(s.(ran := s.ran + [s.task], worker := Clear))
    case Clear => Some(s.(pending := false, worker := SignalLock))
    case SignalLock =>
      if s.callerMutex != Free then None else Some(s.(callerMutex := ByWorker, worker := Signal))
    case Signal => Some(NotifyCaller(s).(worker := SignalUnlock))
    case SignalUnlock => Some(s.(callerMutex := Free, worker := Test))
    case Leave => Some(s.(workerMutex := Free, worker := Done))
    case _ => None
  }

  /** One atomic step; None when the step is not enabled. */
  function Next(s: State, a: Action): Option<State> {
    match a
    case CallerStep => StepCaller(s)
    case WorkerStep => StepWorker(s)
    case StartCall(t) => if s.caller == Idle then Some(s.(caller := Lock, call := Perform(t))) else None
    case Destroy =>
      // The destructor passes the last task code and a null context.
      if s.caller == Idle
      then Some(s.(caller := Lock, call := Terminate(Task(s.task.code, 0)))) else None
    case SpuriousWorker => if s.worker == Asleep then Some(s.(worker := Awake)) else None
    case SpuriousCaller => if s.caller == Blocked then Some(s.(caller := Relock)) else None
  }

  function Exec(s: State, actions: seq<Action>): Option<State>
    decreases |actions|
  {
    if actions == [] then Some(s)
    else match Next(s, actions[0])
      case None => None
      case Some(s') => Exec(s', actions[1..])
  }

  /** The requests the client made, read off the action list alone. */
  function Requests(actions: seq<Action>): seq<Task> {
    if actions == [] then []
    else RequestOf(actions[0]) + Requests(actions[1..])
  }

  function RequestOf(a: Action): seq<Task> {
    if a.StartCall? then [a.request] else []
  }

  // ---------------------------------------------------------------------------------------------
  // The invariant
  // ---------------------------------------------------------------------------------------------

  predicate CallerHoldsCallerMutex(c: CallerPoint) {
    c.Spawn? || c.LockWorker? || c.Post? || c.Notify? || c.UnlockWorker? || c.Wait? || c.Return?
  }

  predicate CallerHoldsWorkerMutex(c: CallerPoint) {
    c.Post? || c.Notify? || c.UnlockWorker?
  }

  predicate WorkerHoldsCallerMutex(w: WorkerPoint) {
    w.Announce? || w.AnnounceUnlock? || w.Signal? || w.SignalUnlock?
  }

  predicate WorkerHoldsWorkerMutex(w: WorkerPoint) {
    !(w.NotStarted? || w.Start? || w.Asleep? || w.Awake? || w.Done?)
  }

  ghost predicate Locks(s: State) {
    && (s.callerMutex == ByCaller <==> CallerHoldsCallerMutex(s.caller))
    && (s.callerMutex == ByWorker <==> WorkerHoldsCallerMutex(s.worker))
    && (s.workerMutex == ByCaller <==> CallerHoldsWorkerMutex(s.caller))
    && (s.workerMutex == ByWorker <==> WorkerHoldsWorkerMutex(s.worker))
  }

  /** The worker is between two tasks. */
  predicate Resting(w: WorkerPoint) {
    w.Test? || w.Check? || w.Asleep? || w.Awake?
  }

  predicate Leaving(w: WorkerPoint) {
    w.Test? || w.Leave? || w.Done?
  }

  /** The worker has seen, or will see, the posted task and has not cleared it yet. */
  predicate Handling(w: WorkerPoint) {
    w.Awake? || w.Check? || w.Dispatch? || w.Running? || w.Clear?
  }

  ghost predicate Positions(s: State) {
    var w := s.worker;
    match s.call
    case Construct =>
      !s.pending && !s.exit
      && (match s.caller
          case Lock => w == NotStarted
          case Spawn => w == NotStarted
          case Wait => (w.Start? || w.AnnounceLock?)
          case Blocked => (w.Start? || w.AnnounceLock? || w.Announce?)
          case Relock => w == AnnounceUnlock || Resting(w)
          case Return => Resting(w)
          case Idle => Resting(w)
          case _ => false)
    case _ =>
      match s.caller
      case Lock => !s.pending && !s.exit && Resting(w)
      case LockWorker => !s.pending && !s.exit && Resting(w)
      case Post => !s.pending && !s.exit && (w.Asleep? || w.Awake?)
      case Notify => s.pending && (w.Asleep? || w.Awake?)
      case UnlockWorker => s.pending && w == Awake
      case Wait => if s.pending then Handling(w) else w == SignalLock
      case Blocked => if s.pending then Handling(w) else (w.SignalLock? || w.Signal?)
      case Relock => !s.pending && (w == SignalUnlock || if s.exit then Leaving(w) else Resting(w))
      case Return => !s.pending && if s.exit then Leaving(w) else Resting(w)
      case Idle => !s.pending && !s.exit && s.call.Perform? && Resting(w)
      case Join => s.call.Terminate? && s.exit && !s.pending && Leaving(w)
      case Joined => s.call.Terminate? && s.exit && !s.pending && w == Done
      case Spawn => false
  }

  /** The call's fields have been written and the call has not returned. */
  predicate InFlight(c: CallerPoint) {
    c.Notify? || c.UnlockWorker? || c.Wait? || c.Blocked? || c.Relock? || c.Return?
  }

  ghost predicate History(s: State) {
    if s.call.Perform? && InFlight(s.caller) then
      && !s.exit && s.task == s.call.request
      && s.posted == s.returned + [s.call.request]
      && s.ran == (if s.pending && s.worker != Clear then s.returned else s.posted)
    else
      && (s.call.Terminate? && InFlight(s.caller) ==> s.exit && s.worker != Running)
      && s.posted == s.returned && s.ran == s.returned
  }

  ghost predicate Inv(s: State) {
    Locks(s) && Positions(s) && History(s)
  }

  lemma InitInv(junk: Task)
    ensures Inv(Init(junk))
  {
  }

  /** Every step keeps the invariant, as long as the caller's wait does not end spuriously. */
  lemma StepKeepsInv(s: State, a: Action, s': State)
    requires Inv(s) && a != SpuriousCaller && Next(s, a) == Some(s')
    ensures Inv(s')
  {
    match a
    case CallerStep => CallerKeepsInv(s, s');
    case WorkerStep => WorkerKeepsInv(s, s');
    case _ =>
  }

  lemma CallerKeepsInv(s: State, s': State)
    requires Inv(s) && StepCaller(s) == Some(s')
    ensures Inv(s')
  {
    CallerKeepsPositions(s, s');
    CallerKeepsHistory(s, s');
  }

  lemma CallerKeepsPositions(s: State, s': State)
    requires Locks(s) && Positions(s) && StepCaller(s) == Some(s')
    requires s.call.Perform? && InFlight(s.caller) ==> !s.exit
    requires s.call.Terminate? && InFlight(s.caller) ==> s.exit
    ensures Locks(s') && Positions(s')
  {
  }

  lemma CallerKeepsHistory(s: State, s': State)
    requires Locks(s) && Positions(s) && History(s) && StepCaller(s) == Some(s')
    ensures History(s')
  {
  }

  lemma WorkerKeepsInv(s: State, s': State)
    requires Inv(s) && StepWorker(s) == Some(s')
    ensures Inv(s')
  {
    WorkerKeepsLocks(s, s');
    WorkerKeepsPositions(s, s');
    WorkerKeepsHistory(s, s');
  }

  lemma WorkerKeepsLocks(s: State, s': State)
    requires Locks(s) && StepWorker(s) == Some(s')
    ensures Locks(s')
  {
  }

  lemma WorkerKeepsPositions(s: State, s': State)
    requires Locks(s) && Positions(s) && StepWorker(s) == Some(s')
    requires s.call.Perform? && InFlight(s.caller) ==> !s.exit
    requires s.call.Terminate? && InFlight(s.caller) ==> s.exit
    ensures Positions(s')
  {
  }

  lemma WorkerKeepsHistory(s: State, s': State)
    requires Locks(s) && Positions(s) && History(s) && StepWorker(s) == Some(s')
    ensures History(s')
  {
  }

  /** No run without a spurious caller wake-up leaves the invariant. */
  lemma {:induction false} RunKeepsInv(s: State, actions: seq<Action>, s': State)
    requires Inv(s) && SpuriousCaller !in actions && Exec(s, actions) == Some(s')
    ensures Inv(s')
    decreases |actions|
  {
    if actions != [] {
      var m := Next(s, actions[0]).value;
      assert Inv(m) by { StepKeepsInv(s, actions[0], m); }
      RunKeepsInv(m, actions[1..], s');
    }
  }

  /** The requests accepted along a run are exactly those the client made. */
  lemma {:induction false} RunAccepts(s: State, actions: seq<Action>, s': State)
    requires Inv(s) && SpuriousCaller !in actions && Exec(s, actions) == Some(s')
    ensures Accepted(s') == Accepted(s) + Requests(actions)
    decreases |actions|
  {
    if actions != [] {
      var m := Next(s, actions[0]).value;
      assert Inv(m) by { StepKeepsInv(s, actions[0], m); }
      assert Accepted(m) == Accepted(s) + Requests([actions[0]]) by { StepAccepts(s, actions[0], m); }
      RunAccepts(m, actions[1..], s');
      assert [actions[0]] + actions[1..] == actions;
      RequestsAppend([actions[0]], actions[1..]);
    }
  }

  /** Requests whose PerformTask has begun. */
  ghost function Accepted(s: State): seq<Task> {
    if s.call.Perform? && !s.caller.Idle? then s.returned + [s.call.request] else s.returned
  }

  lemma StepAccepts(s: State, a: Action, s': State)
    requires Inv(s) && a != SpuriousCaller && Next(s, a) == Some(s')
    ensures Accepted(s') == Accepted(s) + Requests([a])
  {
    assert Requests([a]) == if a.StartCall? then [a.request] else [];
    match a
    case CallerStep => CallerAccepts(s, s');
    case WorkerStep =>
      assert s'.returned == s.returned && s'.call == s.call && s'.caller.Idle? == s.caller.Idle?;
    case _ =>
  }

  lemma CallerAccepts(s: State, s': State)
    requires Positions(s) && StepCaller(s) == Some(s')
    ensures Accepted(s') == Accepted(s)
  {
  }

  // ---------------------------------------------------------------------------------------------
  // Main results
  // ---------------------------------------------------------------------------------------------

  /** The hand-off is synchronous: on every run, each request is run by OnTask at most once, in
      posting order and with its own code and context; between calls, and after the join, exactly the
      client's requests have run and each PerformTask has returned only after its own had run. */
  lemma HandOff(junk: Task, actions: seq<Action>, s: State)
    requires SpuriousCaller !in actions && Exec(Init(junk), actions) == Some(s)
    ensures s.returned <= s.ran <= Requests(actions)
    ensures |Requests(actions)| <= |s.returned| + 1
    ensures s.caller.Idle? || s.caller.Join? || s.caller.Joined?
            ==> s.returned == s.ran == Requests(actions)
    ensures s.caller.Return? && s.call.Perform? ==> s.ran == s.returned + [s.call.request]
    ensures s.worker.Running? ==> s.ran + [s.task] == Requests(actions)
  {
    InitInv(junk);
    RunKeepsInv(Init(junk), actions, s);
    RunAccepts(Init(junk), actions, s);
    assert Accepted(Init(junk)) + Requests(actions) == Requests(actions);
  }

  /** The opposite lock orders never meet: on every run, whenever one thread holds a mutex and waits
      for the other one, the other mutex is not held by a thread waiting for the first. */
  lemma NoCircularWait(junk: Task, actions: seq<Action>, s: State)
    requires SpuriousCaller !in actions && Exec(Init(junk), actions) == Some(s)
    ensures !(s.caller.LockWorker? && (s.worker.AnnounceLock? || s.worker.SignalLock?))
    ensures s.callerMutex == ByWorker ==> !CallerHoldsCallerMutex(s.caller)
    ensures s.workerMutex == ByCaller ==> !WorkerHoldsWorkerMutex(s.worker)
  {
    InitInv(junk);
    RunKeepsInv(Init(junk), actions, s);
  }

  function CallerRank(s: State): nat {
    var base := match s.call case Construct => 30 case Perform(_) => 15 case Terminate(_) => 2;
    match s.caller
    case Joined => 0
    case Join => 1
    case Idle => 14
    case Return => base
    case Relock => base + 1
    case Blocked => base + 2
    case Wait => base + 3
    case UnlockWorker => base + 4
    case Notify => base + 5
    case Post => base + 6
    case LockWorker => base + 7
    case Spawn => base + 8
    case Lock => base + 9
  }

  function WorkerRank(s: State): nat {
    match s.worker
    case Done => 0
    case NotStarted => 0
    case Leave => 1
    case Asleep => 1
    case Check => if s.pending then 30 else 2
    case Awake => if s.pending then 31 else 3
    case Test => if s.pending then 32 else 4
    case SignalUnlock => 5
    case Signal => 6
    case SignalLock => 7
    case Clear => 8
    case Running => 9
    case Dispatch => 10
    case AnnounceUnlock => 33
    case Announce => 34
    case AnnounceLock => 35
    case Start => 36
  }

  /** Work left until the worker is joined, if the client makes no further call. */
  function Rank(s: State): nat {
    CallerRank(s) * 40 + WorkerRank(s)
  }

  /** Steps that are neither a new request nor a spurious wake-up. */
  predicate Productive(a: Action) {
    a.CallerStep? || a.WorkerStep? || a.Destroy?
  }

  /** No lost wake-up and no deadlock: short of the join, a productive step is always enabled. */
  lemma Progress(s: State) returns (a: Action)
    requires Inv(s) && !s.caller.Joined?
    ensures Productive(a) && Next(s, a).Some?
  {
    if StepCaller(s).Some? {
      a := CallerStep;
    } else if StepWorker(s).Some? {
      a := WorkerStep;
    } else {
      a := Destroy;
    }
  }

  /** Every productive step, in any order, brings the join nearer. */
  lemma ProductiveStepsDescend(s: State, a: Action, s': State)
    requires Inv(s) && Productive(a) && Next(s, a) == Some(s')
    ensures Rank(s') < Rank(s)
  {
    match a
    case CallerStep => CallerDescends(s, s');
    case WorkerStep => WorkerDescends(s, s');
    case Destroy =>
  }

  lemma CallerDescends(s: State, s': State)
    requires Positions(s) && StepCaller(s) == Some(s')
    ensures CallerRank(s') < CallerRank(s) && WorkerRank(s') < WorkerRank(s) + 40
  {
  }

  lemma WorkerDescends(s: State, s': State)
    requires Positions(s) && StepWorker(s) == Some(s')
    ensures CallerRank(s') <= CallerRank(s) && WorkerRank(s') < WorkerRank(s)
  {
  }

  /** Whatever the scheduler does, a run without new requests or spurious wake-ups is bounded. */
  lemma {:induction false} BoundedWork(s: State, actions: seq<Action>, s': State)
    requires Inv(s) && Exec(s, actions) == Some(s')
    requires forall a :: a in actions ==> Productive(a)
    ensures |actions| + Rank(s') <= Rank(s)
    decreases |actions|
  {
    if actions == [] {
    } else {
      var m := Next(s, actions[0]).value;
      assert actions[0] in actions;
      StepKeepsInv(s, actions[0], m);
      ProductiveStepsDescend(s, actions[0], m);
      BoundedWork(m, actions[1..], s');
    }
  }

  /** From every reachable state the worker can be joined. */
  lemma {:induction false} CanJoin(s: State) returns (actions: seq<Action>, s': State)
    requires Inv(s)
    ensures forall a :: a in actions ==> Productive(a)
    ensures Exec(s, actions) == Some(s') && s'.caller.Joined? && s'.worker.Done?
    decreases Rank(s)
  {
    if s.caller.Joined? {
      return [], s;
    }
    var a := Progress(s);
    var m := Next(s, a).value;
    StepKeepsInv(s, a, m);
    ProductiveStepsDescend(s, a, m);
    var rest;
    rest, s' := CanJoin(m);
    actions := [a] + rest;
    assert actions[1..] == rest;
  }

  /** Every run can be extended to one that joins the worker, having run exactly the client's
      requests. */
  lemma EveryRunCanComplete(junk: Task, actions: seq<Action>, s: State)
    returns (more: seq<Action>, s': State)
    requires SpuriousCaller !in actions && Exec(Init(junk), actions) == Some(s)
    ensures Exec(Init(junk), actions + more) == Some(s')
    ensures s'.caller.Joined? && s'.worker.Done? && |more| <= Rank(s)
    ensures s'.ran == s'.returned == Requests(actions)
  {
    InitInv(junk);
    RunKeepsInv(Init(junk), actions, s);
    more, s' := CanJoin(s);
    BoundedWork(s, more, s');
    ExecAppend(Init(junk), actions, more);
    RequestsAppend(actions, more);
    NoRequests(more);
    HandOff(junk, actions + more, s');
  }

  lemma {:induction false} ExecAppend(s: State, xs: seq<Action>, ys: seq<Action>)
    requires Exec(s, xs).Some?
    ensures Exec(s, xs + ys) == Exec(Exec(s, xs).value, ys)
    decreases |xs|
  {
    if xs == [] {
      assert xs + ys == ys;
    } else {
      assert (xs + ys)[1..] == xs[1..] + ys;
      ExecAppend(Next(s, xs[0]).value, xs[1..], ys);
    }
  }

  lemma {:induction false} RequestsAppend(xs: seq<Action>, ys: seq<Action>)
    ensures Requests(xs + ys) == Requests(xs) + Requests(ys)
  {
    if xs == [] {
      assert xs + ys == ys;
    } else {
      var head, tail := RequestOf(xs[0]), xs[1..];
      assert (xs + ys)[1..] == tail + ys;
      RequestsAppend(tail, ys);
      Associative(head, Requests(tail), Requests(ys));
    }
  }

  lemma Associative(a: seq<Task>, b: seq<Task>, c: seq<Task>)
    ensures a + (b + c) == a + b + c
  {
  }

  lemma {:induction false} NoRequests(xs: seq<Action>)
    requires forall a :: a in xs ==> Productive(a)
    ensures Requests(xs) == []
  {
    if xs != [] {
      assert xs[0] in xs;
      NoRequests(xs[1..]);
    }
  }

  /** The assumption is needed: the caller's waits have no predicate, so one spurious wake-up in the
      constructor leads to a state in which both threads hold a mutex the other one wants and nothing
      can ever move. */
  lemma SpuriousCallerDeadlocks(junk: Task, t: Task) returns (actions: seq<Action>, s: State)
    ensures actions == SpuriousStart + [WorkerStep, StartCall(t), CallerStep]
    ensures Exec(Init(junk), actions) == Some(s)
    ensures s.caller.LockWorker? && s.worker.AnnounceLock?
    ensures forall a: Action :: Next(s, a).None?
  {
    var idle := EarlyIdle(junk);
    s := idle.(caller := LockWorker, call := Perform(t), worker := AnnounceLock,
               callerMutex := ByCaller, workerMutex := ByWorker);
    actions := SpuriousStart + [WorkerStep, StartCall(t), CallerStep];
    Exec3(idle, WorkerStep, StartCall(t), CallerStep);
    ExecAppend(Init(junk), SpuriousStart, [WorkerStep, StartCall(t), CallerStep]);
    Stuck(s);
  }

  /** The constructor runs to its wait, is woken spuriously and returns. */
  const SpuriousStart: seq<Action> :=
    [CallerStep, CallerStep, CallerStep] + [SpuriousCaller, CallerStep, CallerStep]

  lemma EarlyIdle(junk: Task) returns (s: State)
    ensures Exec(Init(junk), SpuriousStart) == Some(s)
    ensures s == Init(junk).(caller := Idle, worker := Start)
  {
    var waiting := Init(junk).(caller := Blocked, worker := Start);
    s := waiting.(caller := Idle);
    Exec3(Init(junk), CallerStep, CallerStep, CallerStep);
    Exec3(waiting, SpuriousCaller, CallerStep, CallerStep);
    ExecAppend(Init(junk), [CallerStep, CallerStep, CallerStep], [SpuriousCaller, CallerStep, CallerStep]);
  }

  /** Each thread holds one mutex and wants the other. */
  lemma Stuck(s: State)
    requires s.caller.LockWorker? && s.worker.AnnounceLock?
    requires s.callerMutex == ByCaller && s.workerMutex == ByWorker
    ensures forall a: Action :: Next(s, a).None?
  {
  }

  lemma Exec3(s: State, a: Action, b: Action, c: Action)
    requires Next(s, a).Some? && Next(Next(s, a).value, b).Some?
    ensures Exec(s, [a, b, c]) == Next(Next(Next(s, a).value, b).value, c)
  {
    var s1 := Next(s, a).value;
    var s2 := Next(s1, b).value;
    assert [a, b, c][1..] == [b, c] && [b, c][1..] == [c] && [c][1..] == [];
    assert Exec(s2, [c]) == Next(s2, c);
    assert Exec(s1, [b, c]) == Exec(s2, [c]);
  }

  // ---------------------------------------------------------------------------------------------
  // Exactly when one spurious wake-up of the caller can lead to a deadlock
  // ---------------------------------------------------------------------------------------------

  /** Not joined, and no step is enabled. */
  ghost predicate Dead(s: State) {
    !s.caller.Joined? && forall a: Action :: Next(s, a).None?
  }

  /** Some run without a further spurious wake-up of the caller ends in a deadlock. */
  ghost predicate CanDeadlock(s: State) {
    exists actions: seq<Action> ::
      SpuriousCaller !in actions && Exec(s, actions).Some? && Dead(Exec(s, actions).value)
  }

  /** From a wait that ends spuriously, a deadlock can be reached if and only if it is not the
      destructor's wait and the worker is not about to notify anyway. */
  lemma SpuriousWakeDeadlocksIff(s: State)
    requires Inv(s) && s.caller.Blocked?
    ensures CanDeadlock(s.(caller := Relock))
            <==> !s.call.Terminate? && !s.worker.Announce? && !s.worker.Signal?
  {
    var woken := s.(caller := Relock);
    if s.call.Terminate? {
      forall actions: seq<Action> | SpuriousCaller !in actions && Exec(woken, actions).Some?
        ensures !Dead(Exec(woken, actions).value)
      {
        ExitingNeverDies(woken, actions);
      }
    } else if s.worker.Announce? || s.worker.Signal? {
      forall actions: seq<Action> | SpuriousCaller !in actions && Exec(woken, actions).Some?
        ensures !Dead(Exec(woken, actions).value)
      {
        NotifiedAnyway(s, actions);
      }
    } else {
      var actions := ReturnsTooEarly(s);
    }
  }

  /** The worker is about to notify: the wake-up only comes early, and the next step is the worker's. */
  lemma NotifiedAnyway(s: State, actions: seq<Action>)
    requires Inv(s) && s.caller.Blocked? && (s.worker.Announce? || s.worker.Signal?)
    requires SpuriousCaller !in actions && Exec(s.(caller := Relock), actions).Some?
    ensures !Dead(Exec(s.(caller := Relock), actions).value)
  {
    var woken := s.(caller := Relock);
    var m := StepWorker(s).value;
    assert Next(woken, WorkerStep) == Some(m);
    if actions != [] {
      assert actions[0] in actions;
      assert actions[0] == WorkerStep;
      assert Inv(m) by {
        StepKeepsInv(s, WorkerStep, m);
      }
      var d := Exec(woken, actions).value;
      RunKeepsInv(m, actions[1..], d);
      if !d.caller.Joined? {
        var a := Progress(d);
      }
    }
  }

  /** The destructor's wait has ended early: the worker still finds its way out. */
  ghost predicate Exiting(s: State) {
    && Locks(s) && s.call.Terminate? && s.exit
    && (s.caller.Relock? || s.caller.Return? || s.caller.Join? || s.caller.Joined?)
    && (s.worker.Awake? || s.worker.Check? || s.worker.Dispatch? ==> s.pending)
    && (s.worker.Awake? || s.worker.Check? || s.worker.Dispatch? || s.worker.Clear? || s.worker.SignalLock?
        || s.worker.Signal? || s.worker.SignalUnlock? || s.worker.Test? || s.worker.Leave? || s.worker.Done?)
  }

  lemma ExitingStep(s: State, a: Action, s': State)
    requires Exiting(s) && a != SpuriousCaller && Next(s, a) == Some(s')
    ensures Exiting(s')
  {
    if a.WorkerStep? {
      WorkerKeepsLocks(s, s');
    }
  }

  lemma ExitingMoves(s: State)
    requires Exiting(s)
    ensures !Dead(s)
  {
    if !s.caller.Joined? {
      assert Next(s, CallerStep).Some? || Next(s, WorkerStep).Some?;
    }
  }

  lemma {:induction false} ExitingNeverDies(s: State, actions: seq<Action>)
    requires Exiting(s) && SpuriousCaller !in actions && Exec(s, actions).Some?
    ensures !Dead(Exec(s, actions).value)
    decreases |actions|
  {
    if actions == [] {
      ExitingMoves(s);
    } else {
      var m := Next(s, actions[0]).value;
      assert actions[0] in actions;
      ExitingStep(s, actions[0], m);
      ExitingNeverDies(m, actions[1..]);
    }
  }

  /** The caller has returned while the worker is still on its way to notify it. */
  ghost predicate Early(s: State) {
    && s.caller.Idle? && s.callerMutex == Free && !s.exit
    && (if s.worker.Start? || s.worker.Awake? then s.workerMutex == Free else s.workerMutex == ByWorker)
    && (s.worker.Awake? || s.worker.Check? ==> s.pending)
    && (s.worker.Start? || s.worker.AnnounceLock? || s.worker.Awake? || s.worker.Check? || s.worker.Dispatch?
        || s.worker.Running? || s.worker.Clear? || s.worker.SignalLock?)
  }

  function StepsToLock(w: WorkerPoint): nat {
    match w
    case Start => 1
    case Awake => 5
    case Check => 4
    case Dispatch => 3
    case Running => 2
    case Clear => 1
    case _ => 0
  }

  /** The worker comes to ask for the caller mutex, holding its own. */
  lemma {:induction false} WorkerComesToLock(s: State) returns (actions: seq<Action>, s': State)
    requires Early(s)
    ensures SpuriousCaller !in actions && Exec(s, actions) == Some(s')
    ensures Early(s') && (s'.worker.AnnounceLock? || s'.worker.SignalLock?)
    decreases StepsToLock(s.worker)
  {
    if s.worker.AnnounceLock? || s.worker.SignalLock? {
      return [], s;
    }
    var m := StepWorker(s).value;
    var rest;
    rest, s' := WorkerComesToLock(m);
    actions := [WorkerStep] + rest;
    assert actions[1..] == rest;
  }

  /** The caller returns, the worker asks for the caller mutex, and the caller posts again. */
  lemma ReturnsTooEarly(s: State) returns (actions: seq<Action>)
    requires Inv(s) && s.caller.Blocked? && !s.call.Terminate? && !s.worker.Announce? && !s.worker.Signal?
    ensures SpuriousCaller !in actions
    ensures Exec(s.(caller := Relock), actions).Some? && Dead(Exec(s.(caller := Relock), actions).value)
  {
    var woken := s.(caller := Relock);
    var idle := StepCaller(StepCaller(woken).value).value;
    Exec2(woken, CallerStep, CallerStep);
    assert Early(idle);
    var more, m := WorkerComesToLock(idle);
    var again := StartCall(Task(0, 0));
    var posting := Next(m, again).value;
    var stuck := StepCaller(posting).value;
    Exec2(m, again, CallerStep);
    ExecAppend(idle, more, [again, CallerStep]);
    ExecAppend(woken, [CallerStep, CallerStep], more + [again, CallerStep]);
    actions := [CallerStep, CallerStep] + (more + [again, CallerStep]);
    Interlocked(stuck);
  }

  lemma Interlocked(s: State)
    requires s.caller.LockWorker? && (s.worker.AnnounceLock? || s.worker.SignalLock?)
    requires s.callerMutex == ByCaller && s.workerMutex == ByWorker
    ensures Dead(s)
  {
  }

  lemma Exec2(s: State, a: Action, b: Action)
    requires Next(s, a).Some? && Next(Next(s, a).value, b).Some?
    ensures Exec(s, [a, b]) == Next(Next(s, a).value, b)
  {
    var s1 := Next(s, a).value;
    var s2 := Next(s1, b).value;
    assert [a, b][1..] == [b] && [b][1..] == [];
    assert Exec(s2, []) == Some(s2);
    assert Exec(s1, [b]) == Some(s2);
  }
}
