/** The worker and the maintenance observer of `src/main.c`: one mutex guards the pointer through
    which the observer may cancel the worker's server. */
module Maintenance {

  datatype Thread = Worker | Observer

  /** The context's mutex. */
  datatype Mutex = Free | HeldBy(thread: Thread)

  /** The server the worker creates, and its end. */
  datatype Server = Absent | Live | Freed

  /** Where the worker stands between context creation and context destruction. */
  datatype WorkerPc =
    | InitContext | StartMonitor | NewServer
    | BindLock | BindSet | BindUnlock
    | HandleTool
    | UnbindLock | UnbindSet | UnbindUnlock
    | AskLock | AskRead | AskUnlock
    | FreeServer | StopMonitor | DestroyContext | Finished | ProcessExit

  /** Where the observer stands: asleep, in `main_local_command_cancel`, or joined. */
  datatype ObserverPc = NotStarted | Idle | CancelLock | CancelServer | CancelStore | CancelUnlock | Joined

  datatype State = State(
    worker: WorkerPc,
    observer: ObserverPc,
    contextAlive: bool,
    mutex: Mutex,
    bound: bool,              // context.server is the server, not null
    flag: bool,               // context.maintenance_cancelled
    server: Server,
    cancelled: bool,          // the observer's local result of the cancel call
    verdict: bool,            // the worker's local copy of the flag
    succeeded: bool)          // history: some cancel call took effect

  /** A step of one thread; `choice` is what an external call decides: whether the server could be
      created, whether the cancel took effect, whether the join worked. */
  function Step(s: State, t: Thread, choice: bool): State {
    match t
    case Worker => WorkerStep(s, choice)
    case Observer => ObserverStep(s, choice)
  }

  function WorkerStep(s: State, choice: bool): State {
    match s.worker
    case InitContext => s.(worker := StartMonitor, contextAlive := true, bound := false, flag := false)
    case StartMonitor => if choice then s.(worker := NewServer, observer := Idle) else s.(worker := DestroyContext)
    case NewServer => if choice then s.(worker := BindLock, server := Live) else s.(worker := StopMonitor)
    case BindLock => if s.mutex == Free then s.(worker := BindSet, mutex := HeldBy(Worker)) else s
    case BindSet => s.(worker := BindUnlock, bound := true)
    case BindUnlock => s.(worker := HandleTool, mutex := Free)
    case HandleTool => s.(worker := UnbindLock)
    case UnbindLock => if s.mutex == Free then s.(worker := UnbindSet, mutex := HeldBy(Worker)) else s
    case UnbindSet => s.(worker := UnbindUnlock, bound := false)
    case UnbindUnlock => s.(worker := AskLock, mutex := Free)
    case AskLock => if s.mutex == Free then s.(worker := AskRead, mutex := HeldBy(Worker)) else s
    case AskRead => s.(worker := AskUnlock, verdict := s.flag)
    case AskUnlock => s.(worker := FreeServer, mutex := Free)
    case FreeServer =>
      // a worker that has a result to hand over leaves the process without freeing anything
      if choice then s.(worker := StopMonitor, server := Freed) else s.(worker := ProcessExit)
    case StopMonitor =>
      // the join waits for the observer to come to rest; if it fails the process exits
      if !choice then s.(worker := ProcessExit)
      else if s.observer == Idle then s.(worker := DestroyContext, observer := Joined)
      else s
    case DestroyContext => s.(worker := Finished, contextAlive := false)
    case Finished => s
    case ProcessExit => s
  }

  function ObserverStep(s: State, choice: bool): State {
    if s.worker == ProcessExit then s
    else
      match s.observer
      case NotStarted => s
      case Idle =>
        // a maintenance request; the observer may also end the whole process
        if choice then s.(observer := CancelLock) else s.(worker := ProcessExit)
      case CancelLock => if s.mutex == Free then s.(observer := CancelServer, mutex := HeldBy(Observer)) else s
      case CancelServer =>
        // `context->server && cbm_mcp_server_cancel_active(context->server)`
        var took := s.bound && choice;
        s.(observer := CancelStore, cancelled := took, succeeded := s.succeeded || took)
      case CancelStore => s.(observer := CancelUnlock, flag := s.flag || s.cancelled)
      case CancelUnlock => s.(observer := Idle, mutex := Free)
      case Joined => s
  }

  ghost predicate Init(s: State) {
    && s.worker == InitContext && s.observer == NotStarted && !s.contextAlive && s.mutex == Free
    && !s.bound && !s.flag && s.server == Absent && !s.cancelled && !s.verdict && !s.succeeded
  }

  /** Which thread takes a step, and what its call comes back with. */
  datatype Turn = Turn(thread: Thread, choice: bool)

  ghost predicate Next(s: State, t: Turn, s': State) {
    s' == Step(s, t.thread, t.choice)
  }

  /** Any interleaving of the two threads. */
  ghost predicate Run(run: seq<State>, turns: seq<Turn>) {
    && |run| == |turns| + 1 && Init(run[0])
    && forall k :: 0 <= k < |turns| ==> Next(run[k], turns[k], run[k + 1])
  }

  // ---- the invariant ----

  predicate WorkerHolds(pc: WorkerPc) {
    match pc
    case BindSet | BindUnlock | UnbindSet | UnbindUnlock | AskRead | AskUnlock => true
    case _ => false
  }

  predicate ObserverHolds(pc: ObserverPc) {
    match pc
    case CancelServer | CancelStore | CancelUnlock => true
    case _ => false
  }

  /** The stretch in which the context points at the server. */
  predicate BoundAt(pc: WorkerPc) {
    match pc
    case BindUnlock | HandleTool | UnbindLock | UnbindSet => true
    case _ => false
  }

  predicate ServerLiveAt(pc: WorkerPc) {
    match pc
    case BindLock | BindSet | UnbindUnlock | AskLock | AskRead | AskUnlock | FreeServer => true
    case _ => BoundAt(pc)
  }

  /** The observer thread exists and has not been joined. */
  predicate Running(pc: ObserverPc) {
    pc != NotStarted && pc != Joined
  }

  /** The mutex is held by whoever stands inside a critical section. */
  ghost predicate Exclusive(s: State) {
    && (s.worker != ProcessExit ==> (s.mutex == HeldBy(Worker) <==> WorkerHolds(s.worker)))
    && (s.mutex == HeldBy(Observer) <==> ObserverHolds(s.observer))
  }

  /** The context points at the server only while the server lives. */
  ghost predicate BoundIsLive(s: State) {
    && (s.worker != ProcessExit ==> (s.bound <==> BoundAt(s.worker)))
    && (ServerLiveAt(s.worker) ==> s.server == Live)
    && (s.bound ==> s.server == Live)
    && (s.server == Freed ==> AfterServer(s.worker))
  }

  predicate AfterServer(pc: WorkerPc) {
    match pc
    case StopMonitor | DestroyContext | Finished | ProcessExit => true
    case _ => false
  }

  /** The context outlives the observer. */
  ghost predicate ContextLasts(s: State) {
    && (Running(s.observer) ==> s.contextAlive)
    && (s.worker == InitContext || s.worker == StartMonitor ==> s.observer == NotStarted)
    && (s.worker == DestroyContext || s.worker == Finished ==> !Running(s.observer))
    && (s.worker == Finished ==> !s.contextAlive)
    && (s.worker != InitContext && s.worker != Finished ==> s.contextAlive)
  }

  /** The flag records the cancels that took effect, up to the store in progress; what the worker
      reads after unbinding is final. */
  ghost predicate FlagIsHistory(s: State) {
    && s.succeeded == (s.flag || (s.observer == CancelStore && s.cancelled))
    && (s.observer == CancelStore && s.cancelled ==> s.bound)
    && (s.worker == InitContext || s.worker == StartMonitor ==> !s.succeeded)
    && (s.worker == AskUnlock || s.worker == FreeServer ==> s.verdict == s.flag)
  }

  ghost predicate Inv(s: State) {
    Exclusive(s) && BoundIsLive(s) && ContextLasts(s) && FlagIsHistory(s)
  }

  lemma WorkerExclusive(s: State, choice: bool)
    requires Inv(s)
    ensures Exclusive(WorkerStep(s, choice))
  {
    match s.worker
    case BindLock | UnbindLock | AskLock =>
    case BindUnlock | UnbindUnlock | AskUnlock =>
    case StartMonitor | StopMonitor =>
    case _ =>
  }

  lemma WorkerBoundIsLive(s: State, choice: bool)
    requires Inv(s)
    ensures BoundIsLive(WorkerStep(s, choice))
  {
    match s.worker
    case BindLock | BindSet | BindUnlock =>
    case UnbindLock | UnbindSet | UnbindUnlock =>
    case AskLock | AskRead | AskUnlock =>
    case _ =>
  }

  lemma WorkerContextLasts(s: State, choice: bool)
    requires Inv(s)
    ensures ContextLasts(WorkerStep(s, choice))
  {}

  lemma WorkerFlagIsHistory(s: State, choice: bool)
    requires Inv(s)
    ensures FlagIsHistory(WorkerStep(s, choice))
  {
    match s.worker
    case InitContext => case StartMonitor => case NewServer => case BindLock => case BindSet => case BindUnlock =>
    case HandleTool => case UnbindLock => case UnbindSet => case UnbindUnlock => case AskLock => case AskRead =>
    case AskUnlock => case FreeServer => case StopMonitor => case DestroyContext => case Finished => case ProcessExit =>
  }

  lemma WorkerInv(s: State, choice: bool)
    requires Inv(s)
    ensures Inv(WorkerStep(s, choice))
  {
    hide Exclusive, BoundIsLive, ContextLasts, FlagIsHistory, WorkerStep;
    WorkerExclusive(s, choice);
    WorkerBoundIsLive(s, choice);
    WorkerContextLasts(s, choice);
    WorkerFlagIsHistory(s, choice);
  }

  lemma ObserverInv(s: State, choice: bool)
    requires Inv(s)
    ensures Inv(ObserverStep(s, choice))
  {
    match s.observer
    case NotStarted => case Idle => case CancelLock => case CancelServer =>
    case CancelStore => case CancelUnlock => case Joined =>
  }

  lemma {:induction false} InvRun(run: seq<State>, turns: seq<Turn>, k: nat)
    requires Run(run, turns) && k < |run|
    ensures Inv(run[k])
  {
    if k > 0 {
      InvRun(run, turns, k - 1);
      assert Next(run[k - 1], turns[k - 1], run[k]);
      var t, choice := turns[k - 1].thread, turns[k - 1].choice;
      if t == Worker { WorkerInv(run[k - 1], choice); } else { ObserverInv(run[k - 1], choice); }
    }
  }

  // ---- what every interleaving keeps ----

  /** A cancel that reaches the server finds it alive, in a living context. */
  lemma CancelTouchesLiveServer(run: seq<State>, turns: seq<Turn>, k: nat)
    requires Run(run, turns) && k < |run|
    ensures run[k].observer == CancelServer && run[k].bound ==> run[k].server == Live && run[k].contextAlive
    ensures run[k].server == Freed ==> !run[k].bound
    ensures !run[k].contextAlive ==> !Running(run[k].observer)
  {
    InvRun(run, turns, k);
  }

  /** At turn `j` a cancel takes effect: the observer finds the server bound, and the server says that
      it had something to cancel. */
  ghost predicate TakesEffect(run: seq<State>, turns: seq<Turn>, j: nat) {
    && j < |turns| < |run| && run[j].worker != ProcessExit
    && turns[j].thread == Observer && run[j].observer == CancelServer && run[j].bound && turns[j].choice
  }

  lemma SucceededStep(s: State, t: Turn)
    ensures Step(s, t.thread, t.choice).succeeded <==>
              s.succeeded || (s.worker != ProcessExit && t.thread == Observer && s.observer == CancelServer
                              && s.bound && t.choice)
  {
    match t.thread
    case Worker =>
      WorkerLeavesHistory(s, t.choice);
      hide WorkerStep;
    case Observer => hide WorkerStep;
  }

  lemma WorkerLeavesHistory(s: State, choice: bool)
    ensures WorkerStep(s, choice).succeeded == s.succeeded
  {
    match s.worker
    case InitContext => case StartMonitor => case NewServer => case BindLock => case BindSet => case BindUnlock =>
    case HandleTool => case UnbindLock => case UnbindSet => case UnbindUnlock => case AskLock => case AskRead =>
    case AskUnlock => case FreeServer => case StopMonitor => case DestroyContext => case Finished => case ProcessExit =>
  }

  lemma {:induction false} SucceededIsHistory(run: seq<State>, turns: seq<Turn>, k: nat)
    requires Run(run, turns) && k < |run|
    ensures run[k].succeeded <==> exists j: nat :: j < k && TakesEffect(run, turns, j)
  {
    if k > 0 {
      SucceededIsHistory(run, turns, k - 1);
      assert Next(run[k - 1], turns[k - 1], run[k]);
      SucceededStep(run[k - 1], turns[k - 1]);
      hide Step;
      assert TakesEffect(run, turns, k - 1) <==>
        run[k - 1].worker != ProcessExit && turns[k - 1].thread == Observer && run[k - 1].observer == CancelServer
        && run[k - 1].bound && turns[k - 1].choice;
    }
  }

  /** Outside a store in progress, the flag is set exactly if some cancel took effect. */
  lemma FlagIsExact(run: seq<State>, turns: seq<Turn>, k: nat)
    requires Run(run, turns) && k < |run| && run[k].observer != CancelStore
    ensures run[k].flag <==> exists j: nat :: j < k && TakesEffect(run, turns, j)
  {
    InvRun(run, turns, k);
    SucceededIsHistory(run, turns, k);
    hide Run, TakesEffect;
  }

  lemma StickyStep(s: State, t: Thread, choice: bool)
    requires Inv(s)
    ensures s.succeeded ==> Step(s, t, choice).succeeded
    ensures s.flag ==> Step(s, t, choice).flag
  {}

  /** The flag, once set, stays set. */
  lemma {:induction false} FlagIsSticky(run: seq<State>, turns: seq<Turn>, k: nat, l: nat)
    requires Run(run, turns) && k <= l < |run| && run[k].flag
    ensures run[l].flag
  {
    hide Inv, Step;
    if k < l {
      FlagIsSticky(run, turns, k, l - 1);
      InvRun(run, turns, l - 1);
      assert Next(run[l - 1], turns[l - 1], run[l]);
      var t, choice := turns[l - 1].thread, turns[l - 1].choice;
      StickyStep(run[l - 1], t, choice);
    }
  }

  /** The worker has unbound the server for good and asked whether it was cancelled. */
  predicate Settled(s: State) {
    && s.server != Absent && !s.bound && s.verdict == s.flag
    && (s.server == Freed || match s.worker
                             case AskUnlock | FreeServer => true
                             case _ => false)
  }

  lemma SettledStep(s: State, t: Thread, choice: bool)
    requires Inv(s) && Settled(s)
    ensures Settled(Step(s, t, choice)) || Step(s, t, choice).worker == ProcessExit
    ensures Step(s, t, choice).flag == s.flag && Step(s, t, choice).verdict == s.verdict
  {}

  /** The verdict that decides the exit status is final: it equals the flag in every later state. */
  lemma {:induction false} VerdictIsFinal(run: seq<State>, turns: seq<Turn>, k: nat, l: nat)
    requires Run(run, turns) && k <= l < |run| && Settled(run[k])
    ensures run[l].flag == run[k].verdict == run[l].verdict
    ensures Settled(run[l]) || run[l].worker == ProcessExit
  {
    hide Inv, Step, Settled;
    if k < l {
      VerdictIsFinal(run, turns, k, l - 1);
      InvRun(run, turns, l - 1);
      assert Next(run[l - 1], turns[l - 1], run[l]);
      var t, choice := turns[l - 1].thread, turns[l - 1].choice;
      if run[l - 1].worker == ProcessExit {
        ExitIsFinal(run[l - 1], t, choice);
      } else {
        SettledStep(run[l - 1], t, choice);
      }
    } else {
      SettledVerdict(run[k]);
    }
  }

  lemma SettledVerdict(s: State)
    requires Settled(s)
    ensures s.verdict == s.flag
  {}

  lemma ExitIsFinal(s: State, t: Thread, choice: bool)
    requires s.worker == ProcessExit
    ensures Step(s, t, choice) == s
  {}

  /** When the worker has read the flag, the state is settled. */
  lemma AskedIsSettled(run: seq<State>, turns: seq<Turn>, k: nat)
    requires Run(run, turns) && k < |run| && run[k].worker == AskUnlock
    ensures Settled(run[k])
  {
    InvRun(run, turns, k);
  }

  /** So the worker learns the truth: from the moment it has asked, its copy says whether a cancel has
      taken effect, in the whole run. */
  lemma VerdictIsHistory(run: seq<State>, turns: seq<Turn>, k: nat, l: nat)
    requires Run(run, turns) && k <= l < |run| && Settled(run[k])
    ensures run[l].verdict <==> exists j: nat :: j < l && TakesEffect(run, turns, j)
  {
    VerdictIsFinal(run, turns, k, l);
    InvRun(run, turns, k);
    InvRun(run, turns, l);
    SucceededIsHistory(run, turns, k);
    SucceededIsHistory(run, turns, l);
    NothingTakesEffect(run, turns, k, l);
    SettledHistory(run[k]);
    hide *;
  }

  lemma SettledHistory(s: State)
    requires Inv(s) && Settled(s)
    ensures s.succeeded <==> s.verdict
  {}

  lemma SettledSucceeds(s: State, t: Turn)
    requires Inv(s) && (Settled(s) || s.worker == ProcessExit)
    ensures Step(s, t.thread, t.choice).succeeded == s.succeeded
  {}

  lemma {:induction false} NothingTakesEffect(run: seq<State>, turns: seq<Turn>, k: nat, l: nat)
    requires Run(run, turns) && k <= l < |run| && Settled(run[k])
    ensures run[l].succeeded == run[k].succeeded
  {
    hide Inv, Step, Settled;
    if k < l {
      NothingTakesEffect(run, turns, k, l - 1);
      VerdictIsFinal(run, turns, k, l - 1);
      InvRun(run, turns, l - 1);
      assert Next(run[l - 1], turns[l - 1], run[l]);
      SettledSucceeds(run[l - 1], turns[l - 1]);
    }
  }

  // ---- progress ----

  /** The steps the worker still has to take, at most. */
  function WorkerLeft(pc: WorkerPc): nat {
    match pc
    case InitContext => 16
    case StartMonitor => 15
    case NewServer => 14
    case BindLock => 13
    case BindSet => 12
    case BindUnlock => 11
    case HandleTool => 10
    case UnbindLock => 9
    case UnbindSet => 8
    case UnbindUnlock => 7
    case AskLock => 6
    case AskRead => 5
    case AskUnlock => 4
    case FreeServer => 3
    case StopMonitor => 2
    case DestroyContext => 1
    case Finished | ProcessExit => 0
  }

  /** The steps the observer has to take to come to rest. */
  function ObserverLeft(pc: ObserverPc): nat {
    match pc
    case CancelLock => 4
    case CancelServer => 3
    case CancelStore => 2
    case CancelUnlock => 1
    case NotStarted | Idle | Joined => 0
  }

  ghost predicate Nearer(s: State, s': State) {
    || WorkerLeft(s'.worker) < WorkerLeft(s.worker)
    || (s'.worker == s.worker && ObserverLeft(s'.observer) < ObserverLeft(s.observer))
  }

  /** A step of the thread brings the end nearer, whatever its call comes back with. */
  ghost predicate Advances(s: State, t: Thread) {
    forall choice :: Nearer(s, Step(s, t, choice))
  }

  /** While the worker is between starting and stopping its observer, there is one. */
  ghost predicate Watched(s: State) {
    match s.worker
    case InitContext | StartMonitor | DestroyContext | Finished | ProcessExit => true
    case _ => Running(s.observer)
  }

  lemma WatchedStep(s: State, t: Turn)
    requires Inv(s) && Watched(s)
    ensures Watched(Step(s, t.thread, t.choice))
  {
    match t.thread
    case Worker => WatchedByWorker(s, t.choice);
    case Observer =>
    hide Inv, WorkerStep;
  }

  lemma WatchedByWorker(s: State, choice: bool)
    requires Watched(s)
    ensures Watched(WorkerStep(s, choice))
  {
    var s' := WorkerStep(s, choice);
    if WorkerLeft(s.worker) > 15 || WorkerLeft(s.worker) < 3 {
      match s.worker
      case InitContext => case StopMonitor => case DestroyContext => case Finished => case ProcessExit =>
    } else {
      ObserverStays(s, choice);
    }
    hide WorkerStep;
  }

  lemma ObserverStays(s: State, choice: bool)
    requires 3 <= WorkerLeft(s.worker) <= 15
    ensures WorkerStep(s, choice).observer ==
              if s.worker == StartMonitor && choice then Idle else s.observer
  {
    match s.worker
    case StartMonitor => case NewServer => case BindLock => case BindSet => case BindUnlock =>
    case HandleTool => case UnbindLock => case UnbindSet => case UnbindUnlock => case AskLock => case AskRead =>
    case AskUnlock => case FreeServer =>
  }

  lemma {:induction false} WatchedRun(run: seq<State>, turns: seq<Turn>, k: nat)
    requires Run(run, turns) && k < |run|
    ensures Watched(run[k])
  {
    if k > 0 {
      hide Step, Inv, Watched;
      WatchedRun(run, turns, k - 1);
      InvRun(run, turns, k - 1);
      assert Next(run[k - 1], turns[k - 1], run[k]);
      WatchedStep(run[k - 1], turns[k - 1]);
    }
  }

  /** No deadlock: until the worker is done, some thread can bring its end nearer. */
  lemma NeverStuck(run: seq<State>, turns: seq<Turn>, k: nat)
    requires Run(run, turns) && k < |run| && run[k].worker != Finished && run[k].worker != ProcessExit
    ensures exists t :: Advances(run[k], t)
  {
    InvRun(run, turns, k);
    WatchedRun(run, turns, k);
    var s := run[k];
    if MustWait(s) { ObserverAdvances(s); } else { WorkerAdvances(s); }
    hide Step;
  }

  /** The worker waits for the observer: for the mutex, or for its thread to come to rest. */
  predicate MustWait(s: State) {
    match s.worker
    case BindLock | UnbindLock | AskLock => s.mutex != Free
    case StopMonitor => s.observer != Idle
    case _ => false
  }

  lemma WorkerAdvances(s: State)
    requires !MustWait(s) && s.worker != Finished && s.worker != ProcessExit
    ensures Advances(s, Worker)
  {
    forall choice ensures Nearer(s, Step(s, Worker, choice)) { WorkerNearer(s, choice); }
    hide Step;
  }

  lemma WorkerNearer(s: State, choice: bool)
    requires !MustWait(s) && s.worker != Finished && s.worker != ProcessExit
    ensures WorkerLeft(WorkerStep(s, choice).worker) < WorkerLeft(s.worker)
  {
    if WorkerLeft(s.worker) > 8 {
      WorkerNearerFirst(s, choice);
    } else if WorkerLeft(s.worker) > 3 {
      WorkerNearerLater(s, choice);
    } else {
      WorkerNearerLast(s, choice);
    }
    hide *;
  }

  lemma WorkerNearerFirst(s: State, choice: bool)
    requires !MustWait(s) && WorkerLeft(s.worker) > 8
    ensures WorkerLeft(WorkerStep(s, choice).worker) < WorkerLeft(s.worker)
  {
    match s.worker
    case InitContext => case StartMonitor => case NewServer => case BindLock => case BindSet => case BindUnlock =>
    case HandleTool => case UnbindLock =>
  }

  lemma WorkerNearerLater(s: State, choice: bool)
    requires !MustWait(s) && 3 < WorkerLeft(s.worker) <= 8
    ensures WorkerLeft(WorkerStep(s, choice).worker) < WorkerLeft(s.worker)
  {
    match s.worker
    case UnbindSet => case UnbindUnlock => case AskLock => case AskRead => case AskUnlock =>
  }

  lemma WorkerNearerLast(s: State, choice: bool)
    requires !MustWait(s) && 0 < WorkerLeft(s.worker) <= 3
    ensures WorkerLeft(WorkerStep(s, choice).worker) < WorkerLeft(s.worker)
  {
    match s.worker
    case FreeServer => case StopMonitor => case DestroyContext =>
  }

  lemma ObserverAdvances(s: State)
    requires Inv(s) && Watched(s) && MustWait(s)
    ensures Advances(s, Observer)
  {
    WaitsForRunning(s);
    hide Inv, Watched, MustWait;
    forall choice ensures Nearer(s, Step(s, Observer, choice)) { ObserverNearer(s, choice); }
    hide Step;
  }

  lemma WaitsForRunning(s: State)
    requires Inv(s) && Watched(s) && MustWait(s)
    ensures s.worker != ProcessExit && Running(s.observer) && s.observer != Idle
    ensures s.observer == CancelLock ==> s.mutex == Free
  {
    hide BoundIsLive, ContextLasts, FlagIsHistory;
    match s.mutex
    case Free =>
    case HeldBy(t) => assert t == Worker || t == Observer;
  }

  lemma ObserverNearer(s: State, choice: bool)
    requires s.worker != ProcessExit && Running(s.observer) && s.observer != Idle
    requires s.observer == CancelLock ==> s.mutex == Free
    ensures Nearer(s, ObserverStep(s, choice))
  {}
}
