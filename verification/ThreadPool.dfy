/** The hand-off between task creators, pool workers and joiners in llamafile/pool.cpp, as interleaved
    atomic steps. `idle_push` and `idle_pop` are single steps here; module IdleStack justifies that. */
module ThreadPool {

  type Tid = nat  // a task
  type Wid = nat  // a worker thread

  /** A `pthread_t` field: -1, 0, or the id of a worker. */
  datatype Th = Unset | Zero | Id(w: Wid)

  datatype Option<T> = None | Some(value: T)

  datatype TaskLock = TaskFree | HeldByWorker(w: Wid) | HeldByJoiner

  datatype WorkerLock = WorkerFree | HeldBySelf | HeldByCreator(t: Tid)

  /** Inside `llamafile_task_create`. */
  datatype Creator =
    | Popping
    | Locking(w: Wid)      // pthread_mutex_lock(&thread->mu)
    | StoringTh(w: Wid)    // task->th = thread->th
    | StoringTask(w: Wid)  // thread->task = task
    | Signaling(w: Wid)
    | Unlocking(w: Wid)
    | Spawning             // new llamafile_thread, pthread_create
    | SettingTh(w: Wid)    // pthread_create stores thread->th
    | CopyingTh(w: Wid)    // task->th = thread->th
    | Created
    | Failed               // pthread_create failed: the task is deleted, never returned

  /** Inside `llamafile_task_join`. */
  datatype Joiner =
    | NotJoining | JLocking | JChecking | JAsleep | JWoken | JUnlocking | JReading | JDeleting(v: nat) | Joined(v: nat)

  /** Inside `llamafile_thread_worker`; `v` is its local `res`. */
  datatype Pc =
    | Run | SpinThread(v: nat) | SpinTask(v: nat) | LockTask(v: nat) | SetRes(v: nat) | ClearTh | SignalTask
    | UnlockTask
    | LockSelf | ClearTask | Push | Check | Asleep | Woken | Leave

  /** A task. `runs`, `ret` and `server` are history: how often its function was called, what it returned, and
      the worker that was given the task. */
  datatype Task = Task(th: Th, mu: TaskLock, res: Option<nat>, creator: Creator, joiner: Joiner,
                       runs: nat, ret: Option<nat>, server: Option<Wid>)

  /** A worker. `claim` is history: the task whose creator has taken this worker off the idle stack. */
  datatype Worker = Worker(th: Th, task: Option<Tid>, mu: WorkerLock, pc: Pc, claim: Option<Tid>)

  datatype State = State(tasks: map<Tid, Task>, workers: map<Wid, Worker>, idle: seq<Wid>)

  // ----- steps -----

  function NewTask(): Task {
    Task(Unset, TaskFree, None, Popping, NotJoining, 0, None, None)
  }

  datatype Event =
    | Create(t: Tid)                 // someone calls llamafile_task_create
    | CreatorStep(t: Tid, w: Wid, ok: bool)  // `w` and `ok` are used by pthread_create only
    | Join(t: Tid)                   // someone calls llamafile_task_join
    | JoinerStep(t: Tid)
    | JoinerSpurious(t: Tid)
    | WorkerStep(w: Wid, v: nat)     // `v` is what func returns, used by Run only
    | WorkerSpurious(w: Wid)

  predicate CreatorEnabled(s: State, t: Tid, w: Wid) {
    t in s.tasks &&
    match s.tasks[t].creator
    case Locking(x) => x in s.workers && s.workers[x].mu == WorkerFree
    case StoringTh(x) => x in s.workers
    case StoringTask(x) => x in s.workers
    case Signaling(x) => x in s.workers
    case Unlocking(x) => x in s.workers
    case Spawning => w !in s.workers
    case SettingTh(x) => x in s.workers
    case CopyingTh(x) => x in s.workers
    case Popping => s.idle != [] ==> s.idle[0] in s.workers
    case _ => false
  }

  predicate JoinerEnabled(s: State, t: Tid) {
    t in s.tasks &&
    var j := s.tasks[t].joiner;
    if j.JLocking? || j.JWoken? then s.tasks[t].mu == TaskFree
    else j.JChecking? || j.JUnlocking? || (j.JReading? && s.tasks[t].res.Some?) || j.JDeleting?
  }

  /** The worker's task pointer, where the code follows it, must lead to a task. */
  predicate HasTask(s: State, w: Wid) {
    w in s.workers && s.workers[w].task.Some? && s.workers[w].task.value in s.tasks
  }

  predicate WorkerEnabled(s: State, w: Wid) {
    w in s.workers &&
    var k := s.workers[w];
    match k.pc
    case LockTask(_) => HasTask(s, w) && s.tasks[k.task.value].mu == TaskFree
    case LockSelf => k.mu == WorkerFree
    case Woken => k.mu == WorkerFree
    case Asleep => false
    case ClearTask => true
    case Push => true
    case Check => true
    case Leave => true
    case _ => HasTask(s, w)
  }

  predicate Enabled(s: State, e: Event) {
    match e
    case Create(t) => t !in s.tasks
    case CreatorStep(t, w, _) => CreatorEnabled(s, t, w)
    case Join(t) => t in s.tasks && s.tasks[t].creator == Created && s.tasks[t].joiner == NotJoining
    case JoinerStep(t) => JoinerEnabled(s, t)
    case JoinerSpurious(t) => t in s.tasks && s.tasks[t].joiner == JAsleep
    case WorkerStep(w, _) => WorkerEnabled(s, w)
    case WorkerSpurious(w) => w in s.workers && s.workers[w].pc == Asleep
  }

  function CreatorNext(s: State, t: Tid, w: Wid, ok: bool): State
    requires CreatorEnabled(s, t, w)
  {
    var T := s.tasks[t];
    match T.creator
    case Popping =>
      if s.idle == [] then s.(tasks := s.tasks[t := T.(creator := Spawning)])
      else State(s.tasks[t := T.(creator := Locking(s.idle[0]))],
                 s.workers[s.idle[0] := s.workers[s.idle[0]].(claim := Some(t))], s.idle[1..])
    case Locking(x) =>
      s.(tasks := s.tasks[t := T.(creator := StoringTh(x))],
        workers := s.workers[x := s.workers[x].(mu := HeldByCreator(t))])
    case StoringTh(x) => s.(tasks := s.tasks[t := T.(creator := StoringTask(x), th := s.workers[x].th)])
    case StoringTask(x) =>
      s.(tasks := s.tasks[t := T.(creator := Signaling(x), server := Some(x))],
         workers := s.workers[x := s.workers[x].(task := Some(t), claim := None)])
    case Signaling(x) =>
      s.(tasks := s.tasks[t := T.(creator := Unlocking(x))],
         workers := s.workers[x := if s.workers[x].pc == Asleep then s.workers[x].(pc := Woken) else s.workers[x]])
    case Unlocking(x) =>
      s.(tasks := s.tasks[t := T.(creator := Created)], workers := s.workers[x := s.workers[x].(mu := WorkerFree)])
    case Spawning =>
      if !ok then s.(tasks := s.tasks[t := T.(creator := Failed)])
      else s.(tasks := s.tasks[t := T.(creator := SettingTh(w), server := Some(w))],
              workers := s.workers[w := Worker(Unset, Some(t), WorkerFree, Run, None)])
    case SettingTh(x) =>
      s.(tasks := s.tasks[t := T.(creator := CopyingTh(x))], workers := s.workers[x := s.workers[x].(th := Id(x))])
    case _ => s.(tasks := s.tasks[t := T.(creator := Created, th := s.workers[T.creator.w].th)])
  }

  function JoinerNext(s: State, t: Tid): State
    requires JoinerEnabled(s, t)
  {
    var T := s.tasks[t];
    var T' :=
      match T.joiner
      case JLocking => T.(joiner := JChecking, mu := HeldByJoiner)
      case JWoken => T.(joiner := JChecking, mu := HeldByJoiner)
      case JChecking => if T.th == Zero then T.(joiner := JUnlocking) else T.(joiner := JAsleep, mu := TaskFree)
      case JUnlocking => T.(joiner := JReading, mu := TaskFree)
      case JReading => T.(joiner := JDeleting(T.res.value))
      case _ => T.(joiner := Joined(T.joiner.v));
    s.(tasks := s.tasks[t := T'])
  }

  function WorkerNext(s: State, w: Wid, v: nat): State
    requires WorkerEnabled(s, w)
  {
    var k := s.workers[w];
    match k.pc
    case Run =>
      var T := s.tasks[k.task.value];
      State(s.tasks[k.task.value := T.(runs := T.runs + 1, ret := Some(v))], s.workers[w := k.(pc := SpinThread(v))],
        s.idle)
    case SpinThread(r) => s.(workers := s.workers[w := if k.th != Unset then k.(pc := SpinTask(r)) else k])
    case SpinTask(r) =>
      s.(workers := s.workers[w := k.(pc := if s.tasks[k.task.value].th != Unset then LockTask(r) else SpinThread(r))])
    case LockTask(r) =>
      State(s.tasks[k.task.value := s.tasks[k.task.value].(mu := HeldByWorker(w))],
        s.workers[w := k.(pc := SetRes(r))], s.idle)
    case SetRes(r) =>
      State(s.tasks[k.task.value := s.tasks[k.task.value].(res := Some(r))], s.workers[w := k.(pc := ClearTh)], s.idle)
    case ClearTh =>
      State(s.tasks[k.task.value := s.tasks[k.task.value].(th := Zero)], s.workers[w := k.(pc := SignalTask)], s.idle)
    case SignalTask =>
      var T := s.tasks[k.task.value];
      State(s.tasks[k.task.value := if T.joiner == JAsleep then T.(joiner := JWoken) else T],
            s.workers[w := k.(pc := UnlockTask)], s.idle)
    case UnlockTask =>
      State(s.tasks[k.task.value := s.tasks[k.task.value].(mu := TaskFree)], s.workers[w := k.(pc := LockSelf)], s.idle)
    case LockSelf => s.(workers := s.workers[w := k.(pc := ClearTask, mu := HeldBySelf)])
    case ClearTask => s.(workers := s.workers[w := k.(pc := Push, task := None)])
    case Push => s.(workers := s.workers[w := k.(pc := Check)], idle := [w] + s.idle)
    case Check =>
      s.(workers := s.workers[w := if k.task.None? then k.(pc := Asleep, mu := WorkerFree) else k.(pc := Leave)])
    case Woken => s.(workers := s.workers[w := k.(pc := Check, mu := HeldBySelf)])
    case _ => s.(workers := s.workers[w := k.(pc := Run, mu := WorkerFree)])
  }

  function Next(s: State, e: Event): State
    requires Enabled(s, e)
  {
    match e
    case Create(t) => s.(tasks := s.tasks[t := NewTask()])
    case CreatorStep(t, w, ok) => CreatorNext(s, t, w, ok)
    case Join(t) => s.(tasks := s.tasks[t := s.tasks[t].(joiner := JLocking)])
    case JoinerStep(t) => JoinerNext(s, t)
    case JoinerSpurious(t) => s.(tasks := s.tasks[t := s.tasks[t].(joiner := JWoken)])
    case WorkerStep(w, v) => WorkerNext(s, w, v)
    case WorkerSpurious(w) => s.(workers := s.workers[w := s.workers[w].(pc := Woken)])
  }

  // ----- the invariant -----

  /** The worker runs `t`: it may follow `thread->task`. */
  ghost predicate Serving(k: Worker, t: Tid) {
    k.task == Some(t) &&
    (k.pc.Run? || k.pc.SpinThread? || k.pc.SpinTask? || k.pc.LockTask? || k.pc.SetRes? || k.pc.ClearTh?
      || k.pc.SignalTask? || k.pc.UnlockTask?)
  }

  /** Past the second half of idle_push, waiting for work. */
  ghost predicate Waiting(k: Worker) {
    k.pc.Check? || k.pc.Asleep? || k.pc.Woken? || k.pc.Leave?
  }

  /** A creator has taken `w` off the idle stack and not yet given it the task. */
  ghost predicate Claims(T: Task, w: Wid) {
    (T.creator.Locking? || T.creator.StoringTh? || T.creator.StoringTask?) && T.creator.w == w
  }

  ghost predicate HandingOver(T: Task, w: Wid) {
    (T.creator.Signaling? || T.creator.Unlocking?) && T.creator.w == w
  }

  ghost predicate MidTask(pc: Pc) { pc.SetRes? || pc.ClearTh? || pc.SignalTask? || pc.UnlockTask? }

  /** The worker's side while it runs a task. */
  ghost predicate ServingOk(w: Wid, k: Worker, T: Task) {
    && T.server == Some(w)
    && k.mu == WorkerFree
    && (k.pc.Run? ==> T.runs == 0)
    && (!k.pc.Run? ==> T.runs == 1)
    && (k.pc.SpinThread? ==> T.ret == Some(k.pc.v))
    && (k.pc.SpinTask? ==> T.ret == Some(k.pc.v) && k.th == Id(w))
    && (k.pc.LockTask? ==> T.ret == Some(k.pc.v))
    && (k.pc.SetRes? ==> T.ret == Some(k.pc.v))
    && (k.pc.ClearTh? || k.pc.SignalTask? || k.pc.UnlockTask? ==> T.res == T.ret && T.ret.Some?)
    && (k.pc.Run? || k.pc.SpinThread? || k.pc.SpinTask? ==>
          T.creator == Created || T.creator == SettingTh(w) || T.creator == CopyingTh(w))
    && (T.creator == Created ==> k.th == Id(w))
    && (k.pc.LockTask? || MidTask(k.pc) ==> T.creator == Created)
    && (T.th == Zero <==> k.pc.SignalTask? || k.pc.UnlockTask?)
    && (T.mu == HeldByWorker(w) <==> MidTask(k.pc))
  }

  ghost predicate WorkerOk(s: State, w: Wid)
    requires w in s.workers
  {
    var k := s.workers[w];
    && (k.th == Unset || k.th == Id(w))
    && (k.pc.Run? || k.pc.SpinThread? || k.pc.SpinTask? || k.pc.LockTask? || MidTask(k.pc) ==>
          HasTask(s, w) && ServingOk(w, k, s.tasks[k.task.value]))
    && (k.pc.LockSelf? || k.pc.ClearTask? || k.pc.Push? || Waiting(k) ==> k.th == Id(w))
    && (k.mu == HeldBySelf <==> k.pc.ClearTask? || k.pc.Push? || k.pc.Check? || k.pc.Leave?)
    && (k.pc.LockSelf? ==> k.mu == WorkerFree)
    && (k.pc.Push? ==> k.task == None)
    && (k.pc.Leave? ==> k.task.Some?)
    && (w in s.idle ==> Waiting(k) && k.task == None)
    && (Waiting(k) && k.task.Some? ==> HasTask(s, w) && AssignedOk(w, k, s.tasks[k.task.value]))
    && (k.mu.HeldByCreator? ==> k.mu.t in s.tasks && (Claims(s.tasks[k.mu.t], w) || HandingOver(s.tasks[k.mu.t], w)))
    && (Waiting(k) && k.task == None ==> (w in s.idle <==> k.claim == None))  // no worker is lost
    && (k.claim.Some? ==> Waiting(k) && k.task == None && k.claim.value in s.tasks && Claims(s.tasks[k.claim.value], w))
  }

  /** A waiting worker that has been given `T` but has not started it. */
  ghost predicate AssignedOk(w: Wid, k: Worker, T: Task) {
    && T.server == Some(w) && T.runs == 0 && T.th == Id(w)
    && (T.creator == Created || T.creator == Signaling(w) || T.creator == Unlocking(w))
    && (k.pc.Asleep? ==> T.creator == Signaling(w))  // no wake-up is lost
    && (k.pc.Check? || k.pc.Leave? ==> T.creator == Created)
    && !T.mu.HeldByWorker?
  }

  ghost predicate TaskOk(s: State, t: Tid)
    requires t in s.tasks
  {
    var T := s.tasks[t];
    && T.runs <= 1
    && (T.creator == Popping || T.creator == Spawning || T.creator == Failed ||
        T.creator.Locking? || T.creator.StoringTh? ==>
          T.th == Unset && T.runs == 0 && T.server == None && T.mu == TaskFree)
    && (T.creator.StoringTask? ==> T.th == Id(T.creator.w) && T.runs == 0 && T.server == None && T.mu == TaskFree)
    && (T.creator.Locking? || T.creator.StoringTh? || T.creator.StoringTask? ==> ClaimOk(s, t, T.creator.w))
    && (T.creator.Signaling? || T.creator.Unlocking? ==> HandOverOk(s, t, T.creator.w))
    && (T.creator.SettingTh? ==> T.th == Unset && SpawnOk(s, t, T.creator.w) && s.workers[T.creator.w].th == Unset)
    && (T.creator.CopyingTh? ==>
          T.th == Unset && SpawnOk(s, t, T.creator.w) && s.workers[T.creator.w].th == Id(T.creator.w))
    && (T.creator == Created ==> T.server.Some? && T.th != Unset && T.server.value in s.workers)
    && (T.joiner != NotJoining ==> T.creator == Created)
    && (T.server.Some? && T.th != Zero ==> OwnedOk(s, t, T.server.value))
    && (T.mu.HeldByWorker? ==> T.mu.w in s.workers && Serving(s.workers[T.mu.w], t) && MidTask(s.workers[T.mu.w].pc))
    && (T.th == Zero ==> T.runs == 1 && T.ret.Some? && T.res == T.ret)
    && (T.mu == HeldByJoiner <==> T.joiner == JChecking || T.joiner == JUnlocking)
    && (T.joiner == JUnlocking || T.joiner == JReading || T.joiner.JDeleting? || T.joiner.Joined? ==>
          T.th == Zero && !T.mu.HeldByWorker?)
    && (T.joiner.JDeleting? || T.joiner.Joined? ==> T.ret == Some(T.joiner.v))
    && (T.joiner == JAsleep && T.th == Zero ==>  // no wake-up is lost
          T.mu.HeldByWorker? && T.mu.w in s.workers && s.workers[T.mu.w].pc.SignalTask?)
  }

  ghost predicate ClaimOk(s: State, t: Tid, w: Wid)
    requires t in s.tasks
  {
    && w in s.workers && w !in s.idle && Waiting(s.workers[w]) && s.workers[w].task == None
    && s.workers[w].claim == Some(t)
    && (s.workers[w].mu == HeldByCreator(t) <==> s.tasks[t].creator.StoringTh? || s.tasks[t].creator.StoringTask?)
  }

  ghost predicate HandOverOk(s: State, t: Tid, w: Wid)
    requires t in s.tasks
  {
    w in s.workers && s.workers[w].mu == HeldByCreator(t) && Waiting(s.workers[w]) && s.workers[w].task == Some(t)
  }

  ghost predicate SpawnOk(s: State, t: Tid, w: Wid)
    requires t in s.tasks
  {
    w in s.workers && s.tasks[t].server == Some(w) && Serving(s.workers[w], t)
  }

  /** Until it clears `task->th`, the worker given the task still has it. */
  ghost predicate OwnedOk(s: State, t: Tid, w: Wid) {
    && w in s.workers && s.workers[w].task == Some(t) && (Waiting(s.workers[w]) || Serving(s.workers[w], t))
  }

  ghost predicate Inv(s: State) {
    && (forall w :: w in s.workers ==> WorkerOk(s, w))
    && (forall t :: t in s.tasks ==> TaskOk(s, t))
    && (forall i, j :: 0 <= i < j < |s.idle| ==> s.idle[i] != s.idle[j])
    && (forall w :: w in s.idle ==> w in s.workers)
  }
}
