/** What holds in every interleaving of creators, workers and joiners. */
module PoolProofs {
  import opened ThreadPool

  // ----- frames -----

  ghost predicate RefersTo(c: Creator, w: Wid) {
    (c.Locking? || c.StoringTh? || c.StoringTask? || c.Signaling? || c.Unlocking? || c.SettingTh? || c.CopyingTh?)
      && c.w == w
  }

  /** Nothing about worker `w` depends on task `T`. */
  ghost predicate Unrelated(T: Task, w: Wid) {
    T.server != Some(w) && !RefersTo(T.creator, w)
  }

  /** Nothing about task `T` depends on worker `w`, though `w` may have served it in the past. */
  ghost predicate Past(T: Task, w: Wid) {
    && (T.server == Some(w) ==> T.th == Zero && T.creator == Created)
    && T.mu != HeldByWorker(w)
    && !RefersTo(T.creator, w)
  }

  lemma WorkerFrame(s: State, s': State, x: Wid, ot: set<Tid>)
    requires x in s.workers && WorkerOk(s, x)
    requires x in s'.workers && s'.workers[x] == s.workers[x] && (x in s'.idle <==> x in s.idle)
    requires forall u :: u in s.tasks ==> u in s'.tasks
    requires forall u :: u in s.tasks && u !in ot ==> s'.tasks[u] == s.tasks[u]
    requires forall u :: u in ot && u in s.tasks ==> Unrelated(s.tasks[u], x)
    ensures WorkerOk(s', x)
  {
  }

  lemma TaskFrame(s: State, s': State, u: Tid, ow: set<Wid>)
    requires u in s.tasks && TaskOk(s, u)
    requires u in s'.tasks && s'.tasks[u] == s.tasks[u]
    requires forall x :: x in s.workers ==> x in s'.workers
    requires forall x :: x in s.workers && x !in ow ==> s'.workers[x] == s.workers[x] && (x in s'.idle <==> x in s.idle)
    requires forall x :: x in ow && x in s.workers ==> Past(s.tasks[u], x)
    ensures TaskOk(s', u)
  {
  }

  ghost predicate IdleOk(s: State) {
    && (forall i, j :: 0 <= i < j < |s.idle| ==> s.idle[i] != s.idle[j])
    && (forall w :: w in s.idle ==> w in s.workers)
  }

  /** A step that touches the workers `ow` and the tasks `ot` only has to answer for those. */
  lemma Frame(s: State, s': State, ow: set<Wid>, ot: set<Tid>)
    requires Inv(s) && IdleOk(s')
    requires forall x :: x in s.workers ==> x in s'.workers
    requires forall u :: u in s.tasks ==> u in s'.tasks
    requires forall x :: x in s'.workers && x !in ow ==>
               x in s.workers && s'.workers[x] == s.workers[x] && (x in s'.idle <==> x in s.idle)
    requires forall u :: u in s'.tasks && u !in ot ==> u in s.tasks && s'.tasks[u] == s.tasks[u]
    requires forall x, u :: x in s.workers && x !in ow && u in s.tasks && u in ot ==> Unrelated(s.tasks[u], x)
    requires forall x, u :: x in s.workers && x in ow && u in s.tasks && u !in ot ==> Past(s.tasks[u], x)
    requires forall x :: x in ow && x in s'.workers ==> WorkerOk(s', x)
    requires forall u :: u in ot && u in s'.tasks ==> TaskOk(s', u)
    ensures Inv(s')
  {
    hide WorkerOk, TaskOk, Unrelated, Past;
    forall x | x in s'.workers
      ensures WorkerOk(s', x)
    {
      if x !in ow {
        WorkerFrame(s, s', x, ot);
      }
    }
    forall u | u in s'.tasks
      ensures TaskOk(s', u)
    {
      if u !in ot {
        TaskFrame(s, s', u, ow);
      }
    }
  }

  /** A worker is tied to one task at a time: the one it points to, or the one whose creator claimed it. */
  lemma OneTask(s: State, w: Wid, u: Tid)
    requires Inv(s) && w in s.workers && u in s.tasks
    requires s.workers[w].task != Some(u) && s.workers[w].claim != Some(u)
    ensures Past(s.tasks[u], w)
  {
    assert TaskOk(s, u);
  }

  /** A task is tied to one worker at a time. */
  lemma OneWorker(s: State, t: Tid, w: Wid, x: Wid)
    requires Inv(s) && t in s.tasks && w != x && (s.tasks[t].server == Some(w) || RefersTo(s.tasks[t].creator, w))
    ensures Unrelated(s.tasks[t], x)
  {
    assert TaskOk(s, t);
  }

  /** The common case: a step of worker `w` and task `t`, tied to each other. */
  lemma PairFrame(s: State, s': State, w: Wid, t: Tid)
    requires Inv(s) && w in s.workers && t in s.tasks && IdleOk(s')
    requires w in s'.workers && t in s'.tasks
    requires s'.workers == s.workers[w := s'.workers[w]] && s'.tasks == s.tasks[t := s'.tasks[t]]
    requires forall x :: x != w ==> (x in s'.idle <==> x in s.idle)
    requires Tied(s, w, t)
    requires WorkerOk(s', w) && TaskOk(s', t)
    ensures Inv(s')
  {
    hide WorkerOk, TaskOk, Unrelated, Past;
    forall u | u in s.tasks && u != t
      ensures Past(s.tasks[u], w)
    {
      OneTask(s, w, u);
    }
    forall x | x in s.workers && x != w
      ensures Unrelated(s.tasks[t], x)
    {
      if s.tasks[t].server == Some(w) || RefersTo(s.tasks[t].creator, w) {
        OneWorker(s, t, w, x);
      } else {
        Unserved(s, t, x);
      }
    }
    Frame(s, s', {w}, {t});
  }

  /** `w` and `t` have no other partner. */
  ghost predicate Tied(s: State, w: Wid, t: Tid)
    requires w in s.workers && t in s.tasks
  {
    && (s.workers[w].task == None || s.workers[w].task == Some(t))
    && (s.workers[w].claim == None || s.workers[w].claim == Some(t))
    && (s.tasks[t].creator == Popping || s.tasks[t].server == Some(w) || RefersTo(s.tasks[t].creator, w))
  }

  lemma Unserved(s: State, t: Tid, x: Wid)
    requires Inv(s) && t in s.tasks && s.tasks[t].creator == Popping
    ensures Unrelated(s.tasks[t], x)
  {
    assert TaskOk(s, t);
  }

  /** A step of a worker that concerns no task: its pointer, if it has one, is stale or untouched. */
  lemma LoneFrame(s: State, s': State, w: Wid)
    requires Inv(s) && w in s.workers && IdleOk(s') && s'.tasks == s.tasks
    requires w in s'.workers && s'.workers == s.workers[w := s'.workers[w]]
    requires forall x :: x != w ==> (x in s'.idle <==> x in s.idle)
    requires forall u :: u in s.tasks ==> Past(s.tasks[u], w)
    requires WorkerOk(s', w)
    ensures Inv(s')
  {
    hide WorkerOk, TaskOk, Unrelated, Past;
    Frame(s, s', {w}, {});
  }

  lemma IdleFrame(s: State, s': State)
    requires Inv(s) && s'.idle == s.idle && forall x :: x in s.workers ==> x in s'.workers
    ensures IdleOk(s')
  {
  }

  // ----- creators -----

  lemma CreateKeeps(s: State, t: Tid)
    requires Inv(s) && t !in s.tasks
    ensures Inv(Next(s, Create(t)))
  {
    var s' := Next(s, Create(t));
    assert TaskOk(s', t);
    Frame(s, s', {}, {t});
  }

  lemma PopWorkerLocal(s: State, t: Tid)
    requires CreatorEnabled(s, t, 0) && s.tasks[t].creator == Popping && s.idle != [] && s.idle[0] !in s.idle[1..]
    requires WorkerOk(s, s.idle[0])
    ensures var w, s' := s.idle[0], CreatorNext(s, t, 0, false); w in s'.workers && WorkerOk(s', w) && Tied(s, w, t)
  {
  }

  lemma PopTaskLocal(s: State, t: Tid)
    requires CreatorEnabled(s, t, 0) && s.tasks[t].creator == Popping && s.idle != [] && s.idle[0] !in s.idle[1..]
    requires WorkerOk(s, s.idle[0]) && TaskOk(s, t)
    ensures TaskOk(CreatorNext(s, t, 0, false), t)
  {
  }

  lemma PopKeeps(s: State, t: Tid)
    requires Inv(s) && CreatorEnabled(s, t, 0) && s.tasks[t].creator == Popping && s.idle != []
    ensures Inv(CreatorNext(s, t, 0, false))
  {
    var s' := CreatorNext(s, t, 0, false);
    var w := s.idle[0];
    assert forall x :: x != w ==> (x in s'.idle <==> x in s.idle);
    assert w !in s'.idle;
    assert WorkerOk(s, w) && TaskOk(s, t);
    hide WorkerOk, TaskOk, Inv, Tied;
    PopWorkerLocal(s, t);
    PopTaskLocal(s, t);
    PairFrame(s, s', w, t);
  }

  lemma NoneIdleKeeps(s: State, t: Tid)
    requires Inv(s) && CreatorEnabled(s, t, 0) && s.tasks[t].creator == Popping && s.idle == []
    ensures Inv(CreatorNext(s, t, 0, false))
  {
    var s' := CreatorNext(s, t, 0, false);
    assert TaskOk(s, t) && TaskOk(s', t);
    Frame(s, s', {}, {t});
  }

  lemma SpawnKeeps(s: State, t: Tid, w: Wid, ok: bool)
    requires Inv(s) && CreatorEnabled(s, t, w) && s.tasks[t].creator == Spawning
    ensures Inv(CreatorNext(s, t, w, ok))
  {
    var s' := CreatorNext(s, t, w, ok);
    assert TaskOk(s, t) && TaskOk(s', t);
    assert ok ==> WorkerOk(s', w);
    Frame(s, s', {w}, {t});
  }

  /** The steps between popping a worker, or starting one, and returning. */
  lemma CreatorPairKeeps(s: State, t: Tid)
    requires Inv(s) && CreatorEnabled(s, t, 0) && s.tasks[t].creator != Popping && s.tasks[t].creator != Spawning
    ensures Inv(CreatorNext(s, t, 0, false))
  {
    var s' := CreatorNext(s, t, 0, false);
    var w := s.tasks[t].creator.w;
    CreatorPairLocal(s, t);
    hide WorkerOk, TaskOk;
    assert s'.workers == s.workers[w := s'.workers[w]];
    PairFrame(s, s', w, t);
  }

  lemma CreatorPairLocal(s: State, t: Tid)
    requires Inv(s) && CreatorEnabled(s, t, 0) && s.tasks[t].creator != Popping && s.tasks[t].creator != Spawning
    ensures var s' := CreatorNext(s, t, 0, false);
      var w := s.tasks[t].creator.w;
      w in s.workers && w in s'.workers && Tied(s, w, t) && WorkerOk(s', w) && TaskOk(s', t)
  {
    assert WorkerOk(s, s.tasks[t].creator.w) && TaskOk(s, t);
    CreatorTied(s, t);
    CreatorWorkerLocal(s, t);
    CreatorTaskLocal(s, t);
    hide TaskOk, WorkerOk, Inv;
  }

  lemma CreatorTied(s: State, t: Tid)
    requires Inv(s) && CreatorEnabled(s, t, 0) && s.tasks[t].creator != Popping && s.tasks[t].creator != Spawning
    ensures Tied(s, s.tasks[t].creator.w, t)
  {
    assert WorkerOk(s, s.tasks[t].creator.w) && TaskOk(s, t);
  }

  lemma CreatorWorkerLocal(s: State, t: Tid)
    requires CreatorEnabled(s, t, 0) && s.tasks[t].creator != Popping && s.tasks[t].creator != Spawning
    requires TaskOk(s, t) && s.tasks[t].creator.w in s.workers && WorkerOk(s, s.tasks[t].creator.w)
    ensures WorkerOk(CreatorNext(s, t, 0, false), s.tasks[t].creator.w)
  {
  }

  lemma CreatorTaskLocal(s: State, t: Tid)
    requires CreatorEnabled(s, t, 0) && s.tasks[t].creator != Popping && s.tasks[t].creator != Spawning
    requires TaskOk(s, t) && s.tasks[t].creator.w in s.workers && WorkerOk(s, s.tasks[t].creator.w)
    ensures TaskOk(CreatorNext(s, t, 0, false), t)
  {
  }

  // ----- joiners -----

  /** Locking, unlocking or waiting as a joiner changes nothing a worker depends on. */
  lemma JoinerFrame(s: State, s': State, t: Tid, T: Task)
    requires Inv(s) && t in s.tasks && s' == s.(tasks := s.tasks[t := T])
    requires T == s.tasks[t].(joiner := T.joiner, mu := T.mu)
    requires (!T.mu.HeldByWorker? && !s.tasks[t].mu.HeldByWorker?) || T.mu == s.tasks[t].mu
    requires TaskOk(s', t)
    ensures Inv(s')
  {
    hide WorkerOk, TaskOk;
    forall x | x in s'.workers
      ensures WorkerOk(s', x)
    {
      JoinerWorkerFrame(s, s', t, T, x);
    }
    forall u | u in s'.tasks
      ensures TaskOk(s', u)
    {
      if u != t {
        TaskFrame(s, s', u, {});
      }
    }
  }

  lemma JoinerWorkerFrame(s: State, s': State, t: Tid, T: Task, x: Wid)
    requires x in s.workers && WorkerOk(s, x) && t in s.tasks && s' == s.(tasks := s.tasks[t := T])
    requires T == s.tasks[t].(joiner := T.joiner, mu := T.mu)
    requires (!T.mu.HeldByWorker? && !s.tasks[t].mu.HeldByWorker?) || T.mu == s.tasks[t].mu
    ensures WorkerOk(s', x)
  {
  }

  lemma JoinLocal(s: State, t: Tid)
    requires Enabled(s, Join(t)) && TaskOk(s, t)
    ensures TaskOk(Next(s, Join(t)), t)
  {
  }

  lemma JoinSpuriousLocal(s: State, t: Tid)
    requires Enabled(s, JoinerSpurious(t)) && TaskOk(s, t)
    ensures TaskOk(Next(s, JoinerSpurious(t)), t)
  {
  }

  lemma JoinKeeps(s: State, t: Tid)
    requires Inv(s) && Enabled(s, Join(t))
    ensures Inv(Next(s, Join(t)))
  {
    var s' := Next(s, Join(t));
    assert TaskOk(s, t);
    hide WorkerOk, TaskOk, Inv;
    JoinLocal(s, t);
    JoinerFrame(s, s', t, s'.tasks[t]);
  }

  lemma JoinerLocal(s: State, t: Tid)
    requires JoinerEnabled(s, t) && TaskOk(s, t)
    ensures TaskOk(JoinerNext(s, t), t)
    ensures var T, T' := s.tasks[t], JoinerNext(s, t).tasks[t];
      (!T'.mu.HeldByWorker? && !T.mu.HeldByWorker?) || T'.mu == T.mu
  {
  }

  lemma JoinerKeeps(s: State, t: Tid)
    requires Inv(s) && JoinerEnabled(s, t)
    ensures Inv(JoinerNext(s, t))
  {
    hide WorkerOk, TaskOk;
    var s' := JoinerNext(s, t);
    JoinerLocal(s, t);
    JoinerFrame(s, s', t, s'.tasks[t]);
  }

  lemma JoinerSpuriousKeeps(s: State, t: Tid)
    requires Inv(s) && Enabled(s, JoinerSpurious(t))
    ensures Inv(Next(s, JoinerSpurious(t)))
  {
    var s' := Next(s, JoinerSpurious(t));
    assert TaskOk(s, t);
    hide WorkerOk, TaskOk, Inv;
    JoinSpuriousLocal(s, t);
    JoinerFrame(s, s', t, s'.tasks[t]);
  }

  // ----- workers -----

  ghost predicate Busy(pc: Pc) {
    pc.Run? || pc.SpinThread? || pc.SpinTask? || pc.LockTask? || MidTask(pc)
  }

  lemma BusyTied(s: State, w: Wid)
    requires Inv(s) && WorkerEnabled(s, w) && Busy(s.workers[w].pc)
    ensures HasTask(s, w) && Tied(s, w, s.workers[w].task.value)
  {
    assert WorkerOk(s, w);
    assert TaskOk(s, s.workers[w].task.value);
  }

  lemma BusyLocal(s: State, w: Wid, v: nat)
    requires WorkerEnabled(s, w) && Busy(s.workers[w].pc) && HasTask(s, w)
    requires WorkerOk(s, w) && TaskOk(s, s.workers[w].task.value)
    ensures w in WorkerNext(s, w, v).workers && WorkerOk(WorkerNext(s, w, v), w)
  {
    hide WorkerOk, TaskOk;
    var pc := s.workers[w].pc;
    if MidTask(pc) {
      MidLocal(s, w, v);
    } else if pc.Run? || pc.SpinThread? {
      EarlyLocal(s, w, v);
    } else {
      SpinLocal(s, w, v);
    }
  }

  lemma EarlyLocal(s: State, w: Wid, v: nat)
    requires WorkerEnabled(s, w) && HasTask(s, w) && WorkerOk(s, w)
    requires s.workers[w].pc.Run? || s.workers[w].pc.SpinThread?
    ensures w in WorkerNext(s, w, v).workers && WorkerOk(WorkerNext(s, w, v), w)
  {
  }

  lemma SpinLocal(s: State, w: Wid, v: nat)
    requires WorkerEnabled(s, w) && HasTask(s, w) && WorkerOk(s, w) && TaskOk(s, s.workers[w].task.value)
    requires s.workers[w].pc.SpinTask? || s.workers[w].pc.LockTask?
    ensures w in WorkerNext(s, w, v).workers && WorkerOk(WorkerNext(s, w, v), w)
  {
  }

  lemma MidLocal(s: State, w: Wid, v: nat)
    requires WorkerEnabled(s, w) && MidTask(s.workers[w].pc) && HasTask(s, w) && WorkerOk(s, w)
    ensures w in WorkerNext(s, w, v).workers && WorkerOk(WorkerNext(s, w, v), w)
  {
  }

  lemma BusyTaskLocal(s: State, w: Wid, v: nat)
    requires WorkerEnabled(s, w) && Busy(s.workers[w].pc) && HasTask(s, w)
    requires WorkerOk(s, w) && TaskOk(s, s.workers[w].task.value)
    ensures s.workers[w].task.value in WorkerNext(s, w, v).tasks
    ensures TaskOk(WorkerNext(s, w, v), s.workers[w].task.value)
  {
  }

  /** Running the task, spinning, storing the result, clearing `th`, signalling. */
  lemma BusyKeeps(s: State, w: Wid, v: nat)
    requires Inv(s) && WorkerEnabled(s, w) && Busy(s.workers[w].pc)
    ensures Inv(WorkerNext(s, w, v))
  {
    BusyTied(s, w);
    assert WorkerOk(s, w) && TaskOk(s, s.workers[w].task.value);
    hide WorkerOk, TaskOk, Inv;
    BusyLocal(s, w, v);
    BusyTaskLocal(s, w, v);
    var s', t := WorkerNext(s, w, v), s.workers[w].task.value;
    assert s'.workers == s.workers[w := s'.workers[w]] && s'.tasks == s.tasks[t := s'.tasks[t]] && s'.idle == s.idle;
    IdleFrame(s, s');
    PairFrame(s, s', w, t);
  }

  lemma Resting(s: State, w: Wid, u: Tid)
    requires Inv(s) && w in s.workers && u in s.tasks
    requires s.workers[w].pc.LockSelf? || s.workers[w].pc.ClearTask? || s.workers[w].pc.Push?
    ensures Past(s.tasks[u], w)
  {
    assert WorkerOk(s, w) && TaskOk(s, u);
  }

  /** Letting go of the finished task and going back on the idle stack. */
  lemma RestingKeeps(s: State, w: Wid, v: nat)
    requires Inv(s) && WorkerEnabled(s, w)
    requires s.workers[w].pc.LockSelf? || s.workers[w].pc.ClearTask? || s.workers[w].pc.Push?
    ensures Inv(WorkerNext(s, w, v))
  {
    var s' := WorkerNext(s, w, v);
    assert WorkerOk(s, w);
    assert WorkerOk(s', w) && IdleOk(s');
    hide WorkerOk;
    forall u | u in s.tasks
      ensures Past(s.tasks[u], w)
    {
      Resting(s, w, u);
    }
    LoneFrame(s, s', w);
  }

  lemma WaitingLocal(s: State, s': State, w: Wid)
    requires w in s.workers && WorkerOk(s, w) && Waiting(s.workers[w])
    requires HasTask(s, w) ==> TaskOk(s, s.workers[w].task.value)
    requires (WorkerEnabled(s, w) && s' == WorkerNext(s, w, 0))
      || (s.workers[w].pc.Asleep? && s' == Next(s, WorkerSpurious(w)))
    ensures w in s'.workers && WorkerOk(s', w)
  {
  }

  /** Checking for work, sleeping, waking up and leaving the wait. */
  lemma WaitingKeeps(s: State, s': State, w: Wid)
    requires Inv(s) && w in s.workers && Waiting(s.workers[w])
    requires (WorkerEnabled(s, w) && s' == WorkerNext(s, w, 0))
      || (s.workers[w].pc.Asleep? && s' == Next(s, WorkerSpurious(w)))
    ensures Inv(s')
  {
    hide WorkerOk, TaskOk;
    var k := s.workers[w];
    assert WorkerOk(s, w) && (HasTask(s, w) ==> TaskOk(s, s.workers[w].task.value));
    WaitingLocal(s, s', w);
    assert s'.workers == s.workers[w := s'.workers[w]] && s'.tasks == s.tasks && s'.idle == s.idle;
    IdleFrame(s, s');
    if k.task.Some? {
      WaitingTaskLocal(s, s', w, k.task.value);
      PairFrame(s, s', w, k.task.value);
    } else if k.claim.Some? {
      WaitingTaskLocal(s, s', w, k.claim.value);
      PairFrame(s, s', w, k.claim.value);
    } else {
      forall u | u in s.tasks
        ensures Past(s.tasks[u], w)
      {
        OneTask(s, w, u);
      }
      LoneFrame(s, s', w);
    }
  }

  lemma WaitingTaskLocal(s: State, s': State, w: Wid, t: Tid)
    requires Inv(s) && w in s.workers && Waiting(s.workers[w])
    requires (WorkerEnabled(s, w) && s' == WorkerNext(s, w, 0))
      || (s.workers[w].pc.Asleep? && s' == Next(s, WorkerSpurious(w)))
    requires s.workers[w].task == Some(t) || s.workers[w].claim == Some(t)
    ensures t in s.tasks && Tied(s, w, t) && s'.tasks == s.tasks && TaskOk(s', t)
  {
    assert WorkerOk(s, w);
    assert TaskOk(s, t);
    WaitingTied(s, w, t);
    WaitingTask(s, s', w, t);
    hide Inv, WorkerOk, TaskOk;
  }

  lemma WaitingTied(s: State, w: Wid, t: Tid)
    requires w in s.workers && Waiting(s.workers[w]) && WorkerOk(s, w)
    requires s.workers[w].task == Some(t) || s.workers[w].claim == Some(t)
    ensures t in s.tasks && Tied(s, w, t)
  {
  }

  lemma WaitingTask(s: State, s': State, w: Wid, t: Tid)
    requires w in s.workers && Waiting(s.workers[w]) && WorkerOk(s, w) && t in s.tasks && TaskOk(s, t)
    requires (WorkerEnabled(s, w) && s' == WorkerNext(s, w, 0))
      || (s.workers[w].pc.Asleep? && s' == Next(s, WorkerSpurious(w)))
    requires s.workers[w].task == Some(t) || s.workers[w].claim == Some(t)
    ensures s'.tasks == s.tasks && TaskOk(s', t)
  {
  }

  // ----- theorems -----

  /** Every step of every party keeps the invariant. */
  lemma StepKeeps(s: State, e: Event)
    requires Inv(s) && Enabled(s, e)
    ensures Inv(Next(s, e))
  {
    hide Inv, WorkerOk, TaskOk;
    match e
    case Create(t) => CreateKeeps(s, t);
    case CreatorStep(t, w, ok) =>
      if s.tasks[t].creator == Popping {
        if s.idle == [] {
          NoneIdleKeeps(s, t);
        } else {
          PopKeeps(s, t);
        }
      } else if s.tasks[t].creator == Spawning {
        SpawnKeeps(s, t, w, ok);
      } else {
        CreatorPairKeeps(s, t);
      }
    case Join(t) => JoinKeeps(s, t);
    case JoinerStep(t) => JoinerKeeps(s, t);
    case JoinerSpurious(t) => JoinerSpuriousKeeps(s, t);
    case WorkerStep(w, v) =>
      if Busy(s.workers[w].pc) {
        BusyKeeps(s, w, v);
      } else if Waiting(s.workers[w]) {
        WaitingKeeps(s, Next(s, e), w);
      } else {
        RestingKeeps(s, w, v);
      }
    case WorkerSpurious(w) => WaitingKeeps(s, Next(s, e), w);
  }

  /** The state after a run, or nothing if some event was not enabled. */
  ghost function Run(events: seq<Event>): Option<State>
    decreases |events|
  {
    if events == [] then Some(State(map[], map[], []))
    else
      var before := Run(events[..|events| - 1]);
      var e := events[|events| - 1];
      if before.Some? && Enabled(before.value, e) then Some(Next(before.value, e)) else None
  }

  /** The invariant holds after every interleaving of any number of creators, workers and joiners. */
  lemma {:induction false} AllRuns(events: seq<Event>)
    requires Run(events).Some?
    ensures Inv(Run(events).value)
    decreases |events|
  {
    if events != [] {
      var before := events[..|events| - 1];
      AllRuns(before);
      StepKeeps(Run(before).value, events[|events| - 1]);
    }
  }

  /** A task's function runs at most once, and a join that returns gives what that run returned. */
  lemma JoinReturnsTheResult(events: seq<Event>, t: Tid)
    requires Run(events).Some? && t in Run(events).value.tasks
    ensures var T := Run(events).value.tasks[t];
      T.runs <= 1 && (T.joiner.Joined? ==> T.runs == 1 && T.ret == Some(T.joiner.v))
  {
    AllRuns(events);
    assert TaskOk(Run(events).value, t);
  }

  /** No two workers run the same task. */
  lemma OneWorkerPerTask(events: seq<Event>, t: Tid, w: Wid, x: Wid)
    requires Run(events).Some?
    requires var s := Run(events).value;
      w in s.workers && x in s.workers && Serving(s.workers[w], t) && Serving(s.workers[x], t)
    ensures w == x
  {
    AllRuns(events);
    var s := Run(events).value;
    assert WorkerOk(s, w) && WorkerOk(s, x);
  }

  /** And no worker serves two tasks: one that a creator has taken off the idle stack and is about to give a task has
      none, serves none, and is in no other creator's hands. */
  lemma NoSecondTask(events: seq<Event>, t: Tid, w: Wid)
    requires Run(events).Some? && t in Run(events).value.tasks && Claims(Run(events).value.tasks[t], w)
    ensures var s := Run(events).value;
      && w in s.workers && w !in s.idle && s.workers[w].task == None
      && (forall u :: !Serving(s.workers[w], u))
      && (forall u :: u in s.tasks && u != t ==> !RefersTo(s.tasks[u].creator, w))
  {
    AllRuns(events);
    var s := Run(events).value;
    assert TaskOk(s, t);
    forall u | u in s.tasks && u != t
      ensures !RefersTo(s.tasks[u].creator, w)
    {
      OneTask(s, w, u);
    }
  }

  /** Once a joiner has seen `th == 0` and may delete the task, neither a worker nor the creator will touch
      it again. */
  lemma NoUseAfterDelete(events: seq<Event>, t: Tid)
    requires Run(events).Some? && t in Run(events).value.tasks
    requires var j := Run(events).value.tasks[t].joiner; j.JReading? || j.JDeleting? || j.Joined?
    ensures var s := Run(events).value;
      s.tasks[t].creator == Created && forall w :: w in s.workers ==> !Serving(s.workers[w], t)
  {
    AllRuns(events);
    var s := Run(events).value;
    assert TaskOk(s, t);
    forall w | w in s.workers
      ensures !Serving(s.workers[w], t)
    {
      assert WorkerOk(s, w);
    }
  }

  /** After the worker clears `task->th` no late store by the creator brings it back: the joiner cannot be
      put to sleep for good. */
  lemma ClearedStaysCleared(events: seq<Event>, e: Event, t: Tid)
    requires Run(events).Some? && Enabled(Run(events).value, e)
    requires t in Run(events).value.tasks && Run(events).value.tasks[t].th == Zero
    ensures t in Next(Run(events).value, e).tasks && Next(Run(events).value, e).tasks[t].th == Zero
  {
    AllRuns(events);
    var s := Run(events).value;
    assert TaskOk(s, t);
    hide Run, Inv, TaskOk;
    StaysCleared(s, e, t);
  }

  lemma StaysCleared(s: State, e: Event, t: Tid)
    requires Enabled(s, e) && t in s.tasks && s.tasks[t].th == Zero
    requires !s.tasks[t].creator.StoringTh? && !s.tasks[t].creator.CopyingTh?
    ensures t in Next(s, e).tasks && Next(s, e).tasks[t].th == Zero
  {
    hide CreatorNext, WorkerNext, JoinerNext;
    if e.CreatorStep? {
      CreatorKeepsTh(s, e.t, e.w, e.ok, t);
    } else if e.WorkerStep? {
      WorkerKeepsTh(s, e.w, e.v, t);
    } else if e.JoinerStep? {
      JoinerKeepsTh(s, e.t, t);
    }
  }

  lemma CreatorKeepsTh(s: State, u: Tid, w: Wid, ok: bool, t: Tid)
    requires CreatorEnabled(s, u, w) && t in s.tasks
    requires !s.tasks[t].creator.StoringTh? && !s.tasks[t].creator.CopyingTh?
    ensures t in CreatorNext(s, u, w, ok).tasks && CreatorNext(s, u, w, ok).tasks[t].th == s.tasks[t].th
  {
  }

  lemma WorkerKeepsTh(s: State, w: Wid, v: nat, t: Tid)
    requires WorkerEnabled(s, w) && t in s.tasks && s.tasks[t].th == Zero
    ensures t in WorkerNext(s, w, v).tasks && WorkerNext(s, w, v).tasks[t].th == Zero
  {
  }

  lemma JoinerKeepsTh(s: State, u: Tid, t: Tid)
    requires JoinerEnabled(s, u) && t in s.tasks
    ensures t in JoinerNext(s, u).tasks && JoinerNext(s, u).tasks[t].th == s.tasks[t].th
  {
  }

  /** The condition module IdleStack puts on its callers: a worker pushes itself, and only when it is neither on
      the idle stack nor in the hands of a creator. */
  lemma PushesAreFresh(events: seq<Event>, w: Wid)
    requires Run(events).Some? && w in Run(events).value.workers && Run(events).value.workers[w].pc.Push?
    ensures var s := Run(events).value;
      w !in s.idle && forall t :: t in s.tasks ==> !RefersTo(s.tasks[t].creator, w)
  {
    AllRuns(events);
    var s := Run(events).value;
    assert WorkerOk(s, w);
    forall t | t in s.tasks
      ensures !RefersTo(s.tasks[t].creator, w)
    {
      Resting(s, w, t);
    }
  }

  /** A step that some party takes on its own account: no new calls, no spurious wake-up. */
  predicate Productive(s: State, e: Event) {
    Enabled(s, e) && (e.CreatorStep? || e.JoinerStep? || e.WorkerStep?) && Next(s, e) != s
  }

  /** The task's function has been run and its worker is done with it; only the call of join is missing. */
  predicate AwaitsJoin(s: State, t: Tid) {
    t in s.tasks && s.tasks[t].th == Zero && Enabled(s, Join(t))
  }

  /** As long as a task has not been joined the system is not stuck: somebody inside it can take a step, or the task
      is finished and waits for its join to be called. No wake-up is lost and no lock is held by a sleeper. */
  lemma NeverStuck(events: seq<Event>, t: Tid) returns (e: Event)
    requires Run(events).Some? && t in Run(events).value.tasks
    requires !Run(events).value.tasks[t].creator.Failed? && !Run(events).value.tasks[t].joiner.Joined?
    ensures Productive(Run(events).value, e) || AwaitsJoin(Run(events).value, t)
  {
    AllRuns(events);
    hide Inv, Run, Productive, AwaitsJoin;
    var s := Run(events).value;
    if s.tasks[t].creator == Created {
      e := AfterCreation(s, t);
    } else {
      e := CreatorMove(s, t);
    }
  }

  lemma AfterCreation(s: State, t: Tid) returns (e: Event)
    requires Inv(s) && t in s.tasks && s.tasks[t].creator == Created && !s.tasks[t].joiner.Joined?
    ensures Productive(s, e) || AwaitsJoin(s, t)
  {
    assert TaskOk(s, t);
    var T := s.tasks[t];
    e := JoinerStep(t);
    if JoinerEnabled(s, t) {
    } else if T.mu.HeldByWorker? {
      e := WorkerStep(T.mu.w, 0);
      WorkerCanMove(s, T.mu.w, t);
    } else if T.th != Zero {
      e := WorkerStep(T.server.value, 0);
      WorkerCanMove(s, T.server.value, t);
    }
  }

  /** The worker of a created, unfinished task can always take a step. */
  lemma WorkerCanMove(s: State, w: Wid, t: Tid)
    requires Inv(s) && t in s.tasks && w in s.workers && s.tasks[t].creator == Created
    requires (OwnedOk(s, t, w) && s.tasks[t].th != Zero && s.tasks[t].mu == TaskFree)
             || (Serving(s.workers[w], t) && MidTask(s.workers[w].pc))
    ensures Productive(s, WorkerStep(w, 0))
  {
    assert WorkerOk(s, w) && TaskOk(s, t);
  }

  lemma {:induction false} UnusedId(ids: set<Wid>) returns (w: Wid)
    ensures forall x :: x in ids ==> x < w
  {
    w := 0;
    if ids != {} {
      var x :| x in ids;
      var v := UnusedId(ids - {x});
      w := if v <= x then x + 1 else v;
      forall y | y in ids
        ensures y < w
      {
        assert y == x || y in ids - {x};
      }
    }
  }

  /** So can the creator of a task, or the worker whose lock it waits for. */
  lemma CreatorMove(s: State, t: Tid) returns (e: Event)
    requires Inv(s) && t in s.tasks && s.tasks[t].creator != Created && !s.tasks[t].creator.Failed?
    ensures Productive(s, e)
  {
    assert TaskOk(s, t);
    var c := s.tasks[t].creator;
    var w := UnusedId(s.workers.Keys);
    e := CreatorStep(t, w, false);
    if c.Locking? && s.workers[c.w].mu != WorkerFree {
      e := WorkerStep(c.w, 0);
      LockIsReleased(s, t, c.w);
    } else {
      CreatorCanMove(s, t, w);
    }
  }

  lemma CreatorCanMove(s: State, t: Tid, w: Wid)
    requires Inv(s) && t in s.tasks && s.tasks[t].creator != Created && !s.tasks[t].creator.Failed? && w !in s.workers
    requires s.tasks[t].creator.Locking? ==>
               s.tasks[t].creator.w in s.workers && s.workers[s.tasks[t].creator.w].mu == WorkerFree
    ensures Productive(s, CreatorStep(t, w, false))
  {
    assert TaskOk(s, t);
    var c := s.tasks[t].creator;
    assert CreatorEnabled(s, t, w);
    assert CreatorNext(s, t, w, false).tasks[t].creator != c;
  }

  /** A popped worker that still holds its own lock is about to go to sleep and let go of it. */
  lemma LockIsReleased(s: State, t: Tid, w: Wid)
    requires Inv(s) && t in s.tasks && s.tasks[t].creator == Locking(w) && w in s.workers
      && s.workers[w].mu != WorkerFree
    ensures Productive(s, WorkerStep(w, 0))
  {
    assert TaskOk(s, t) && WorkerOk(s, w);
  }
}
