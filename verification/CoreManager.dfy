/** CoreManager::acquire and CoreManager::release of llamafile/core_manager.cpp, as interleaved atomic steps
    of any number of callers. */
module CoreManager {

  /** One call of `acquire`: what was asked for, what `greed` has been lowered to, and what it got so far. */
  datatype Ask = Ask(need: nat, greed: nat, limit: nat, got: nat)

  datatype Pc =
    | Out                   // not in a call
    | Lock(a: Ask)          // first loop, before pthread_mutex_lock
    | Take(a: Ask)          // first loop, holding the lock
    | Asleep(a: Ask)        // in pthread_cond_wait
    | Wake(a: Ask)          // signalled, about to take the lock again
    | Unlock(a: Ask)        // first loop, about to unlock
    | Try(a: Ask)           // second loop, before pthread_mutex_trylock
    | TakeMore(a: Ask)      // second loop, holding the lock
    | UnlockMore(a: Ask)
    | LockBack(count: nat)  // release, before the lock
    | GiveBack(count: nat)
    | Signal
    | UnlockBack

  /** A caller: the cores it holds from finished calls, and the last finished `acquire`. */
  datatype Caller = Caller(held: nat, pc: Pc, last: Ask)

  datatype State = State(used: int, total: nat, locked: bool, callers: seq<Caller>)

  datatype Event =
    | Acquire(i: nat, need: nat, greed: nat)
    | Release(i: nat, count: nat)
    | Move(i: nat, wake: nat)  // the caller's next step; `wake` is whom a signal wakes, if it is asleep
    | Spurious(i: nat)

  predicate Blocked(s: State, pc: Pc) {
    s.locked && (pc.Lock? || pc.Wake? || pc.LockBack?)
  }

  ghost predicate SomeAsleep(callers: seq<Caller>) {
    exists j :: 0 <= j < |callers| && callers[j].pc.Asleep?
  }

  /** Callers ask for at least one core, never for less greed than need, and give back only what they hold. A signal
      wakes somebody if anybody is asleep. */
  ghost predicate Enabled(s: State, e: Event) {
    e.i < |s.callers| &&
    var k := s.callers[e.i];
    match e
    case Acquire(_, need, greed) => k.pc.Out? && 1 <= need <= greed
    case Release(_, count) => k.pc.Out? && count <= k.held
    case Move(_, wake) =>
      && !k.pc.Out? && !k.pc.Asleep? && !Blocked(s, k.pc)
      && (k.pc.Signal? && SomeAsleep(s.callers) ==> wake < |s.callers| && s.callers[wake].pc.Asleep?)
    case Spurious(_) => k.pc.Asleep?
  }

  /** The head of the first loop: lock again, or go on to the second loop. */
  function Loop(a: Ask): Pc {
    if a.got < a.need then Lock(a) else Try(a)
  }

  function Put(s: State, i: nat, k: Caller): State
    requires i < |s.callers|
  {
    s.(callers := s.callers[i := k])
  }

  function Return(s: State, i: nat, a: Ask): State
    requires i < |s.callers|
  {
    Put(s, i, Caller(s.callers[i].held + a.got, Out, a))
  }

  function Woken(s: State, j: nat): State {
    if j < |s.callers| && s.callers[j].pc.Asleep? then Put(s, j, s.callers[j].(pc := Wake(s.callers[j].pc.a))) else s
  }

  function Next(s: State, e: Event): State
    requires Enabled(s, e)
  {
    var i, k := e.i, s.callers[e.i];
    match e
    case Acquire(_, need, greed) => Put(s, i, k.(pc := Loop(Ask(need, greed, greed, 0))))
    case Release(_, count) => Put(s, i, k.(pc := LockBack(count)))
    case Spurious(_) => Put(s, i, k.(pc := Wake(k.pc.a)))
    case Move(_, wake) =>
      match k.pc
      case Lock(a) => Put(s, i, k.(pc := Take(a))).(locked := true)
      case Take(a) =>
        if s.used < s.total then Put(s, i, k.(pc := Unlock(a.(got := a.got + 1)))).(used := s.used + 1)
        else Put(s, i, k.(pc := Asleep(a))).(locked := false)
      case Wake(a) => Put(s, i, k.(pc := Unlock(a))).(locked := true)
      case Unlock(a) => Put(s, i, k.(pc := Loop(a))).(locked := false)
      case Try(a) =>
        if a.got >= a.limit || s.locked then Return(s, i, a) else Put(s, i, k.(pc := TakeMore(a))).(locked := true)
      case TakeMore(a) =>
        if s.used < s.total then Put(s, i, k.(pc := UnlockMore(a.(got := a.got + 1)))).(used := s.used + 1)
        else Put(s, i, k.(pc := UnlockMore(a.(limit := a.got))))
      case UnlockMore(a) => Put(s, i, k.(pc := Try(a))).(locked := false)
      case LockBack(count) => Put(s, i, k.(pc := GiveBack(count))).(locked := true)
      case GiveBack(count) =>
        var left := s.used - count;
        if left >= 0 then Put(s, i, k.(pc := Signal, held := k.held - Min(count, k.held))).(used := left)
        else Put(s, i, k.(pc := Signal, held := k.held - Min(count, k.held))).(used := 0)
      case Signal => Put(Woken(s, wake), i, k.(pc := UnlockBack))
      case UnlockBack => Put(s, i, k.(pc := Out)).(locked := false)
      case Asleep(_) => s
      case Out => s
  }

  function Min(a: nat, b: nat): nat { if a < b then a else b }

  // ----- the invariant -----

  function Pending(pc: Pc): nat {
    if pc.Lock? || pc.Take? || pc.Asleep? || pc.Wake? || pc.Unlock? || pc.Try? || pc.TakeMore? || pc.UnlockMore?
    then pc.a.got
    else 0
  }

  /** Cores a caller holds, finished calls and the one in progress together. */
  function Cores(k: Caller): nat { k.held + Pending(k.pc) }

  function Sum(callers: seq<Caller>): nat {
    if callers == [] then 0 else Sum(callers[..|callers| - 1]) + Cores(callers[|callers| - 1])
  }

  ghost predicate AskOk(pc: Pc) {
    && (pc.Lock? || pc.Take? || pc.Asleep? || pc.Wake? ==>
      pc.a.got < pc.a.need <= pc.a.greed && pc.a.limit == pc.a.greed)
    && (pc.Unlock? ==> pc.a.got <= pc.a.need <= pc.a.greed && pc.a.limit == pc.a.greed)
    && (pc.Try? || pc.UnlockMore? ==> pc.a.need <= pc.a.got <= pc.a.limit <= pc.a.greed)
    && (pc.TakeMore? ==> pc.a.need <= pc.a.got < pc.a.limit <= pc.a.greed)
  }

  ghost predicate CallerOk(k: Caller) {
    && AskOk(k.pc)
    && k.last.need <= k.last.got <= k.last.greed
    && (k.pc.LockBack? || k.pc.GiveBack? ==> k.pc.count <= k.held)
  }

  ghost predicate Holds(pc: Pc) {
    pc.Take? || pc.Unlock? || pc.TakeMore? || pc.UnlockMore? || pc.GiveBack? || pc.Signal? || pc.UnlockBack?
  }

  ghost predicate Inv(s: State) {
    && 0 <= s.used <= s.total
    && s.used == Sum(s.callers)
    && (forall i :: 0 <= i < |s.callers| ==> CallerOk(s.callers[i]))
    && (forall i :: 0 <= i < |s.callers| && Holds(s.callers[i].pc) ==> s.locked)
    && (forall i, j :: 0 <= i < j < |s.callers| && Holds(s.callers[i].pc) ==> !Holds(s.callers[j].pc))
  }

  lemma {:induction false} SumUpdate(c: seq<Caller>, i: nat, k: Caller)
    requires i < |c|
    ensures Sum(c[i := k]) == Sum(c) - Cores(c[i]) + Cores(k)
  {
    var n := |c| - 1;
    if i < n {
      assert c[i := k][..n] == c[..n][i := k];
      SumUpdate(c[..n], i, k);
    } else {
      assert c[i := k][..n] == c[..n];
    }
  }

  lemma {:induction false} CoresAreCounted(c: seq<Caller>, i: nat)
    requires i < |c|
    ensures Cores(c[i]) <= Sum(c)
  {
    if i < |c| - 1 {
      CoresAreCounted(c[..|c| - 1], i);
    }
  }

  /** A step of caller `i` alone keeps the invariant if the count moves with what the caller holds and the lock
      is taken only when free. */
  lemma OneCaller(s: State, s': State, i: nat)
    requires Inv(s) && i < |s.callers| && |s'.callers| == |s.callers| && s'.total == s.total
    requires s'.callers == s.callers[i := s'.callers[i]] && CallerOk(s'.callers[i])
    requires s'.used == s.used - Cores(s.callers[i]) + Cores(s'.callers[i]) && 0 <= s'.used <= s'.total
    requires Holds(s'.callers[i].pc) ==> s'.locked && (Holds(s.callers[i].pc) || !s.locked)
    requires !Holds(s'.callers[i].pc) && !Holds(s.callers[i].pc) ==> s'.locked == s.locked
    ensures Inv(s')
  {
    SumUpdate(s.callers, i, s'.callers[i]);
  }

  ghost predicate FirstLoop(pc: Pc) {
    pc.Lock? || pc.Take? || pc.Asleep? || pc.Wake? || pc.Unlock?
  }

  ghost predicate LocalMove(s: State, e: Event)
    requires Enabled(s, e)
  {
    var s', i := Next(s, e), e.i;
    && |s'.callers| == |s.callers| && s'.callers == s.callers[i := s'.callers[i]] && CallerOk(s'.callers[i])
    && s'.total == s.total
    && s'.used == s.used - Cores(s.callers[i]) + Cores(s'.callers[i]) && 0 <= s'.used <= s'.total
    && (Holds(s'.callers[i].pc) ==> s'.locked && (Holds(s.callers[i].pc) || !s.locked))
    && (!Holds(s'.callers[i].pc) && !Holds(s.callers[i].pc) ==> s'.locked == s.locked)
  }

  lemma FirstLoopIsLocal(s: State, e: Event)
    requires Enabled(s, e) && 0 <= s.used <= s.total && CallerOk(s.callers[e.i])
    requires Cores(s.callers[e.i]) <= s.used && FirstLoop(s.callers[e.i].pc)
    requires Holds(s.callers[e.i].pc) ==> s.locked
    ensures LocalMove(s, e)
  {
  }

  ghost predicate SecondLoop(pc: Pc) {
    pc.Try? || pc.TakeMore? || pc.UnlockMore?
  }

  lemma SecondLoopIsLocal(s: State, e: Event)
    requires Enabled(s, e) && 0 <= s.used <= s.total && CallerOk(s.callers[e.i])
    requires Cores(s.callers[e.i]) <= s.used && SecondLoop(s.callers[e.i].pc)
    requires Holds(s.callers[e.i].pc) ==> s.locked
    ensures LocalMove(s, e)
  {
  }

  lemma OutsideIsLocal(s: State, e: Event)
    requires Enabled(s, e) && 0 <= s.used <= s.total && CallerOk(s.callers[e.i])
    requires !FirstLoop(s.callers[e.i].pc) && !SecondLoop(s.callers[e.i].pc)
    requires Cores(s.callers[e.i]) <= s.used && !(e.Move? && s.callers[e.i].pc.Signal?)
    requires Holds(s.callers[e.i].pc) ==> s.locked
    ensures LocalMove(s, e)
  {
  }

  lemma MoveIsLocal(s: State, e: Event)
    requires Enabled(s, e) && 0 <= s.used <= s.total && CallerOk(s.callers[e.i])
    requires Cores(s.callers[e.i]) <= s.used && !(e.Move? && s.callers[e.i].pc.Signal?)
    requires Holds(s.callers[e.i].pc) ==> s.locked
    ensures LocalMove(s, e)
  {
    hide LocalMove, CallerOk, Cores, FirstLoop, SecondLoop, Holds, SomeAsleep;
    if FirstLoop(s.callers[e.i].pc) {
      FirstLoopIsLocal(s, e);
    } else if SecondLoop(s.callers[e.i].pc) {
      SecondLoopIsLocal(s, e);
    } else {
      OutsideIsLocal(s, e);
    }
  }

  /** Every step keeps the count: `used_` is the sum of what the callers hold, and never exceeds `total_`. */
  lemma StepKeeps(s: State, e: Event)
    requires Inv(s) && Enabled(s, e)
    ensures Inv(Next(s, e))
  {
    if e.Move? && s.callers[e.i].pc.Signal? {
      SignalKeeps(s, e);
    } else {
      CoresAreCounted(s.callers, e.i);
      MoveIsLocal(s, e);
      hide Next, CallerOk, Sum, Cores;
      OneCaller(s, Next(s, e), e.i);
    }
  }

  lemma WokenKeeps(s: State, j: nat)
    requires Inv(s)
    ensures Inv(Woken(s, j)) && |Woken(s, j).callers| == |s.callers|
  {
    if j < |s.callers| && s.callers[j].pc.Asleep? {
      assert CallerOk(s.callers[j]);
      OneCaller(s, Woken(s, j), j);
    }
  }

  lemma SignalKeeps(s: State, e: Event)
    requires Inv(s) && Enabled(s, e) && e.Move? && s.callers[e.i].pc.Signal?
    ensures Inv(Next(s, e))
  {
    WokenKeeps(s, e.wake);
    var w := Woken(s, e.wake);
    assert w.callers[e.i] == s.callers[e.i] && CallerOk(s.callers[e.i]);
    OneCaller(w, Next(s, e), e.i);
  }

  // ----- theorems -----

  ghost predicate Init(s: State) {
    s.used == 0 && !s.locked && forall i :: 0 <= i < |s.callers| ==> s.callers[i] == Caller(0, Out, Ask(0, 0, 0, 0))
  }

  datatype Reached = Reached(s: State) | Refused

  /** The state after a run, unless some event was not enabled. */
  ghost function Run(s0: State, events: seq<Event>): Reached
    decreases |events|
  {
    if events == [] then Reached(s0)
    else
      var before := Run(s0, events[..|events| - 1]);
      var e := events[|events| - 1];
      if before.Reached? && Enabled(before.s, e) then Reached(Next(before.s, e)) else Refused
  }

  lemma {:induction false} SumOfNothing(c: seq<Caller>)
    requires forall i :: 0 <= i < |c| ==> Cores(c[i]) == 0
    ensures Sum(c) == 0
  {
    if c != [] {
      SumOfNothing(c[..|c| - 1]);
    }
  }

  lemma {:induction false} AllRuns(s0: State, events: seq<Event>)
    requires Init(s0) && Run(s0, events).Reached?
    ensures Inv(Run(s0, events).s)
    decreases |events|
  {
    if events == [] {
      SumOfNothing(s0.callers);
    } else {
      var before := events[..|events| - 1];
      AllRuns(s0, before);
      hide Inv, Next;
      StepKeeps(Run(s0, before).s, events[|events| - 1]);
    }
  }

  /** In every interleaving `used_` is exactly the cores held by finished and unfinished calls, and within
      bounds. */
  lemma CountIsExact(s0: State, events: seq<Event>)
    requires Init(s0) && Run(s0, events).Reached?
    ensures var s := Run(s0, events).s; 0 <= s.used <= s.total && s.used == Sum(s.callers)
  {
    AllRuns(s0, events);
  }

  /** Whatever `acquire` last returned to a caller lies between its need and its greed. */
  lemma GotEnough(s0: State, events: seq<Event>, i: nat)
    requires Init(s0) && Run(s0, events).Reached? && i < |Run(s0, events).s.callers|
    ensures var a := Run(s0, events).s.callers[i].last; a.need <= a.got <= a.greed
  {
    AllRuns(s0, events);
    assert CallerOk(Run(s0, events).s.callers[i]);
  }

  /** A `release` never drives the count below zero, so its assertion holds. */
  lemma ReleaseNeverUnderflows(s0: State, events: seq<Event>, i: nat)
    requires Init(s0) && Run(s0, events).Reached? && i < |Run(s0, events).s.callers|
    requires Run(s0, events).s.callers[i].pc.GiveBack?
    ensures Run(s0, events).s.used - Run(s0, events).s.callers[i].pc.count >= 0
  {
    AllRuns(s0, events);
    var s := Run(s0, events).s;
    assert CallerOk(s.callers[i]);
    CoresAreCounted(s.callers, i);
  }

  // ----- what a caller holds -----

  /** The cores caller `i` has got from the calls of `acquire` that returned. */
  ghost function Returned(s0: State, events: seq<Event>, i: nat): nat
    requires Run(s0, events).Reached?
    decreases |events|
  {
    if events == [] then 0
    else
      var before, e := events[..|events| - 1], events[|events| - 1];
      var s, t := Run(s0, before).s, Run(s0, events).s;
      Returned(s0, before, i)
      + if e.i == i && i < |s.callers| && i < |t.callers| && s.callers[i].pc.Try? && t.callers[i].pc.Out?
        then s.callers[i].pc.a.got else 0
  }

  /** The cores it has given back, or is about to. */
  function Given(events: seq<Event>, i: nat): nat {
    if events == [] then 0
    else
      var e := events[|events| - 1];
      Given(events[..|events| - 1], i) + if e.Release? && e.i == i then e.count else 0
  }

  function GivingBack(pc: Pc): nat {
    if pc.LockBack? || pc.GiveBack? then pc.count else 0
  }

  lemma StepBooks(s: State, e: Event, i: nat)
    requires Inv(s) && Enabled(s, e) && i < |s.callers|
    ensures |Next(s, e).callers| == |s.callers|
    ensures var k, t := s.callers[i], Next(s, e).callers[i];
      t.held - GivingBack(t.pc)
      == k.held - GivingBack(k.pc) - (if e.Release? && e.i == i then e.count else 0)
         + if e.i == i && k.pc.Try? && t.pc.Out? then k.pc.a.got else 0
  {
    assert CallerOk(s.callers[i]) && CallerOk(s.callers[e.i]);
    hide Inv;
    if e.Move? && s.callers[e.i].pc.Signal? {
      hide CallerOk;
      WokenBooks(s, e.wake, i);
    } else {
      OwnBooks(s, e);
    }
  }

  lemma OwnBooks(s: State, e: Event)
    requires Enabled(s, e) && CallerOk(s.callers[e.i]) && !(e.Move? && s.callers[e.i].pc.Signal?)
    ensures Next(s, e).callers == s.callers[e.i := Next(s, e).callers[e.i]]
    ensures var k, t := s.callers[e.i], Next(s, e).callers[e.i];
      t.held - GivingBack(t.pc)
      == k.held - GivingBack(k.pc) - (if e.Release? then e.count else 0)
         + if k.pc.Try? && t.pc.Out? then k.pc.a.got else 0
  {
  }

  lemma WokenBooks(s: State, j: nat, i: nat)
    requires i < |s.callers|
    ensures |Woken(s, j).callers| == |s.callers| && Woken(s, j).callers[i].held == s.callers[i].held
    ensures GivingBack(Woken(s, j).callers[i].pc) == GivingBack(s.callers[i].pc)
    ensures s.callers[i].pc.Out? == Woken(s, j).callers[i].pc.Out?
  {
  }

  /** Over every run the books balance, caller by caller: it holds what its calls of `acquire` returned less what it
      gave to `release`. */
  lemma {:induction false} BooksBalance(s0: State, events: seq<Event>, i: nat)
    requires Init(s0) && Run(s0, events).Reached? && i < |s0.callers|
    ensures |Run(s0, events).s.callers| == |s0.callers|
    ensures var k := Run(s0, events).s.callers[i];
      k.held - GivingBack(k.pc) == Returned(s0, events, i) - Given(events, i)
    decreases |events|
  {
    if events != [] {
      var n := |events| - 1;
      BooksBalance(s0, events[..n], i);
      AllRuns(s0, events[..n]);
      hide Inv, Enabled, Next, GivingBack;
      StepBooks(Run(s0, events[..n]).s, events[n], i);
    }
  }

  // ----- who wakes up -----

  /** A caller that is about to look for a core again, or about to signal. */
  function Weight(k: Caller): nat {
    match k.pc
    case Lock(_) => 1
    case Take(_) => 1
    case Wake(_) => 1
    case Unlock(a) => if a.got < a.need then 1 else 0
    case Signal => 1
    case _ => 0
  }

  function Lookers(callers: seq<Caller>): nat {
    if callers == [] then 0 else Lookers(callers[..|callers| - 1]) + Weight(callers[|callers| - 1])
  }

  lemma {:induction false} LookersUpdate(c: seq<Caller>, i: nat, k: Caller)
    requires i < |c|
    ensures Lookers(c[i := k]) == Lookers(c) - Weight(c[i]) + Weight(k)
  {
    var n := |c| - 1;
    if i < n {
      assert c[i := k][..n] == c[..n][i := k];
      LookersUpdate(c[..n], i, k);
    } else {
      assert c[i := k][..n] == c[..n];
    }
  }

  lemma {:induction false} SomeLooker(c: seq<Caller>) returns (i: nat)
    requires Lookers(c) > 0
    ensures i < |c| && Weight(c[i]) > 0
  {
    var n := |c| - 1;
    if Weight(c[n]) > 0 {
      i := n;
    } else {
      i := SomeLooker(c[..n]);
    }
  }

  /** As long as anybody sleeps, there are no more free cores than callers about to look for one. */
  ghost predicate NoneForgotten(s: State) {
    && (SomeAsleep(s.callers) ==> s.total - s.used <= Lookers(s.callers))
    && forall i :: 0 <= i < |s.callers| ==> GivingBack(s.callers[i].pc) <= 1
  }

  lemma OtherAsleep(c: seq<Caller>, i: nat, k: Caller)
    requires i < |c| && !k.pc.Asleep? && SomeAsleep(c[i := k])
    ensures SomeAsleep(c)
  {
    var j :| 0 <= j < |c| && c[i := k][j].pc.Asleep?;
    assert c[j].pc.Asleep?;
  }

  /** What one caller's step may do to that. */
  lemma OneForgetsNone(s: State, s': State, i: nat)
    requires NoneForgotten(s) && i < |s.callers| && |s'.callers| == |s.callers|
    requires s'.callers == s.callers[i := s'.callers[i]] && s'.total == s.total && GivingBack(s'.callers[i].pc) <= 1
    requires (!s'.callers[i].pc.Asleep? && s'.used - Weight(s.callers[i]) + Weight(s'.callers[i]) >= s.used)
             || s'.used >= s'.total
    ensures NoneForgotten(s')
  {
    LookersUpdate(s.callers, i, s'.callers[i]);
    if SomeAsleep(s'.callers) && !s'.callers[i].pc.Asleep? {
      OtherAsleep(s.callers, i, s'.callers[i]);
    }
  }

  lemma MoveForgetsNone(s: State, e: Event)
    requires Inv(s) && NoneForgotten(s) && Enabled(s, e) && !(e.Move? && s.callers[e.i].pc.Signal?)
    requires e.Release? ==> e.count <= 1
    ensures NoneForgotten(Next(s, e))
  {
    var i, s' := e.i, Next(s, e);
    assert CallerOk(s.callers[i]) && GivingBack(s.callers[i].pc) <= 1;
    CoresAreCounted(s.callers, i);
    hide Sum, Lookers, NoneForgotten, SomeAsleep;
    OneForgetsNone(s, s', i);
  }

  lemma SignalForgetsNone(s: State, e: Event)
    requires Inv(s) && NoneForgotten(s) && Enabled(s, e) && e.Move? && s.callers[e.i].pc.Signal?
    ensures NoneForgotten(Next(s, e))
  {
    var i, j, w := e.i, e.wake, Woken(s, e.wake);
    var s' := Next(s, e);
    LookersUpdate(w.callers, i, s'.callers[i]);
    if j < |s.callers| && s.callers[j].pc.Asleep? {
      LookersUpdate(s.callers, j, w.callers[j]);
    }
    if SomeAsleep(s'.callers) {
      OtherAsleep(w.callers, i, s'.callers[i]);
      if j < |s.callers| && s.callers[j].pc.Asleep? {
        OtherAsleep(s.callers, j, w.callers[j]);
      }
    }
  }

  /** No release of the run gives back more than one core. */
  predicate OneByOne(events: seq<Event>) {
    forall k :: 0 <= k < |events| && events[k].Release? ==> events[k].count <= 1
  }

  lemma {:induction false} OneByOneForgetsNone(s0: State, events: seq<Event>)
    requires Init(s0) && Run(s0, events).Reached? && OneByOne(events)
    ensures NoneForgotten(Run(s0, events).s)
    decreases |events|
  {
    if events == [] {
      assert !SomeAsleep(s0.callers);
    } else {
      var n := |events| - 1;
      OneByOneForgetsNone(s0, events[..n]);
      AllRuns(s0, events[..n]);
      hide Inv, Enabled, Next, NoneForgotten;
      if events[n].Move? && Run(s0, events[..n]).s.callers[events[n].i].pc.Signal? {
        SignalForgetsNone(Run(s0, events[..n]).s, events[n]);
      } else {
        MoveForgetsNone(Run(s0, events[..n]).s, events[n]);
      }
    }
  }

  /** A caller sleeps although there is a free core and nobody is left who would wake it. */
  ghost predicate Stranded(s: State) {
    && SomeAsleep(s.callers) && s.used < s.total
    && forall i :: 0 <= i < |s.callers| ==> s.callers[i].pc.Out? || s.callers[i].pc.Asleep?
  }

  /** As long as cores are given back one at a time nobody is stranded. */
  lemma NobodyStranded(s0: State, events: seq<Event>)
    requires Init(s0) && Run(s0, events).Reached? && OneByOne(events)
    ensures !Stranded(Run(s0, events).s)
  {
    OneByOneForgetsNone(s0, events);
    var s := Run(s0, events).s;
    if Stranded(s) {
      var _ := SomeLooker(s.callers);
    }
  }

  // ----- more than one core at a time -----

  ghost predicate Reachable(s0: State, s: State, n: nat) {
    exists events :: Run(s0, events) == Reached(s) && ReleasesOnly(events, n)
  }

  /** Every release of the run gives back `n` cores. */
  predicate ReleasesOnly(events: seq<Event>, n: nat) {
    forall k :: 0 <= k < |events| && events[k].Release? ==> events[k].count == n
  }

  lemma Extend(s0: State, s: State, n: nat, e: Event)
    requires Reachable(s0, s, n) && Enabled(s, e) && (e.Release? ==> e.count == n)
    ensures Reachable(s0, Next(s, e), n)
  {
    var events :| Run(s0, events) == Reached(s) && ReleasesOnly(events, n);
    var more := events + [e];
    assert more[..|more| - 1] == events && more[|more| - 1] == e;
    assert Run(s0, more) == Reached(Next(s, e)) && ReleasesOnly(more, n);
  }

  /** Three callers, nobody holding the lock. */
  ghost function Three(used: nat, total: nat, a: Caller, b: Caller, c: Caller): State {
    State(used, total, false, [a, b, c])
  }

  /** A caller that wants exactly `need` cores, gets them one after the other. */
  lemma {:induction false} TakesAll(s0: State, n: nat, need: nat, got: nat, b: Caller, c: Caller)
    requires 1 <= need <= n && got <= need && b.pc.Out? && c.pc.Out?
    requires Reachable(s0, Three(got, need, Caller(0, Loop(Ask(need, need, need, got)), Ask(0, 0, 0, 0)), b, c), n)
    ensures Reachable(s0, Three(need, need, Caller(0, Loop(Ask(need, need, need, need)), Ask(0, 0, 0, 0)), b, c), n)
    decreases need - got
  {
    hide Reachable;
    if got < need {
      var s := Three(got, need, Caller(0, Loop(Ask(need, need, need, got)), Ask(0, 0, 0, 0)), b, c);
      var t := TakeOne(s0, n, s, 0, Ask(need, need, need, got));
      assert t == Three(got + 1, need, Caller(0, Loop(Ask(need, need, need, got + 1)), Ask(0, 0, 0, 0)), b, c);
      TakesAll(s0, n, need, got + 1, b, c);
    }
  }

  /** Lock, take, unlock. */
  lemma TakeOne(s0: State, n: nat, s: State, i: nat, a: Ask) returns (t: State)
    requires Reachable(s0, s, n) && i < |s.callers| && s.callers[i].pc == Lock(a) && !s.locked && 0 <= s.used < s.total
    ensures t == s.(used := s.used + 1, callers := s.callers[i := s.callers[i].(pc := Loop(a.(got := a.got + 1)))])
    ensures Reachable(s0, t, n)
  {
    hide Reachable;
    Extend(s0, s, n, Move(i, 0));
    var s1 := Next(s, Move(i, 0));
    Extend(s0, s1, n, Move(i, 0));
    var s2 := Next(s1, Move(i, 0));
    Extend(s0, s2, n, Move(i, 0));
    t := Next(s2, Move(i, 0));
  }

  /** Somebody asks for a core when there is none, and goes to sleep. */
  lemma FallsAsleep(s0: State, n: nat, s: State, i: nat) returns (t: State)
    requires Reachable(s0, s, n) && i < |s.callers| && s.callers[i].pc.Out? && !s.locked && s.used == s.total
    ensures t == s.(callers := s.callers[i := s.callers[i].(pc := Asleep(Ask(1, 1, 1, 0)))]) && Reachable(s0, t, n)
  {
    hide Reachable;
    Extend(s0, s, n, Acquire(i, 1, 1));
    var s1 := Next(s, Acquire(i, 1, 1));
    Extend(s0, s1, n, Move(i, 0));
    var s2 := Next(s1, Move(i, 0));
    Extend(s0, s2, n, Move(i, 0));
    t := Next(s2, Move(i, 0));
  }

  /** A caller with all it asked for returns. */
  lemma Returns(s0: State, n: nat, s: State, i: nat, a: Ask) returns (t: State)
    requires Reachable(s0, s, n) && i < |s.callers| && s.callers[i].pc == Try(a) && a.got >= a.limit
    ensures t == Return(s, i, a) && Reachable(s0, t, n)
  {
    hide Reachable;
    Extend(s0, s, n, Move(i, 0));
    t := Next(s, Move(i, 0));
  }

  /** A release: lock, give back, signal, unlock. */
  lemma GivesBack(s0: State, n: nat, s: State, i: nat, j: nat) returns (t: State)
    requires Reachable(s0, s, n) && i < |s.callers| && s.callers[i].pc.Out? && s.callers[i].held == n <= s.used
    requires !s.locked && j < |s.callers| && j != i && s.callers[j].pc.Asleep?
    ensures t == s.(used := s.used - n, callers := s.callers[i := s.callers[i].(held := 0)]
                                                            [j := s.callers[j].(pc := Wake(s.callers[j].pc.a))])
    ensures Reachable(s0, t, n)
  {
    hide Reachable;
    Extend(s0, s, n, Release(i, n));
    var s1 := Next(s, Release(i, n));
    Extend(s0, s1, n, Move(i, j));
    var s2 := Next(s1, Move(i, j));
    Extend(s0, s2, n, Move(i, j));
    var s3 := Next(s2, Move(i, j));
    assert s3.callers[j].pc.Asleep?;
    Extend(s0, s3, n, Move(i, j));
    var s4 := Next(s3, Move(i, j));
    Extend(s0, s4, n, Move(i, j));
    t := Next(s4, Move(i, j));
  }

  /** The woken caller unlocks, and finds its core. */
  lemma WakesAndTakes(s0: State, n: nat, s: State, j: nat) returns (t: State)
    requires Reachable(s0, s, n) && j < |s.callers| && s.callers[j].pc == Wake(Ask(1, 1, 1, 0))
    requires !s.locked && 0 <= s.used < s.total
    ensures t == s.(used := s.used + 1,
                    callers := s.callers[j := Caller(s.callers[j].held + 1, Out, Ask(1, 1, 1, 1))])
    ensures Reachable(s0, t, n)
  {
    hide Reachable;
    Extend(s0, s, n, Move(j, 0));
    var s1 := Next(s, Move(j, 0));
    Extend(s0, s1, n, Move(j, 0));
    var s2 := Next(s1, Move(j, 0));
    var s3 := TakeOne(s0, n, s2, j, Ask(1, 1, 1, 0));
    t := Returns(s0, n, s3, j, Ask(1, 1, 1, 1));
  }

  lemma ThreeSet(used: nat, total: nat, a: Caller, b: Caller, c: Caller, k: Caller)
    ensures var s := Three(used, total, a, b, c);
      && !s.locked && s.used == used && s.total == total && s.callers == [a, b, c]
      && s.(callers := s.callers[0 := k]) == Three(used, total, k, b, c)
      && s.(callers := s.callers[1 := k]) == Three(used, total, a, k, c)
      && s.(callers := s.callers[2 := k]) == Three(used, total, a, b, k)
  {
  }

  /** The first caller gets all the cores. */
  lemma FirstGetsAll(n: nat) returns (s0: State, s: State)
    requires n > 1
    ensures Init(s0) && Reachable(s0, s, n)
    ensures var none := Caller(0, Out, Ask(0, 0, 0, 0)); s == Three(n, n, Caller(n, Out, Ask(n, n, n, n)), none, none)
  {
    var none := Caller(0, Out, Ask(0, 0, 0, 0));
    s0 := Three(0, n, none, none, none);
    assert Run(s0, []) == Reached(s0) && ReleasesOnly([], n);
    hide Run;
    Extend(s0, s0, n, Acquire(0, n, n));
    hide Reachable;
    var first := Caller(0, Loop(Ask(n, n, n, 0)), Ask(0, 0, 0, 0));
    ThreeSet(0, n, none, none, none, first);
    TakesAll(s0, n, n, 0, none, none);
    var all := Caller(0, Loop(Ask(n, n, n, n)), Ask(0, 0, 0, 0));
    ThreeSet(n, n, all, none, none, Caller(n, Out, Ask(n, n, n, n)));
    s := Returns(s0, n, Three(n, n, all, none, none), 0, Ask(n, n, n, n));
  }

  /** The other two fall asleep. */
  lemma TwoSleep(n: nat) returns (s0: State, s: State)
    requires n > 1
    ensures Init(s0) && Reachable(s0, s, n)
    ensures s == Three(n, n, Caller(n, Out, Ask(n, n, n, n)), Caller(0, Asleep(Ask(1, 1, 1, 0)), Ask(0, 0, 0, 0)),
                       Caller(0, Asleep(Ask(1, 1, 1, 0)), Ask(0, 0, 0, 0)))
  {
    hide *;
    var first, none := Caller(n, Out, Ask(n, n, n, n)), Caller(0, Out, Ask(0, 0, 0, 0));
    var asleep := Caller(0, Asleep(Ask(1, 1, 1, 0)), Ask(0, 0, 0, 0));
    var s1;
    s0, s1 := FirstGetsAll(n);
    ThreeSet(n, n, first, none, none, asleep);
    var s2 := FallsAsleep(s0, n, s1, 1);
    ThreeSet(n, n, first, asleep, none, asleep);
    s := FallsAsleep(s0, n, s2, 2);
  }

  /** A release that gives back `n > 1` cores at once wakes only one sleeper: there is always a run in which another is
      stranded, with cores free. */
  lemma ManyAtOnceStrand(n: nat)
    requires n > 1
    ensures exists s0, s :: Init(s0) && Reachable(s0, s, n) && Stranded(s)
  {
    hide Reachable, Run;
    var s0, s1 := TwoSleep(n);
    var s2 := GivesBack(s0, n, s1, 0, 1);
    var s3 := WakesAndTakes(s0, n, s2, 1);
    assert s3.callers[2].pc.Asleep?;
    assert Stranded(s3);
  }
}
