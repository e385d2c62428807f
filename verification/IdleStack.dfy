/** The lock-free stack of idle threads: `idle_push` and `idle_pop` as interleaved atomic steps over
    one tagged word, and exactly when they behave like a stack. */
module IdleStack {

  /** A thread's address; 0 is the null pointer. */
  type Ptr = nat

  /** `g_idle`, unpacked. */
  datatype Word = Word(ptr: Ptr, tag: nat)

  const TAGS: nat := 4096

  /** Where a caller is inside `idle_push` or `idle_pop`: `tip` is the word it loaded, `at` the number of
      successful exchanges before that load (history only, the code cannot see it). */
  datatype Call =
    | Away
    | Push(x: Ptr, tip: Word, at: nat)
    | PushLinked(x: Ptr, tip: Word, at: nat)
    | Pop(tip: Word, at: nat)
    | PopRead(tip: Word, next: Ptr, at: nat)

  /** Shared memory and the callers; `ver` counts successful exchanges (history only). */
  datatype State = State(idle: Word, next: map<Ptr, Ptr>, calls: seq<Call>, ver: nat)

  datatype Event =
    | StartPush(i: nat, x: Ptr)  // load the tip
    | Link(i: nat)               // thread->next = PTR(tip)
    | ExchangePush(i: nat)       // the exchange succeeds
    | FailPush(i: nat)           // it fails, possibly spuriously, and reloads the tip
    | StartPop(i: nat)
    | Read(i: nat)               // read thread->next
    | ExchangePop(i: nat)
    | FailPop(i: nat)

  /** What an event does to the abstract stack. */
  datatype Op = Pushed(x: Ptr) | Popped(x: Ptr) | FoundEmpty

  predicate Pushing(c: Call, x: Ptr) {
    (c.Push? || c.PushLinked?) && c.x == x
  }

  /** A thread pushes only itself, and only after it was popped, so `x` is neither on the stack nor
      being pushed. */
  ghost predicate Enabled(s: State, e: Event, stack: seq<Ptr>) {
    e.i < |s.calls| &&
    match e
    case StartPush(i, x) => s.calls[i].Away? && x != 0 && x !in stack && forall c | c in s.calls :: !Pushing(c, x)
    case Link(i) => s.calls[i].Push?
    case ExchangePush(i) => s.calls[i].PushLinked? && s.calls[i].tip == s.idle
    case FailPush(i) => s.calls[i].PushLinked?
    case StartPop(i) => s.calls[i].Away?
    case Read(i) => s.calls[i].Pop? && s.calls[i].tip.ptr in s.next
    case ExchangePop(i) => s.calls[i].PopRead? && s.calls[i].tip == s.idle
    case FailPop(i) => s.calls[i].PopRead?
  }

  /** What a pop is about to install is still what follows the top of the stack. */
  ghost predicate Fresh(s: State, e: Event)
    requires e.i < |s.calls|
  {
    e.ExchangePop? && s.calls[e.i].PopRead? ==> s.idle.ptr in s.next && s.calls[e.i].next == s.next[s.idle.ptr]
  }

  /** Fewer than 4096 exchanges succeeded since the caller of a pop loaded the word it now compares with. */
  ghost predicate Timely(s: State, e: Event)
    requires e.i < |s.calls|
  {
    e.ExchangePop? && s.calls[e.i].PopRead? ==> s.ver < s.calls[e.i].at + TAGS
  }

  /** `idle_pop` after a load: null ends the call. */
  function PopFrom(s: State): Call {
    if s.idle.ptr == 0 then Away else Pop(s.idle, s.ver)
  }

  ghost function Step(s: State, e: Event, stack: seq<Ptr>): (s': State)
    requires Enabled(s, e, stack)
    ensures |s'.calls| == |s.calls|
  {
    var c := s.calls[e.i];
    match e
    case StartPush(i, x) => s.(calls := s.calls[i := Push(x, s.idle, s.ver)])
    case Link(i) => s.(next := s.next[c.x := c.tip.ptr], calls := s.calls[i := PushLinked(c.x, c.tip, c.at)])
    case ExchangePush(i) =>
      s.(idle := Word(c.x, (c.tip.tag + 1) % TAGS), calls := s.calls[i := Away], ver := s.ver + 1)
    case FailPush(i) => s.(calls := s.calls[i := Push(c.x, s.idle, s.ver)])
    case StartPop(i) => s.(calls := s.calls[i := PopFrom(s)])
    case Read(i) => s.(calls := s.calls[i := PopRead(c.tip, s.next[c.tip.ptr], c.at)])
    case ExchangePop(i) =>
      s.(idle := Word(c.next, (c.tip.tag + 1) % TAGS), calls := s.calls[i := Away], ver := s.ver + 1)
    case FailPop(i) => s.(calls := s.calls[i := PopFrom(s)])
  }

  /** The operations an event completes, at the moment it happens. */
  ghost function Effect(s: State, e: Event): seq<Op>
    requires e.i < |s.calls|
  {
    var c := s.calls[e.i];
    match e
    case ExchangePush(_) => if c.PushLinked? then [Pushed(c.x)] else []
    case ExchangePop(_) => if c.PopRead? then [Popped(c.tip.ptr)] else []
    case StartPop(_) => if s.idle.ptr == 0 then [FoundEmpty] else []
    case FailPop(_) => if s.idle.ptr == 0 then [FoundEmpty] else []
    case _ => []
  }

  /** A sequential stack: a pop must return the top, and only an empty stack may be reported empty. */
  datatype Outcome = Stack(s: seq<Ptr>) | Illegal

  function Apply(st: Outcome, op: Op): Outcome {
    if st.Illegal? then Illegal
    else match op
      case Pushed(x) => Stack([x] + st.s)
      case Popped(x) => if st.s != [] && st.s[0] == x then Stack(st.s[1..]) else Illegal
      case FoundEmpty => if st.s == [] then st else Illegal
  }

  function Replay(st: Outcome, ops: seq<Op>): Outcome {
    if ops == [] then st else Apply(Replay(st, ops[..|ops| - 1]), ops[|ops| - 1])
  }

  // ----- the invariant -----

  /** Following `next` from `p` visits exactly `stack` and ends in null. */
  ghost predicate Linked(next: map<Ptr, Ptr>, p: Ptr, stack: seq<Ptr>)
    decreases stack
  {
    if stack == [] then p == 0
    else p == stack[0] && p != 0 && p in next && Linked(next, next[p], stack[1..])
  }

  ghost predicate Distinct(stack: seq<Ptr>) {
    forall i, j :: 0 <= i < j < |stack| ==> stack[i] != stack[j]
  }

  /** What a caller may rely on: the word it loaded is current unless some exchange succeeded since, and
      while it is current, so is what the caller wrote or read. */
  ghost predicate CallOk(s: State, stack: seq<Ptr>, c: Call) {
    match c
    case Away => true
    case Push(x, tip, at) => x != 0 && x !in stack && Loaded(s, tip, at)
    case PushLinked(x, tip, at) => x != 0 && x !in stack && Loaded(s, tip, at) && x in s.next && s.next[x] == tip.ptr
    case Pop(tip, at) => Loaded(s, tip, at) && tip.ptr != 0 && tip.ptr in s.next
    case PopRead(tip, nx, at) =>
      Loaded(s, tip, at) && tip.ptr != 0 && tip.ptr in s.next && (at == s.ver ==> nx == s.next[tip.ptr])
  }

  ghost predicate Loaded(s: State, tip: Word, at: nat) {
    at <= s.ver && tip.tag == at % TAGS && (at == s.ver ==> tip == s.idle)
  }

  ghost predicate Inv(s: State, stack: seq<Ptr>) {
    && s.idle.tag == s.ver % TAGS
    && Linked(s.next, s.idle.ptr, stack) && Distinct(stack)
    && (forall i :: 0 <= i < |s.calls| ==> CallOk(s, stack, s.calls[i]))
    && (forall i, j, x :: 0 <= i < j < |s.calls| && Pushing(s.calls[i], x) ==> !Pushing(s.calls[j], x))
  }

  ghost predicate Init(s: State) {
    s.idle == Word(0, 0) && s.ver == 0 && forall i :: 0 <= i < |s.calls| ==> s.calls[i].Away?
  }

  lemma {:induction false} LinkedFrame(next: map<Ptr, Ptr>, p: Ptr, stack: seq<Ptr>, x: Ptr, y: Ptr)
    requires Linked(next, p, stack) && x !in stack
    ensures Linked(next[x := y], p, stack)
    decreases stack
  {
    if stack != [] {
      assert forall z :: z in stack[1..] ==> z in stack;
      LinkedFrame(next, next[p], stack[1..], x, y);
    }
  }

  /** Within the bound, equal words mean nothing has happened in between. */
  lemma SameVersion(at: nat, ver: nat)
    requires at <= ver < at + TAGS && at % TAGS == ver % TAGS
    ensures at == ver
  {
  }

  /** Memory holds this stack. */
  ghost predicate Holds(s: State, stack: seq<Ptr>) {
    Linked(s.next, s.idle.ptr, stack)
  }

  /** The stack the memory should hold after an event. */
  ghost function After(s: State, e: Event, stack: seq<Ptr>): seq<Ptr>
    requires e.i < |s.calls|
  {
    if e.ExchangePush? && s.calls[e.i].PushLinked? then [s.calls[e.i].x] + stack
    else if e.ExchangePop? && stack != [] then stack[1..]
    else stack
  }

  lemma LinkKeeps(s: State, e: Event, stack: seq<Ptr>)
    requires Inv(s, stack) && Enabled(s, e, stack) && e.Link?
    ensures Inv(Step(s, e, stack), After(s, e, stack))
    ensures Replay(Stack(stack), Effect(s, e)) == Stack(After(s, e, stack))
  {
    var i, c, s' := e.i, s.calls[e.i], Step(s, e, stack);
    assert CallOk(s, stack, c);
    LinkedFrame(s.next, s.idle.ptr, stack, c.x, c.tip.ptr);
    forall j | 0 <= j < |s'.calls|
      ensures CallOk(s', stack, s'.calls[j])
    {
      assert CallOk(s, stack, s.calls[j]);
      if j != i && s.calls[j].PushLinked? {
        assert Pushing(s.calls[j], s.calls[j].x) && Pushing(s.calls[i], c.x);
      }
    }
  }

  lemma LinkedPush(next: map<Ptr, Ptr>, p: Ptr, stack: seq<Ptr>, x: Ptr)
    requires Linked(next, p, stack) && Distinct(stack) && x != 0 && x !in stack && x in next && next[x] == p
    ensures Linked(next, x, [x] + stack) && Distinct([x] + stack)
  {
    assert ([x] + stack)[1..] == stack;
  }

  lemma ExchangePushKeeps(s: State, e: Event, stack: seq<Ptr>)
    requires Inv(s, stack) && Enabled(s, e, stack) && e.ExchangePush?
    ensures Inv(Step(s, e, stack), After(s, e, stack))
    ensures Replay(Stack(stack), Effect(s, e)) == Stack(After(s, e, stack))
  {
    hide Linked, Distinct;
    var i, c, s', stack' := e.i, s.calls[e.i], Step(s, e, stack), After(s, e, stack);
    assert CallOk(s, stack, c);
    LinkedPush(s.next, s.idle.ptr, stack, c.x);
    forall j | 0 <= j < |s'.calls|
      ensures CallOk(s', stack', s'.calls[j])
    {
      assert CallOk(s, stack, s.calls[j]);
      if j != i && (s.calls[j].PushLinked? || s.calls[j].Push?) {
        assert Pushing(s.calls[j], s.calls[j].x) && Pushing(s.calls[i], c.x);
      }
    }
    assert Effect(s, e) == [Pushed(c.x)];
    ReplayOne(stack, Pushed(c.x));
  }

  lemma ExchangePopKeeps(s: State, e: Event, stack: seq<Ptr>)
    requires Inv(s, stack) && Enabled(s, e, stack) && e.ExchangePop? && Fresh(s, e)
    ensures Inv(Step(s, e, stack), After(s, e, stack))
    ensures Replay(Stack(stack), Effect(s, e)) == Stack(After(s, e, stack))
  {
    var i, c, s', stack' := e.i, s.calls[e.i], Step(s, e, stack), After(s, e, stack);
    assert CallOk(s, stack, c);
    forall j | 0 <= j < |s'.calls|
      ensures CallOk(s', stack', s'.calls[j])
    {
      assert CallOk(s, stack, s.calls[j]);
    }
    assert Effect(s, e) == [Popped(c.tip.ptr)];
    ReplayOne(stack, Popped(c.tip.ptr));
  }

  lemma ReplayOne(stack: seq<Ptr>, op: Op)
    ensures Replay(Stack(stack), [op]) == Apply(Stack(stack), op)
    ensures Replay(Stack(stack), []) == Stack(stack)
  {
    assert [op][..0] == [];
  }

  /** The events that change no memory but the caller's own progress. */
  lemma LocalKeeps(s: State, e: Event, stack: seq<Ptr>)
    requires Inv(s, stack) && Enabled(s, e, stack) && !e.Link? && !e.ExchangePush? && !e.ExchangePop?
    ensures Inv(Step(s, e, stack), After(s, e, stack))
    ensures Replay(Stack(stack), Effect(s, e)) == Stack(After(s, e, stack))
  {
    var s' := Step(s, e, stack);
    assert CallOk(s, stack, s.calls[e.i]);
    forall j | 0 <= j < |s'.calls|
      ensures CallOk(s', stack, s'.calls[j])
    {
      assert CallOk(s, stack, s.calls[j]);
    }
    ReplayOne(stack, FoundEmpty);
  }

  /** One event that is no pop installing a stale thread: memory goes on holding a stack, and what the event did is
      legal for that stack. A push may succeed any number of exchanges after its load. */
  lemma StepKeeps(s: State, e: Event, stack: seq<Ptr>)
    requires Inv(s, stack) && Enabled(s, e, stack) && Fresh(s, e)
    ensures Inv(Step(s, e, stack), After(s, e, stack))
    ensures Replay(Stack(stack), Effect(s, e)) == Stack(After(s, e, stack))
  {
    hide Inv, Enabled, Fresh, Step, After, Replay, Effect;
    if e.Link? {
      LinkKeeps(s, e, stack);
    } else if e.ExchangePush? {
      ExchangePushKeeps(s, e, stack);
    } else if e.ExchangePop? {
      ExchangePopKeeps(s, e, stack);
    } else {
      LocalKeeps(s, e, stack);
    }
  }

  /** A pop leaves in memory the stack its history calls for if and only if what it installs is not stale. */
  lemma PopNeedsFresh(s: State, e: Event, stack: seq<Ptr>)
    requires Inv(s, stack) && Enabled(s, e, stack) && e.ExchangePop?
    ensures Holds(Step(s, e, stack), After(s, e, stack)) <==> Fresh(s, e)
  {
    assert CallOk(s, stack, s.calls[e.i]);
    LinkedFromOne(s.next, s.next[s.idle.ptr], s.calls[e.i].next, stack[1..]);
  }

  lemma LinkedFromOne(next: map<Ptr, Ptr>, p: Ptr, q: Ptr, stack: seq<Ptr>)
    requires Linked(next, p, stack)
    ensures Linked(next, q, stack) <==> p == q
  {
  }

  /** The tag makes sure of that for a pop that is quick enough. */
  lemma TimelyIsFresh(s: State, e: Event, stack: seq<Ptr>)
    requires Inv(s, stack) && Enabled(s, e, stack) && Timely(s, e)
    ensures Fresh(s, e)
  {
    if e.ExchangePop? {
      var c := s.calls[e.i];
      assert CallOk(s, stack, c);
      SameVersion(c.at, s.ver);
    }
  }

  // ----- whole runs -----

  /** The state and the stack after a run, or `None` if some event was not enabled. */
  datatype Reached = Reached(s: State, stack: seq<Ptr>) | None

  ghost function Run(s0: State, events: seq<Event>): Reached
    decreases |events|
  {
    if events == [] then Reached(s0, [])
    else
      var before := Run(s0, events[..|events| - 1]);
      var e := events[|events| - 1];
      if before.Reached? && Enabled(before.s, e, before.stack)
      then Reached(Step(before.s, e, before.stack), After(before.s, e, before.stack))
      else None
  }

  ghost function History(s0: State, events: seq<Event>): seq<Op>
    requires Run(s0, events).Reached?
    decreases |events|
  {
    if events == [] then []
    else
      var before := events[..|events| - 1];
      History(s0, before) + Effect(Run(s0, before).s, events[|events| - 1])
  }

  lemma {:induction false} ReplayConcat(st: Outcome, a: seq<Op>, b: seq<Op>)
    ensures Replay(st, a + b) == Replay(Replay(st, a), b)
  {
    if b == [] {
      assert a + b == a;
    } else {
      assert (a + b)[..|a + b| - 1] == a + b[..|b| - 1];
      ReplayConcat(st, a, b[..|b| - 1]);
    }
  }

  /** At every moment of the run memory held the stack. */
  ghost predicate AlwaysHolds(s0: State, events: seq<Event>)
    requires Run(s0, events).Reached?
    decreases |events|
  {
    && Holds(Run(s0, events).s, Run(s0, events).stack)
    && (events != [] ==> AlwaysHolds(s0, events[..|events| - 1]))
  }

  /** No pop of the run installed a stale thread. */
  ghost predicate AllFresh(s0: State, events: seq<Event>)
    requires Run(s0, events).Reached?
    decreases |events|
  {
    events != [] ==>
      && AllFresh(s0, events[..|events| - 1])
      && Fresh(Run(s0, events[..|events| - 1]).s, events[|events| - 1])
  }

  /** Every pop of the run succeeded within 4096 exchanges of its load. */
  ghost predicate AllTimely(s0: State, events: seq<Event>)
    requires Run(s0, events).Reached?
    decreases |events|
  {
    events != [] ==>
      && AllTimely(s0, events[..|events| - 1])
      && Timely(Run(s0, events[..|events| - 1]).s, events[|events| - 1])
  }

  lemma {:induction false} FreshRunKeeps(s0: State, events: seq<Event>)
    requires Init(s0) && Run(s0, events).Reached? && AllFresh(s0, events)
    ensures Inv(Run(s0, events).s, Run(s0, events).stack) && AlwaysHolds(s0, events)
    ensures Replay(Stack([]), History(s0, events)) == Stack(Run(s0, events).stack)
    decreases |events|
  {
    if events != [] {
      var n := |events| - 1;
      var before := Run(s0, events[..n]);
      FreshRunKeeps(s0, events[..n]);
      StepKeeps(before.s, events[n], before.stack);
      ReplayConcat(Stack([]), History(s0, events[..n]), Effect(before.s, events[n]));
    }
  }

  /** Exactly when the idle stack is one, over every interleaving of any number of callers: memory holds the stack at
      every moment if and only if no pop installs a stale thread. */
  lemma {:induction false} HoldsIffFresh(s0: State, events: seq<Event>)
    requires Init(s0) && Run(s0, events).Reached?
    ensures AlwaysHolds(s0, events) <==> AllFresh(s0, events)
    decreases |events|
  {
    hide Step, Fresh, Inv, Holds;
    if AllFresh(s0, events) {
      FreshRunKeeps(s0, events);
    } else {
      var n := |events| - 1;
      var before := Run(s0, events[..n]);
      HoldsIffFresh(s0, events[..n]);
      if AllFresh(s0, events[..n]) {
        FreshRunKeeps(s0, events[..n]);
        NotFreshIsPop(before.s, events[n]);
        PopNeedsFresh(before.s, events[n], before.stack);
      }
    }
  }

  lemma NotFreshIsPop(s: State, e: Event)
    requires e.i < |s.calls| && !Fresh(s, e)
    ensures e.ExchangePop?
  {
  }

  lemma {:induction false} TimelyRunIsFresh(s0: State, events: seq<Event>)
    requires Init(s0) && Run(s0, events).Reached? && AllTimely(s0, events)
    ensures AllFresh(s0, events)
    decreases |events|
  {
    hide Step, Enabled, Fresh, Inv, Timely;
    if events != [] {
      var n := |events| - 1;
      var before := Run(s0, events[..n]);
      TimelyRunIsFresh(s0, events[..n]);
      FreshRunKeeps(s0, events[..n]);
      TimelyIsFresh(before.s, events[n], before.stack);
    }
  }

  /** In every interleaving in which each pop succeeds within 4096 successful exchanges of its load, however long the
      pushes take, the operations, taken at the instant they complete, form a legal history of one sequential stack,
      and memory holds that stack. */
  lemma Linearizable(s0: State, events: seq<Event>)
    requires Init(s0) && Run(s0, events).Reached? && AllTimely(s0, events)
    ensures Inv(Run(s0, events).s, Run(s0, events).stack) && AlwaysHolds(s0, events)
    ensures Replay(Stack([]), History(s0, events)) == Stack(Run(s0, events).stack)
  {
    TimelyRunIsFresh(s0, events);
    FreshRunKeeps(s0, events);
  }

  // ----- every call is one operation -----

  /** The event that starts a call, and a caller that is still inside it. */
  ghost predicate Inside(call: Event, c: Call) {
    match call
    case StartPush(_, x) => Pushing(c, x)
    case StartPop(_) => c.Pop? || c.PopRead?
    case _ => false
  }

  /** The operation a call has to be: a push of its own thread; a pop, of whatever was on top or of nothing. */
  ghost predicate Completes(call: Event, op: Op) {
    match call
    case StartPush(_, x) => op == Pushed(x)
    case StartPop(_) => op.Popped? || op.FoundEmpty?
    case _ => false
  }

  predicate Begins(e: Event) {
    e.StartPush? || e.StartPop?
  }

  /** No event but the one that ends a call has an effect, and that one has the effect of the call; nobody else's call
      moves on. A push does not end otherwise, however often its exchange fails. */
  lemma StepCompletes(s: State, e: Event, stack: seq<Ptr>, call: Event)
    requires Enabled(s, e, stack) && (if Begins(e) then call == e else Inside(call, s.calls[e.i]))
    ensures Begins(e) ==> s.calls[e.i].Away?
    ensures !Begins(e) ==> !s.calls[e.i].Away?
    ensures var d := Step(s, e, stack).calls[e.i];
      if d.Away? then |Effect(s, e)| == 1 && Completes(call, Effect(s, e)[0])
      else Effect(s, e) == [] && Inside(call, d)
    ensures forall j :: 0 <= j < |s.calls| && j != e.i ==> Step(s, e, stack).calls[j] == s.calls[j]
  {
  }

  /** The history, with the caller of each operation. */
  ghost function Log(s0: State, events: seq<Event>): seq<(nat, Op)>
    requires Run(s0, events).Reached?
    decreases |events|
  {
    if events == [] then []
    else
      var before, e := events[..|events| - 1], events[|events| - 1];
      Log(s0, before) + Tagged(e.i, Effect(Run(s0, before).s, e))
  }

  function Tagged(i: nat, ops: seq<Op>): (t: seq<(nat, Op)>)
    ensures |t| == |ops| && forall k :: 0 <= k < |t| ==> t[k] == (i, ops[k])
  {
    if ops == [] then [] else Tagged(i, ops[..|ops| - 1]) + [(i, ops[|ops| - 1])]
  }

  lemma {:induction false} LogIsHistory(s0: State, events: seq<Event>)
    requires Run(s0, events).Reached?
    ensures |Log(s0, events)| == |History(s0, events)|
    ensures forall k :: 0 <= k < |Log(s0, events)| ==> Log(s0, events)[k].1 == History(s0, events)[k]
    decreases |events|
  {
    hide Effect, Step, Enabled;
    if events != [] {
      LogIsHistory(s0, events[..|events| - 1]);
    }
  }

  /** The operations of caller `i`, in order. */
  function Own(log: seq<(nat, Op)>, i: nat): seq<Op> {
    if log == [] then []
    else Own(log[..|log| - 1], i) + if log[|log| - 1].0 == i then [log[|log| - 1].1] else []
  }

  /** The calls caller `i` has started, in order. */
  function Calls(events: seq<Event>, i: nat): seq<Event> {
    if events == [] then []
    else
      var e := events[|events| - 1];
      Calls(events[..|events| - 1], i) + if e.i == i && Begins(e) then [e] else []
  }

  /** One operation for each finished call, in the order of the calls. */
  ghost predicate Accounted(calls: seq<Event>, ops: seq<Op>, c: Call) {
    && |calls| == |ops| + (if c.Away? then 0 else 1)
    && (forall k :: 0 <= k < |ops| ==> Completes(calls[k], ops[k]))
    && (!c.Away? ==> Inside(calls[|ops|], c))
  }

  lemma {:induction false} OwnConcat(log: seq<(nat, Op)>, more: seq<(nat, Op)>, i: nat)
    requires |more| <= 1
    ensures Own(log + more, i) == Own(log, i) + if |more| == 1 && more[0].0 == i then [more[0].1] else []
  {
    if more == [] {
      assert log + more == log;
    } else {
      assert (log + more)[..|log|] == log;
    }
  }

  lemma AccountedStep(s: State, e: Event, stack: seq<Ptr>, i: nat, calls: seq<Event>, ops: seq<Op>)
    requires Enabled(s, e, stack) && i < |s.calls| && Accounted(calls, ops, s.calls[i])
    requires forall k :: 0 <= k < |calls| ==> Begins(calls[k])
    ensures e.i == i ==> |Effect(s, e)| <= 1
    ensures Accounted(calls + if e.i == i && Begins(e) then [e] else [],
                      ops + if e.i == i then Effect(s, e) else [], Step(s, e, stack).calls[i])
  {
    hide Enabled, Step, Effect, Inside, Completes;
    if e.i == i {
      CallOf(s, e, stack);
      StepCompletes(s, e, stack, if Begins(e) then e else calls[|ops|]);
    } else {
      OthersStay(s, e, stack, i);
    }
  }

  lemma CallOf(s: State, e: Event, stack: seq<Ptr>)
    requires Enabled(s, e, stack)
    ensures s.calls[e.i].Away? <==> Begins(e)
  {
  }

  lemma OthersStay(s: State, e: Event, stack: seq<Ptr>, i: nat)
    requires Enabled(s, e, stack) && i < |s.calls| && e.i != i
    ensures Step(s, e, stack).calls[i] == s.calls[i]
    ensures |Effect(s, e)| <= 1
  {
  }

  /** Over every run, fresh or not: each call a caller has finished stands in the history exactly once, as the
      operation it is, in the order of the caller's calls; a call that is not finished does not stand there. */
  lemma {:induction false} CallsAccounted(s0: State, events: seq<Event>, i: nat)
    requires Init(s0) && Run(s0, events).Reached? && i < |s0.calls|
    ensures |Run(s0, events).s.calls| == |s0.calls|
    ensures Accounted(Calls(events, i), Own(Log(s0, events), i), Run(s0, events).s.calls[i])
    ensures forall k :: 0 <= k < |Calls(events, i)| ==> Begins(Calls(events, i)[k])
    decreases |events|
  {
    hide Step, Enabled, Effect, Accounted, Begins;
    if events == [] {
      NoneYet(s0.calls[i]);
    } else {
      var n := |events| - 1;
      var before, e := Run(s0, events[..n]), events[n];
      CallsAccounted(s0, events[..n], i);
      AccountedStep(before.s, e, before.stack, i, Calls(events[..n], i), Own(Log(s0, events[..n]), i));
      EffectIsOne(before.s, e, before.stack);
      OwnConcat(Log(s0, events[..n]), Tagged(e.i, Effect(before.s, e)), i);
    }
  }

  lemma NoneYet(c: Call)
    requires c.Away?
    ensures Accounted([], [], c)
  {
  }

  lemma EffectIsOne(s: State, e: Event, stack: seq<Ptr>)
    requires Enabled(s, e, stack)
    ensures e.i < |s.calls| && |Effect(s, e)| <= 1
    ensures |Effect(s, e)| == 1 ==> Effect(s, e) == [Effect(s, e)[0]]
  {
  }

  // ----- the bound is exact -----

  /** Some run of enabled, timely events leads here. */
  ghost predicate Reachable(s0: State, s: State, stack: seq<Ptr>) {
    exists events :: Run(s0, events) == Reached(s, stack) && AllTimely(s0, events)
  }

  lemma Extend(s0: State, s: State, stack: seq<Ptr>, e: Event)
    requires Reachable(s0, s, stack) && Enabled(s, e, stack) && Timely(s, e)
    ensures Reachable(s0, Step(s, e, stack), After(s, e, stack))
  {
    var events :| Run(s0, events) == Reached(s, stack) && AllTimely(s0, events);
    var more := events + [e];
    assert more[..|more| - 1] == events && more[|more| - 1] == e;
    assert Run(s0, more) == Reached(Step(s, e, stack), After(s, e, stack)) && AllTimely(s0, more);
  }

  /** One caller pushes, alone. */
  ghost function AfterPush(s: State, x: Ptr): State {
    State(Word(x, (s.idle.tag + 1) % TAGS), s.next[x := s.idle.ptr], s.calls, s.ver + 1)
  }

  ghost function AfterPop(s: State): State
    requires s.idle.ptr in s.next
  {
    State(Word(s.next[s.idle.ptr], (s.idle.tag + 1) % TAGS), s.next, s.calls, s.ver + 1)
  }

  lemma PushAlone(s0: State, s: State, stack: seq<Ptr>, i: nat, x: Ptr)
    requires Reachable(s0, s, stack) && Enabled(s, StartPush(i, x), stack)
    ensures Reachable(s0, AfterPush(s, x), [x] + stack)
  {
    hide Reachable;
    Extend(s0, s, stack, StartPush(i, x));
    var s1 := Step(s, StartPush(i, x), stack);
    Extend(s0, s1, stack, Link(i));
    var s2 := Step(s1, Link(i), stack);
    Extend(s0, s2, stack, ExchangePush(i));
    var s3 := Step(s2, ExchangePush(i), stack);
    assert s3.calls == s.calls;
    assert s3 == AfterPush(s, x);
  }

  lemma PopAlone(s0: State, s: State, stack: seq<Ptr>, i: nat)
    requires Reachable(s0, s, stack) && i < |s.calls| && s.calls[i].Away?
    requires stack != [] && s.idle.ptr != 0 && s.idle.ptr in s.next
    ensures Reachable(s0, AfterPop(s), stack[1..])
  {
    hide Reachable;
    Extend(s0, s, stack, StartPop(i));
    var s1 := Step(s, StartPop(i), stack);
    Extend(s0, s1, stack, Read(i));
    var s2 := Step(s1, Read(i), stack);
    Extend(s0, s2, stack, ExchangePop(i));
    var s3 := Step(s2, ExchangePop(i), stack);
    assert s3.calls == s.calls;
  }

  ghost function Spun(s: State, d: Ptr, n: nat): State {
    if n == 0 then s
    else State(Word(s.idle.ptr, (s.idle.tag + 2 * n) % TAGS), s.next[d := s.idle.ptr], s.calls, s.ver + 2 * n)
  }

  /** One push and one pop of another thread. */
  lemma SpinOnce(s0: State, s: State, stack: seq<Ptr>, i: nat, d: Ptr)
    requires Reachable(s0, s, stack) && Enabled(s, StartPush(i, d), stack) && s.idle.tag < TAGS
    ensures Reachable(s0, Spun(s, d, 1), stack)
  {
    hide Reachable;
    PushAlone(s0, s, stack, i, d);
    var u := AfterPush(s, d);
    PopAlone(s0, u, [d] + stack, i);
    assert ([d] + stack)[1..] == stack;
    assert AfterPop(u) == Spun(s, d, 1);
  }

  lemma SpunStep(s: State, d: Ptr, n: nat)
    requires n > 0 && s.idle.tag < TAGS
    ensures Spun(Spun(s, d, n - 1), d, 1) == Spun(s, d, n)
    ensures Spun(s, d, n - 1).idle.tag < TAGS && Spun(s, d, n - 1).calls == s.calls
  {
    assert s.next[d := s.idle.ptr][d := s.idle.ptr] == s.next[d := s.idle.ptr];
  }

  /** Pushing and popping another thread `n` times changes nothing but the tag. */
  lemma {:induction false} Spin(s0: State, s: State, stack: seq<Ptr>, i: nat, d: Ptr, n: nat)
    requires Reachable(s0, s, stack) && Enabled(s, StartPush(i, d), stack) && s.idle.tag < TAGS
    ensures Reachable(s0, Spun(s, d, n), stack)
  {
    hide Reachable, Spun;
    if n == 0 {
      SpunZero(s, d);
    } else {
      SpunStep(s, d, n);
      Spin(s0, s, stack, i, d, n - 1);
      SpinOnce(s0, Spun(s, d, n - 1), stack, i, d);
    }
  }

  lemma SpunZero(s: State, d: Ptr)
    ensures Spun(s, d, 0) == s
  {
  }

  const A: Ptr := 16
  const B: Ptr := 32
  const C: Ptr := 48
  const D: Ptr := 64

  /** A pop that compares equal exactly 4096 exchanges after its load, and after which memory does not hold the
      stack its history calls for. */
  ghost predicate Breaks(s: State, stack: seq<Ptr>, e: Event) {
    && e.ExchangePop? && Enabled(s, e, stack) && s.calls[e.i].PopRead? && s.ver == s.calls[e.i].at + TAGS
    && !Holds(Step(s, e, stack), After(s, e, stack))
  }

  /** With 4096 exchanges in between the property is false: the run up to here is enabled and timely, and the
      next exchange installs a thread that is not on the stack. */
  lemma FourThousandNinetySixIsTooMany()
    ensures exists s0: State, s: State, stack: seq<Ptr> ::
              Init(s0) && Reachable(s0, s, stack) && Breaks(s, stack, ExchangePop(0))
  {
    var s0, s2 := TwoPushes();
    var s, stack := StartVictim(s0, s2, [A, B]);
    hide Reachable;
    VictimBreaks(s, stack);
  }

  lemma TwoPushes() returns (s0: State, s2: State)
    ensures Init(s0) && Reachable(s0, s2, [A, B])
    ensures s2 == State(Word(A, 2), map[B := 0, A := B], [Away, Away], 2)
  {
    s0 := State(Word(0, 0), map[], [Away, Away], 0);
    assert Run(s0, []) == Reached(s0, []) && AllTimely(s0, []);
    PushAlone(s0, s0, [], 1, B);
    var s1 := AfterPush(s0, B);
    assert [B] + [] == [B];
    PushAlone(s0, s1, [B], 1, A);
    assert [A] + [B] == [A, B];
    s2 := AfterPush(s1, A);
  }

  lemma VictimBreaks(s: State, stack: seq<Ptr>)
    requires stack == [A, C] && s.idle == Word(A, 2) && s.ver == 2 + TAGS
    requires s.calls == [PopRead(Word(A, 2), B, 2), Away]
    ensures Breaks(s, stack, ExchangePop(0))
  {
    assert Step(s, ExchangePop(0), stack).idle.ptr == B;
    assert After(s, ExchangePop(0), stack) == [C];
  }

  lemma StartVictim(s0: State, s: State, full: seq<Ptr>) returns (t: State, stack: seq<Ptr>)
    requires Reachable(s0, s, full) && full == [A, B]
    requires s == State(Word(A, 2), map[B := 0, A := B], [Away, Away], 2)
    ensures Reachable(s0, t, stack) && stack == [A, C]
    ensures t.idle == Word(A, 2) && t.calls == [PopRead(Word(A, 2), B, 2), Away] && t.ver == 2 + TAGS
  {
    hide Reachable;
    Extend(s0, s, full, StartPop(0));
    var s3 := Step(s, StartPop(0), full);
    Extend(s0, s3, full, Read(0));
    t, stack := Overtake(s0, Step(s3, Read(0), full), full);
  }

  /** Caller 0 sleeps between its read and its exchange; caller 1 is free. */
  ghost function Victim(ptr: Ptr, tag: nat, next: map<Ptr, Ptr>): State {
    State(Word(ptr, tag), next, [PopRead(Word(A, 2), B, 2), Away], tag)
  }

  lemma VictimFree(ptr: Ptr, tag: nat, next: map<Ptr, Ptr>, stack: seq<Ptr>, x: Ptr)
    requires x != 0 && x !in stack
    ensures Enabled(Victim(ptr, tag, next), StartPush(1, x), stack)
  {
  }

  lemma VictimPush(s0: State, ptr: Ptr, tag: nat, next: map<Ptr, Ptr>, stack: seq<Ptr>, x: Ptr)
    requires Reachable(s0, Victim(ptr, tag, next), stack) && x != 0 && x !in stack && tag + 1 < TAGS
    ensures Reachable(s0, Victim(x, tag + 1, next[x := ptr]), [x] + stack)
  {
    hide Reachable, Enabled;
    VictimFree(ptr, tag, next, stack, x);
    PushAlone(s0, Victim(ptr, tag, next), stack, 1, x);
  }

  lemma VictimPop(s0: State, ptr: Ptr, tag: nat, next: map<Ptr, Ptr>, stack: seq<Ptr>)
    requires Reachable(s0, Victim(ptr, tag, next), stack) && stack != [] && ptr != 0 && ptr in next && tag + 1 < TAGS
    ensures Reachable(s0, Victim(next[ptr], tag + 1, next), stack[1..])
  {
    hide Reachable, Enabled;
    PopAlone(s0, Victim(ptr, tag, next), stack, 1);
  }

  /** While caller 0 sleeps, caller 1 pops both threads, pushes `C` and `A`, and then spins until the tag has
      come round. */
  lemma Overtake(s0: State, s: State, full: seq<Ptr>) returns (t: State, stack: seq<Ptr>)
    requires Reachable(s0, s, full) && full == [A, B]
    requires s == Victim(A, 2, map[B := 0, A := B])
    ensures Reachable(s0, t, stack) && stack == [A, C]
    ensures t.idle == Word(A, 2) && t.calls == s.calls && t.ver == 2 + TAGS
  {
    hide Reachable, Enabled;
    var next := map[B := 0, A := B];
    VictimPop(s0, A, 2, next, full);
    assert full[1..] == [B];
    VictimPop(s0, B, 3, next, [B]);
    assert [B][1..] == [];
    VictimPush(s0, 0, 4, next, [], C);
    assert [C] + [] == [C];
    VictimPush(s0, C, 5, next[C := 0], [C], A);
    stack := [A, C];
    assert [A] + [C] == stack;
    var u := Victim(A, 6, next[C := 0][A := C]);
    VictimFree(A, 6, next[C := 0][A := C], stack, D);
    Spin(s0, u, stack, 1, D, 2046);
    t := Spun(u, D, 2046);
  }
}
