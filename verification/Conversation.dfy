/** The chatbot's conversation: token history, undo stack, context stack and cache, and what each command does to
    them (llamafile/chatbot_hist.cpp, llamafile/chatbot_eval.cpp, llamafile/chatbot_repl.cpp). */
module Conversation {
  import opened KvCache

  datatype State = State(history: seq<Token>, undo: seq<int>, stack: seq<int>, system: int, kv: set<Cell>)

  /** The context size of the model and the batch size. */
  datatype Config = Config(ctx: nat, batch: nat)

  predicate Increasing(s: seq<int>) {
    forall i, j :: 0 <= i < j < |s| ==> s[i] < s[j]
  }

  predicate Nondecreasing(s: seq<int>) {
    forall i, j :: 0 <= i < j < |s| ==> s[i] <= s[j]
  }

  predicate Between(s: seq<int>, low: int, high: int) {
    forall i :: 0 <= i < |s| ==> low <= s[i] <= high
  }

  /** What holds between any two commands. */
  ghost predicate Inv(s: State, c: Config) {
    && s.kv == CellsOf(s.history)
    && |s.history| <= c.ctx
    && Increasing(s.undo) && Between(s.undo, 0, |s.history|)
    && 0 <= s.system <= |s.history|
    && Nondecreasing(s.stack) && Between(s.stack, s.system, |s.history|)
    && (|s.undo| >= 2 ==> s.system <= s.undo[1])
  }

  // ----- the pieces -----

  function Rewind(s: State, pos: int): State
    requires 0 <= pos <= |s.history|
  {
    s.(kv := SeqRm(s.kv, pos, -1), history := s.history[..pos])
  }

  function FixStack(stack: seq<int>, used: int): (r: seq<int>)
    ensures r <= stack
  {
    if stack != [] && stack[|stack| - 1] > used then FixStack(stack[..|stack| - 1], used) else stack
  }

  function FixStacks(s: State): State {
    s.(undo := FixStack(s.undo, |s.history|), stack := FixStack(s.stack, |s.history|),
       system := if s.system < |s.history| then s.system else |s.history|)
  }

  predicate Survives(pos: int, begin: int, end: int) {
    !(begin <= pos < end)
  }

  function Moved(pos: int, begin: int, end: int): int {
    if pos >= end then pos - (end - begin) else pos
  }

  function AdjustStack(begin: int, end: int, stack: seq<int>): seq<int> {
    if stack == [] then []
    else
      var pos := stack[|stack| - 1];
      AdjustStack(begin, end, stack[..|stack| - 1]) + if Survives(pos, begin, end) then [Moved(pos, begin, end)] else []
  }

  function RecordUndo(s: State): State {
    if s.undo == [] || s.undo[|s.undo| - 1] != |s.history| then s.(undo := s.undo + [|s.history|]) else s
  }

  function PopEqual(undo: seq<int>, used: int): (r: seq<int>)
    ensures r <= undo && (r == [] || r[|r| - 1] != used)
  {
    if undo != [] && undo[|undo| - 1] == used then PopEqual(undo[..|undo| - 1], used) else undo
  }

  // ----- the commands -----

  function Undo(s: State): State
    requires Between(s.undo, 0, |s.history|)
  {
    var u := PopEqual(s.undo, |s.history|);
    if u == [] then s.(undo := u)
    else
      var t := Rewind(s, u[|u| - 1]);
      FixStacks(t.(undo := u[..|u| - 1]))
  }

  /** What `/forget` would erase. */
  function Slice(s: State): (int, int)
    requires |s.undo| >= 2
  {
    (s.undo[1], if |s.undo| > 2 then s.undo[2] else |s.history|)
  }

  function Forget(s: State): State
    requires Between(s.undo, 0, |s.history|) && Increasing(s.undo)
  {
    if |s.undo| < 2 || Slice(s).0 == Slice(s).1 then s
    else
      var (begin, end) := Slice(s);
      FixStacks(State(s.history[..begin] + s.history[end..], AdjustStack(begin, end, s.undo),
        AdjustStack(begin, end, s.stack),
                      s.system, SeqAdd(SeqRm(s.kv, begin, end), end, -1, begin - end)))
  }

  function Clear(s: State): State
    requires 0 <= s.system <= |s.history|
  {
    FixStacks(Rewind(s, s.system).(stack := []))
  }

  function Push(s: State): State {
    s.(stack := s.stack + [|s.history|])
  }

  function Pop(s: State): State
    requires Between(s.stack, 0, |s.history|)
  {
    if s.stack == [] then s
    else FixStacks(Rewind(s, s.stack[|s.stack| - 1]).(stack := s.stack[..|s.stack| - 1]))
  }

  // ----- evaluation -----

  /** A piece of a message: text, or an image's placeholder tokens; `good` is how many batches are decoded before
      one is refused or the user interrupts. Or an image that does not load. */
  datatype Chunk = Text(tokens: seq<Token>, good: nat) | Image(size: nat, good: nat) | Unloadable

  const IMAGE_PLACEHOLDER_TOKEN: Token := -31337

  function Placeholders(n: nat): (t: seq<Token>)
    ensures |t| == n
  {
    seq(n, _ => IMAGE_PLACEHOLDER_TOKEN)
  }

  function DecodeBatch(s: State, tokens: seq<Token>): State {
    s.(history := s.history + tokens, kv := Decode(s.kv, tokens, |s.history|))
  }

  function EvalFrom(s: State, c: Config, tokens: seq<Token>, i: nat, good: nat): (r: (State, bool))
    requires c.batch > 0
    ensures |s.history| <= |r.0.history|
    decreases |tokens| - i
  {
    if i >= |tokens| then (s, true)
    else if good == 0 then (s, false)
    else
      var n := if |tokens| - i > c.batch then c.batch else |tokens| - i;
      EvalFrom(DecodeBatch(s, tokens[i..i + n]), c, tokens, i + c.batch, good - 1)
  }

  function EvalTokens(s: State, c: Config, tokens: seq<Token>, good: nat): (r: (State, bool))
    requires c.batch > 0
    ensures |s.history| <= |r.0.history|
  {
    if |s.history| + |tokens| > c.ctx then (s, false) else EvalFrom(s, c, tokens, 0, good)
  }

  function EvalChunk(s: State, c: Config, chunk: Chunk): (r: (State, bool))
    requires c.batch > 0
    ensures |s.history| <= |r.0.history|
  {
    match chunk
    case Text(tokens, good) => EvalTokens(s, c, tokens, good)
    case Image(size, good) => EvalTokens(s, c, Placeholders(size), good)
    case Unloadable => (s, false)
  }

  function EvalString(s: State, c: Config, chunks: seq<Chunk>): (r: (State, bool))
    requires c.batch > 0
    ensures |s.history| <= |r.0.history|
    decreases |chunks|
  {
    if chunks == [] then (s, true)
    else
      var (t, ok) := EvalChunk(s, c, chunks[0]);
      if ok then EvalString(t, c, chunks[1..]) else (t, false)
  }

  /** A sampled token, and whether the model takes it. */
  datatype Sample = Sample(id: Token, taken: bool)

  function Reply(s: State, c: Config, samples: seq<Sample>): State
    requires c.batch > 0
    decreases |samples|
  {
    if samples == [] then s
    else
      var (t, ok) := EvalTokens(s, c, [samples[0].id], if samples[0].taken then 1 else 0);
      if ok then Reply(t, c, samples[1..]) else t
  }

  /** `EvalString` only appends, which makes the rewind after a failure possible. */
  lemma {:induction false} EvalFromGrows(s: State, c: Config, tokens: seq<Token>, i: nat, good: nat)
    requires c.batch > 0 && s.kv == CellsOf(s.history) && (i < |tokens| ==> |s.history| + |tokens| - i <= c.ctx)
      && |s.history| <= c.ctx
    ensures var t := EvalFrom(s, c, tokens, i, good).0;
      && t == s.(history := t.history, kv := t.kv) && s.history <= t.history
      && t.kv == CellsOf(t.history) && |t.history| <= c.ctx
    decreases |tokens| - i
  {
    if i < |tokens| && good > 0 {
      var n := if |tokens| - i > c.batch then c.batch else |tokens| - i;
      DecodeAppends(s.history, tokens[i..i + n]);
      EvalFromGrows(DecodeBatch(s, tokens[i..i + n]), c, tokens, i + c.batch, good - 1);
    }
  }

  /** The parts of a state that evaluation leaves alone. */
  ghost predicate Grows(s: State, t: State, c: Config) {
    && t == s.(history := t.history, kv := t.kv) && s.history <= t.history
    && t.kv == CellsOf(t.history) && |t.history| <= c.ctx
  }

  lemma EvalTokensGrows(s: State, c: Config, tokens: seq<Token>, good: nat)
    requires c.batch > 0 && s.kv == CellsOf(s.history) && |s.history| <= c.ctx
    ensures Grows(s, EvalTokens(s, c, tokens, good).0, c)
  {
    hide EvalFrom;
    if |s.history| + |tokens| <= c.ctx {
      EvalFromGrows(s, c, tokens, 0, good);
    }
  }

  lemma {:induction false} EvalStringGrows(s: State, c: Config, chunks: seq<Chunk>)
    requires c.batch > 0 && s.kv == CellsOf(s.history) && |s.history| <= c.ctx
    ensures Grows(s, EvalString(s, c, chunks).0, c)
    decreases |chunks|
  {
    hide EvalTokens, CellsOf;
    if chunks != [] {
      var (t, ok) := EvalChunk(s, c, chunks[0]);
      match chunks[0] {
        case Text(tokens, good) => EvalTokensGrows(s, c, tokens, good);
        case Image(size, good) => EvalTokensGrows(s, c, Placeholders(size), good);
        case Unloadable =>
      }
      if ok {
        EvalStringGrows(t, c, chunks[1..]);
      }
    }
  }

  lemma {:induction false} ReplyGrows(s: State, c: Config, samples: seq<Sample>)
    requires c.batch > 0 && s.kv == CellsOf(s.history) && |s.history| <= c.ctx
    ensures Grows(s, Reply(s, c, samples), c)
    decreases |samples|
  {
    hide EvalTokens, CellsOf;
    if samples != [] {
      var good := if samples[0].taken then 1 else 0;
      EvalTokensGrows(s, c, [samples[0].id], good);
      if EvalTokens(s, c, [samples[0].id], good).1 {
        ReplyGrows(EvalTokens(s, c, [samples[0].id], good).0, c, samples[1..]);
      }
    }
  }

  /** When all goes well the history grows by exactly the tokens, whatever the batch size. */
  lemma {:induction false} EvalFromAppends(s: State, c: Config, tokens: seq<Token>, i: nat, good: nat)
    requires c.batch > 0 && i <= |tokens| + c.batch
    ensures var (t, ok) := EvalFrom(s, c, tokens, i, good);
      ok ==> t.history == s.history + if i <= |tokens| then tokens[i..] else []
    decreases |tokens| - i
  {
    hide Decode;
    if i < |tokens| && good > 0 {
      var n := if |tokens| - i > c.batch then c.batch else |tokens| - i;
      EvalFromAppends(DecodeBatch(s, tokens[i..i + n]), c, tokens, i + c.batch, good - 1);
      if i + c.batch <= |tokens| {
        assert tokens[i..i + n] + tokens[i + n..] == tokens[i..];
      } else {
        assert tokens[i..i + n] == tokens[i..];
      }
    }
  }

  // ----- one turn of the loop -----

  datatype Event =
    | Say(message: seq<Chunk>, samples: seq<Sample>)
    | Upload(chunks: seq<Chunk>)
    | UndoCommand | ForgetCommand | ClearCommand | PushCommand | PopCommand
    | Other

  /** A message, and the model's reply; no samples stands for manual mode. */
  function SayTo(s: State, c: Config, message: seq<Chunk>, samples: seq<Sample>): State
    requires c.batch > 0
  {
    var (t, ok) := EvalString(s, c, message);
    if ok then Reply(t, c, samples) else Rewind(t, |s.history|)
  }

  function UploadTo(s: State, c: Config, chunks: seq<Chunk>): State
    requires c.batch > 0
  {
    var (t, ok) := EvalString(s, c, chunks);
    if ok then t else Rewind(t, |s.history|)
  }

  function Command(s: State, c: Config, e: Event): State
    requires Inv(s, c) && c.batch > 0
  {
    match e
    case Say(message, samples) => SayTo(s, c, message, samples)
    case Upload(chunks) => UploadTo(s, c, chunks)
    case UndoCommand => Undo(s)
    case ForgetCommand => Forget(s)
    case ClearCommand => Clear(s)
    case PushCommand => Push(s)
    case PopCommand => Pop(s)
    case Other => s
  }

  lemma RecordKeeps(s: State, c: Config)
    requires Inv(s, c)
    ensures Inv(RecordUndo(s), c) && RecordUndo(s) == s.(undo := RecordUndo(s).undo)
    ensures RecordUndo(s).undo != [] && RecordUndo(s).undo[|RecordUndo(s).undo| - 1] == |s.history|
    ensures s.undo <= RecordUndo(s).undo
  {
  }

  /** One trip round the loop: the undo point is recorded before the line is read. */
  function Step(s: State, c: Config, e: Event): State
    requires Inv(s, c) && c.batch > 0
  {
    RecordKeeps(s, c);
    Command(RecordUndo(s), c, e)
  }

  // ----- what every command keeps -----

  lemma {:induction false} FixStackKeeps(stack: seq<int>, used: int, low: int, high: int)
    requires Nondecreasing(stack) && Between(stack, low, high) && used <= high
    ensures var r := FixStack(stack, used); Between(r, low, used) && Nondecreasing(r)
  {
    if stack != [] && stack[|stack| - 1] > used {
      FixStackKeeps(stack[..|stack| - 1], used, low, high);
    }
  }

  lemma StrictIsNot(s: seq<int>)
    requires Increasing(s)
    ensures Nondecreasing(s)
  {
  }

  /** Truncating the conversation, then fixing the stacks. */
  lemma TruncateKeeps(s: State, c: Config, pos: nat, undo: seq<int>, stack: seq<int>)
    requires Inv(s, c) && pos <= |s.history| && undo <= s.undo && stack <= s.stack
    ensures Inv(FixStacks(Rewind(s, pos).(undo := undo, stack := stack)), c)
  {
    hide CellsOf, SeqRm;
    RmTail(s.history, pos);
    StrictIsNot(undo);
    FixStackKeeps(undo, pos, 0, |s.history|);
    FixStackKeeps(stack, pos, s.system, |s.history|);
    if pos < s.system {
      EmptyBelow(stack, pos, s.system, |s.history|);
    }
    UndoAbove(s, FixStack(undo, pos), pos);
  }

  lemma EmptyBelow(stack: seq<int>, pos: int, low: int, high: int)
    requires Nondecreasing(stack) && Between(stack, low, high) && pos < low
    ensures FixStack(stack, pos) == []
  {
    FixStackKeeps(stack, if pos < high then pos else high, low, high);
  }

  lemma UndoAbove(s: State, u: seq<int>, pos: int)
    requires |s.undo| >= 2 ==> s.system <= s.undo[1]
    requires u <= s.undo && Between(u, 0, pos)
    ensures |u| >= 2 ==> (if s.system < pos then s.system else pos) <= u[1]
  {
  }

  lemma UndoKeeps(s: State, c: Config)
    requires Inv(s, c)
    ensures Inv(Undo(s), c)
  {
    var u := PopEqual(s.undo, |s.history|);
    if u != [] {
      assert u[|u| - 1] == s.undo[|u| - 1];
      TruncateKeeps(s, c, u[|u| - 1], u[..|u| - 1], s.stack);
      assert Rewind(s, u[|u| - 1]).(undo := u[..|u| - 1], stack := s.stack)
        == Rewind(s, u[|u| - 1]).(undo := u[..|u| - 1]);
    }
  }

  lemma ClearKeeps(s: State, c: Config)
    requires Inv(s, c)
    ensures Inv(Clear(s), c)
  {
    TruncateKeeps(s, c, s.system, s.undo, []);
  }

  lemma PopKeeps(s: State, c: Config)
    requires Inv(s, c)
    ensures Inv(Pop(s), c)
  {
    if s.stack != [] {
      TruncateKeeps(s, c, s.stack[|s.stack| - 1], s.undo, s.stack[..|s.stack| - 1]);
    }
  }

  lemma GrowsKeeps(s: State, t: State, c: Config)
    requires Inv(s, c) && Grows(s, t, c)
    ensures Inv(t, c)
  {
    hide CellsOf;
  }

  lemma SayKeeps(s: State, c: Config, message: seq<Chunk>, samples: seq<Sample>)
    requires Inv(s, c) && c.batch > 0
    ensures Inv(SayTo(s, c, message, samples), c)
  {
    hide EvalString, Reply, CellsOf, SeqRm;
    EvalStringGrows(s, c, message);
    var (t, ok) := EvalString(s, c, message);
    GrowsKeeps(s, t, c);
    if ok {
      ReplyGrows(t, c, samples);
      GrowsKeeps(t, Reply(t, c, samples), c);
    } else {
      RewindBack(s, t, c);
    }
  }

  /** Going back after a failure restores the state exactly. */
  lemma RewindBack(s: State, t: State, c: Config)
    requires s.kv == CellsOf(s.history) && Grows(s, t, c)
    ensures Rewind(t, |s.history|) == s
  {
    RmTail(t.history, |s.history|);
  }

  lemma UploadKeeps(s: State, c: Config, chunks: seq<Chunk>)
    requires Inv(s, c) && c.batch > 0
    ensures Inv(UploadTo(s, c, chunks), c)
  {
    hide EvalString, CellsOf, SeqRm;
    EvalStringGrows(s, c, chunks);
    var (t, ok) := EvalString(s, c, chunks);
    if ok {
      GrowsKeeps(s, t, c);
    } else {
      RewindBack(s, t, c);
    }
  }

  // ----- forgetting -----

  lemma {:induction false} AdjustBetween(begin: int, end: int, stack: seq<int>, low: int, high: int)
    requires begin <= end && Between(stack, low, high) && low <= begin && end <= high
    ensures Between(AdjustStack(begin, end, stack), low, high - (end - begin))
  {
    if stack != [] {
      AdjustBetween(begin, end, stack[..|stack| - 1], low, high);
    }
  }

  lemma OrderedSnoc(s: seq<int>, x: int)
    ensures Nondecreasing(s) && (s != [] ==> s[|s| - 1] <= x) ==> Nondecreasing(s + [x])
    ensures Increasing(s) && (s != [] ==> s[|s| - 1] < x) ==> Increasing(s + [x])
  {
  }

  lemma OrderedFront(s: seq<int>)
    requires s != [] && Nondecreasing(s)
    ensures Nondecreasing(s[..|s| - 1]) && (|s| > 1 ==> s[|s| - 2] <= s[|s| - 1])
    ensures Increasing(s) ==> Increasing(s[..|s| - 1]) && (|s| > 1 ==> s[|s| - 2] < s[|s| - 1])
  {
  }

  /** Taking out a slice and closing the gap keeps the order. */
  lemma {:induction false} AdjustOrdered(begin: int, end: int, stack: seq<int>)
    requires begin <= end && Nondecreasing(stack)
    ensures var r := AdjustStack(begin, end, stack);
      && Nondecreasing(r) && (Increasing(stack) ==> Increasing(r))
      && (r != [] ==> stack != [] && r[|r| - 1] <= Moved(stack[|stack| - 1], begin, end))
      && (r != [] && begin <= stack[|stack| - 1] < end ==> r[|r| - 1] < begin)
  {
    hide Nondecreasing, Increasing;
    if stack != [] {
      var front, pos := stack[..|stack| - 1], stack[|stack| - 1];
      OrderedFront(stack);
      AdjustOrdered(begin, end, front);
      OrderedSnoc(AdjustStack(begin, end, front), Moved(pos, begin, end));
      assert AdjustStack(begin, end, front) + [] == AdjustStack(begin, end, front);
    } else {
      EmptyOrdered();
    }
  }

  lemma EmptyOrdered()
    ensures Nondecreasing([]) && Increasing([])
  {
  }

  /** All that is needed of one adjusted stack. */
  lemma AdjustFits(begin: int, end: int, stack: seq<int>, low: int, high: int)
    requires begin <= end && Nondecreasing(stack) && Between(stack, low, high) && low <= begin && end <= high
    ensures var r := AdjustStack(begin, end, stack);
      && Between(r, low, high - (end - begin)) && Nondecreasing(r) && (Increasing(stack) ==> Increasing(r))
      && FixStack(r, high - (end - begin)) == r
  {
    hide *;
    AdjustBetween(begin, end, stack, low, high);
    AdjustOrdered(begin, end, stack);
    NothingToFix(AdjustStack(begin, end, stack), high - (end - begin), low);
  }

  /** The first position stays; whatever stands after it stands at or after the cut. */
  lemma {:induction false} AdjustAfterFirst(begin: int, end: int, stack: seq<int>)
    requires begin <= end && stack != [] && stack[0] < begin && forall i :: 1 <= i < |stack| ==> begin <= stack[i]
    ensures var r := AdjustStack(begin, end, stack);
      r != [] && r[0] == stack[0] && forall i :: 1 <= i < |r| ==> begin <= r[i]
  {
    if |stack| > 1 {
      AdjustAfterFirst(begin, end, stack[..|stack| - 1]);
    } else {
      assert AdjustStack(begin, end, []) == [];
    }
  }

  lemma {:induction false} NothingToFix(stack: seq<int>, used: int, low: int)
    requires Between(stack, low, used)
    ensures FixStack(stack, used) == stack
  {
  }

  lemma SliceInside(s: State, c: Config)
    requires Inv(s, c) && |s.undo| >= 2
    ensures s.system <= Slice(s).0 <= Slice(s).1 <= |s.history| && 0 <= s.undo[0] < Slice(s).0
    ensures forall i :: 1 <= i < |s.undo| ==> Slice(s).0 <= s.undo[i]
  {
  }

  /** What `/forget` comes to: the stacks need no fixing and the cache follows the history. */
  lemma ForgetIs(s: State, c: Config)
    requires Inv(s, c) && |s.undo| >= 2 && Slice(s).0 != Slice(s).1
    ensures var (begin, end) := Slice(s);
      && s.system <= begin <= end <= |s.history|
      && var h, u, k := s.history[..begin] + s.history[end..], AdjustStack(begin, end, s.undo),
        AdjustStack(begin, end, s.stack);
         && Forget(s) == State(h, u, k, s.system, CellsOf(h))
         && Between(u, 0, |h|) && Increasing(u) && Between(k, s.system, |h|) && Nondecreasing(k)
  {
    var (begin, end) := Slice(s);
    StrictIsNot(s.undo);
    SliceInside(s, c);
    InvMeans(s, c);
    hide *;
    ForgetUnfolds(s);
    ForgetCloses(s.history, begin, end);
    AdjustFits(begin, end, s.undo, 0, |s.history|);
    AdjustFits(begin, end, s.stack, s.system, |s.history|);
    NothingToFixAtAll(Unfixed(s, begin, end));
  }

  /** The state before the stacks are fixed. */
  function Unfixed(s: State, begin: int, end: int): State
    requires 0 <= begin <= end <= |s.history|
  {
    State(s.history[..begin] + s.history[end..], AdjustStack(begin, end, s.undo), AdjustStack(begin, end, s.stack),
          s.system, SeqAdd(SeqRm(s.kv, begin, end), end, -1, begin - end))
  }

  lemma ForgetUnfolds(s: State)
    requires Between(s.undo, 0, |s.history|) && Increasing(s.undo) && |s.undo| >= 2 && Slice(s).0 != Slice(s).1
    requires 0 <= Slice(s).0 <= Slice(s).1 <= |s.history|
    ensures var (begin, end) := Slice(s);
      && Forget(s) == FixStacks(Unfixed(s, begin, end))
      && Unfixed(s, begin, end).history == s.history[..begin] + s.history[end..]
      && Unfixed(s, begin, end).undo == AdjustStack(begin, end, s.undo)
      && Unfixed(s, begin, end).stack == AdjustStack(begin, end, s.stack)
      && Unfixed(s, begin, end).system == s.system
      && Unfixed(s, begin, end).kv == SeqAdd(SeqRm(s.kv, begin, end), end, -1, begin - end)
  {
    hide AdjustStack, FixStacks, SeqRm, SeqAdd;
  }

  lemma NothingToFixAtAll(t: State)
    requires FixStack(t.undo, |t.history|) == t.undo && FixStack(t.stack, |t.history|) == t.stack
      && t.system <= |t.history|
    ensures FixStacks(t) == t
  {
    hide FixStack;
  }

  lemma InvMeans(s: State, c: Config)
    requires Inv(s, c)
    ensures s.kv == CellsOf(s.history) && Increasing(s.undo) && Between(s.undo, 0, |s.history|)
    ensures 0 <= s.system <= |s.history| && Nondecreasing(s.stack) && Between(s.stack, s.system, |s.history|)
  {
  }

  /** `/forget` erases after the system prompt, and keeps everything in step. */
  lemma ForgetKeeps(s: State, c: Config)
    requires Inv(s, c)
    ensures Inv(Forget(s), c)
    ensures Forget(s).system == s.system && s.history[..s.system] <= Forget(s).history
  {
    if |s.undo| >= 2 && Slice(s).0 != Slice(s).1 {
      var (begin, end) := Slice(s);
      ForgetIs(s, c);
      SliceInside(s, c);
      AdjustAfterFirst(begin, end, s.undo);
      hide CellsOf, AdjustStack, Forget, Increasing, Nondecreasing, Between;
      assert s.history[..begin][..s.system] == s.history[..s.system];
    }
  }

  /** The positions that survive, as they were. */
  function Survivors(begin: int, end: int, stack: seq<int>): seq<int> {
    if stack == [] then []
    else
      var pos := stack[|stack| - 1];
      Survivors(begin, end, stack[..|stack| - 1]) + if Survives(pos, begin, end) then [pos] else []
  }

  /** `history` without the erased slice. */
  function Cut(history: seq<Token>, begin: nat, end: nat): seq<Token>
    requires begin <= end
  {
    if |history| <= begin then history else history[..begin] + if end <= |history| then history[end..] else []
  }

  lemma {:induction false} AdjustIsMoved(begin: int, end: int, stack: seq<int>)
    ensures var r, o := AdjustStack(begin, end, stack), Survivors(begin, end, stack);
      |r| == |o| && forall k :: 0 <= k < |r| ==>
        r[k] == Moved(o[k], begin, end) && Survives(o[k], begin, end) && o[k] in stack
  {
    if stack != [] {
      AdjustIsMoved(begin, end, stack[..|stack| - 1]);
    }
  }

  lemma MovedDenotes(h: seq<Token>, begin: nat, end: nat, pos: nat)
    requires begin <= end <= |h| && pos <= |h| && Survives(pos, begin, end)
    ensures var p := Moved(pos, begin, end);
      0 <= p <= |Cut(h, begin, end)| && Cut(h, begin, end)[..p] == Cut(h[..pos], begin, end)
  {
    if pos >= end {
      assert h[..pos][end..] == h[end..][..pos - end] && h[..pos][..begin] == h[..begin];
      assert (h[..begin] + h[end..])[..pos - (end - begin)] == h[..begin] + h[end..][..pos - end];
    }
  }

  /** A saved position inside the new history that denotes the old prefix it denoted, less the erased slice. */
  ghost predicate Denotes(s: State, t: State, before: seq<int>, after: seq<int>, begin: nat, end: nat)
    requires begin <= end
  {
    && |after| == |before|
    && forall k :: 0 <= k < |after| ==>
         && 0 <= before[k] <= |s.history| && 0 <= after[k] <= |t.history|
         && t.history[..after[k]] == Cut(s.history[..before[k]], begin, end)
  }

  /** After `/forget` every position that survives on either stack denotes its old prefix without the slice. */
  lemma ForgetDenotes(s: State, c: Config)
    requires Inv(s, c) && |s.undo| >= 2
    ensures var (begin, end) := Slice(s);
      && 0 <= begin <= end <= |s.history|
      && (begin != end ==>
            && Forget(s).history == Cut(s.history, begin, end)
            && Denotes(s, Forget(s), Survivors(begin, end, s.undo), Forget(s).undo, begin, end)
            && Denotes(s, Forget(s), Survivors(begin, end, s.stack), Forget(s).stack, begin, end))
  {
    var (begin, end) := Slice(s);
    if begin != end {
      StrictIsNot(s.undo);
      ForgetDenotesOn(s, c, s.undo, 0);
      ForgetDenotesOn(s, c, s.stack, s.system);
    }
  }

  lemma ForgetDenotesOn(s: State, c: Config, stack: seq<int>, low: nat)
    requires Inv(s, c) && |s.undo| >= 2 && Slice(s).0 != Slice(s).1
    requires Nondecreasing(stack) && Between(stack, low, |s.history|) && low <= s.undo[1]
    ensures var (begin, end) := Slice(s);
      && 0 <= begin <= end && Forget(s).history == Cut(s.history, begin, end)
      && Denotes(s, Forget(s), Survivors(begin, end, stack),
        FixStack(AdjustStack(begin, end, stack), |Forget(s).history|), begin, end)
  {
    hide CellsOf, SeqRm, SeqAdd, AdjustStack, Survivors;
    var (begin, end) := Slice(s);
    var r, o := AdjustStack(begin, end, stack), Survivors(begin, end, stack);
    assert Forget(s).history == Cut(s.history, begin, end);
    AdjustIsMoved(begin, end, stack);
    AdjustBetween(begin, end, stack, low, |s.history|);
    NothingToFix(r, |Forget(s).history|, low);
    forall k | 0 <= k < |r|
      ensures 0 <= o[k] <= |s.history| && 0 <= r[k] <= |Forget(s).history|
      ensures Forget(s).history[..r[k]] == Cut(s.history[..o[k]], begin, end)
    {
      MovedDenotes(s.history, begin, end, o[k]);
    }
  }

  // ----- all runs -----

  lemma StepKeeps(s: State, c: Config, e: Event)
    requires Inv(s, c) && c.batch > 0
    ensures Inv(Step(s, c, e), c)
  {
    hide CellsOf, SeqRm, Undo, Forget, Clear, Pop, SayTo, UploadTo, Increasing, RecordUndo, FixStacks;
    RecordKeeps(s, c);
    var t := RecordUndo(s);
    match e {
      case Say(message, samples) => SayKeeps(t, c, message, samples);
      case Upload(chunks) => UploadKeeps(t, c, chunks);
      case UndoCommand => UndoKeeps(t, c);
      case ForgetCommand => ForgetKeeps(t, c);
      case ClearCommand => ClearKeeps(t, c);
      case PushCommand =>
      case PopCommand => PopKeeps(t, c);
      case Other =>
    }
  }

  /** The state after the first `n` commands. */
  function Run(s: State, c: Config, events: seq<Event>, n: nat): (t: State)
    requires Inv(s, c) && c.batch > 0 && n <= |events|
    ensures Inv(t, c)
  {
    if n == 0 then s
    else
      StepKeeps(Run(s, c, events, n - 1), c, events[n - 1]);
      Step(Run(s, c, events, n - 1), c, events[n - 1])
  }

  /** The beginning-of-sequence token if the model wants one, then the system prompt if there is one. */
  function Setup(c: Config, bos: seq<Chunk>, prompt: seq<Chunk>): (State, bool)
    requires c.batch > 0
  {
    var s := RecordUndo(EvalString(State([], [], [], 0, {}), c, bos).0);
    if prompt == [] then (s, true)
    else
      var (t, ok) := EvalString(s, c, prompt);
      (t.(system := |t.history|), ok)
  }

  lemma SetupStarts(c: Config, bos: seq<Chunk>, prompt: seq<Chunk>)
    requires c.batch > 0
    ensures Inv(Setup(c, bos, prompt).0, c)
  {
    var s := State([], [], [], 0, {});
    assert s.kv == CellsOf(s.history);
    hide CellsOf, EvalString;
    EvalStringGrows(s, c, bos);
    GrowsKeeps(s, EvalString(s, c, bos).0, c);
    var t := RecordUndo(EvalString(s, c, bos).0);
    RecordKeeps(EvalString(s, c, bos).0, c);
    EvalStringGrows(t, c, prompt);
    GrowsKeeps(t, EvalString(t, c, prompt).0, c);
  }

  /** Over every run from the setup on: the cache holds token `i` of the history at position `i` and nothing else,
      the context is never exceeded, both stacks are in order and within the history. */
  lemma AllRuns(c: Config, bos: seq<Chunk>, prompt: seq<Chunk>, events: seq<Event>, n: nat)
    requires c.batch > 0 && n <= |events|
    ensures var s := Setup(c, bos, prompt).0;
      && Inv(s, c)
      && var t := Run(s, c, events, n);
         && t.kv == CellsOf(t.history) && |t.history| <= c.ctx
         && Increasing(t.undo) && Nondecreasing(t.stack)
         && Between(t.undo, 0, |t.history|) && Between(t.stack, t.system, |t.history|)
  {
    hide CellsOf, Setup;
    SetupStarts(c, bos, prompt);
  }

  /** Every command but `/undo` leaves the system prompt where it is. */
  lemma SystemPromptStays(s: State, c: Config, e: Event)
    requires Inv(s, c) && c.batch > 0 && !e.UndoCommand?
    ensures Step(s, c, e).system == s.system && s.history[..s.system] <= Step(s, c, e).history
  {
    hide CellsOf, SeqRm, Forget, EvalString, Reply;
    RecordKeeps(s, c);
    var t := RecordUndo(s);
    match e {
      case Say(message, samples) =>
        EvalStringGrows(t, c, message);
        ReplyGrows(EvalString(t, c, message).0, c, samples);
        RewindBack(t, EvalString(t, c, message).0, c);
      case Upload(chunks) =>
        EvalStringGrows(t, c, chunks);
        RewindBack(t, EvalString(t, c, chunks).0, c);
      case ForgetCommand => ForgetKeeps(t, c);
      case ClearCommand =>
      case PushCommand =>
      case PopCommand =>
      case Other =>
    }
  }

  /** `/undo` goes back to the last recorded position before the end, if there is one. */
  lemma UndoGoesBack(s: State, c: Config)
    requires Inv(s, c)
    ensures var u := PopEqual(s.undo, |s.history|);
      && (u == [] ==> Undo(s).history == s.history)
      && (u != [] ==>
            && u[|u| - 1] < |s.history| && Undo(s).history == s.history[..u[|u| - 1]]
            && (Undo(s).system == s.system <==> s.system <= u[|u| - 1]))
  {
  }

  /** Right after a system prompt was loaded, `/undo` erases it: the only recorded position is before it. */
  lemma FirstUndoErasesPrompt(c: Config, bos: seq<Chunk>, prompt: seq<Chunk>)
    requires c.batch > 0 && prompt != [] && |Setup(c, bos, prompt).0.history| > |Setup(c, bos, []).0.history|
    ensures Inv(Setup(c, bos, prompt).0, c)
    ensures Step(Setup(c, bos, prompt).0, c, UndoCommand).history == Setup(c, bos, []).0.history
  {
    var z := State([], [], [], 0, {});
    assert z.kv == CellsOf(z.history);
    hide CellsOf, EvalString, SeqRm;
    SetupStarts(c, bos, prompt);
    SetupStarts(c, bos, []);
    var s, t := Setup(c, bos, []).0, Setup(c, bos, prompt).0;
    EvalStringGrows(z, c, bos);
    EvalStringGrows(s, c, prompt);
    assert t.undo == [|s.history|] && s.history <= t.history;
    assert RecordUndo(t).undo == [|s.history|] + [|t.history|];
    PopLast([|s.history|], |t.history|);
  }

  lemma PopLast(u: seq<int>, used: int)
    requires u == [] || u[|u| - 1] != used
    ensures PopEqual(u + [used], used) == u
  {
    assert (u + [used])[..|u|] == u;
  }

  /** What talking does: the history grows, or stays when it fails; the stacks and the system prompt stay. */
  lemma TalkGrows(s: State, c: Config, e: Event)
    requires Inv(s, c) && c.batch > 0 && (e.Say? || e.Upload? || e.Other?)
    ensures Grows(RecordUndo(s), Step(s, c, e), c)
  {
    hide CellsOf, SeqRm, EvalString, Reply;
    RecordKeeps(s, c);
    var t := RecordUndo(s);
    if e.Say? {
      EvalStringGrows(t, c, e.message);
      ReplyGrows(EvalString(t, c, e.message).0, c, e.samples);
      RewindBack(t, EvalString(t, c, e.message).0, c);
    } else if e.Upload? {
      EvalStringGrows(t, c, e.chunks);
      RewindBack(t, EvalString(t, c, e.chunks).0, c);
    }
  }

  /** A message or upload that fails half-way leaves no trace but the recorded undo point. */
  lemma FailureLeavesNoTrace(s: State, c: Config, e: Event)
    requires Inv(s, c) && c.batch > 0
    requires (e.Say? && !EvalString(RecordUndo(s), c, e.message).1)
      || (e.Upload? && !EvalString(RecordUndo(s), c, e.chunks).1)
    ensures Step(s, c, e) == RecordUndo(s)
  {
    hide CellsOf, SeqRm, EvalString;
    RecordKeeps(s, c);
    var t, message := RecordUndo(s), if e.Say? then e.message else e.chunks;
    EvalStringGrows(t, c, message);
    RewindBack(t, EvalString(t, c, message).0, c);
  }

  /** `/undo` after a message or upload takes the conversation back to what it was before. */
  lemma UndoAfterTalk(s: State, c: Config, e: Event)
    requires Inv(s, c) && c.batch > 0 && (e.Say? || e.Upload?) && |Step(s, c, e).history| > |s.history|
    ensures Inv(Step(s, c, e), c)
    ensures var r := Step(Step(s, c, e), c, UndoCommand);
      r.history == s.history && r.kv == s.kv && r.stack == s.stack && r.system == s.system
  {
    hide CellsOf, SeqRm, Command;
    RecordKeeps(s, c);
    StepKeeps(s, c, e);
    TalkGrows(s, c, e);
    UndoneTalk(RecordUndo(s), Step(s, c, e), c);
  }

  lemma UndoneTalk(s: State, t: State, c: Config)
    requires Inv(s, c) && Inv(t, c) && c.batch > 0 && Grows(s, t, c) && |s.history| < |t.history|
    requires s.undo != [] && s.undo[|s.undo| - 1] == |s.history|
    ensures var r := Step(t, c, UndoCommand);
      r.history == s.history && r.kv == s.kv && r.stack == s.stack && r.system == s.system
  {
    NothingToFix(s.stack, |s.history|, s.system);
    RecordKeeps(t, c);
    PopLast(s.undo, |t.history|);
    RmTail(t.history, |s.history|);
    assert RecordUndo(t).undo == s.undo + [|t.history|];
    UndoneFrom(s, RecordUndo(t));
    hide *;
  }

  lemma UndoneFrom(s: State, t: State)
    requires s.history <= t.history && t.stack == s.stack && t.system == s.system <= |s.history|
      && |s.history| < |t.history|
    requires Between(t.undo, 0, |t.history|) && PopEqual(t.undo, |t.history|) == s.undo
    requires s.undo != [] && s.undo[|s.undo| - 1] == |s.history| && FixStack(s.stack, |s.history|) == s.stack
    requires s.kv == CellsOf(s.history) && SeqRm(t.kv, |s.history|, -1) == CellsOf(t.history[..|s.history|])
    ensures var r := Undo(t); r.history == s.history && r.kv == s.kv && r.stack == s.stack && r.system == s.system
  {
    hide CellsOf, SeqRm, FixStack, PopEqual;
  }

  /** `/push`, any amount of talk, `/pop`: back at the conversation that was pushed, with the stack as it was. */
  lemma PopAfterPush(s: State, c: Config, talk: seq<Event>)
    requires Inv(s, c) && c.batch > 0 && forall e :: e in talk ==> e.Say? || e.Upload? || e.Other?
    ensures Inv(Step(s, c, PushCommand), c)
    ensures var r := Step(Run(Step(s, c, PushCommand), c, talk, |talk|), c, PopCommand);
      r.history == s.history && r.kv == s.kv && r.stack == s.stack && r.system == s.system
  {
    RecordKeeps(s, c);
    StepKeeps(s, c, PushCommand);
    var p := Step(s, c, PushCommand);
    assert p.history == s.history && p.stack == s.stack + [|s.history|] && p.system == s.system;
    hide *;
    TalkingGrows(p, c, talk, |talk|);
    PoppedBack(s, Run(p, c, talk, |talk|), c);
  }

  lemma PoppedBack(s: State, t: State, c: Config)
    requires Inv(s, c) && Inv(t, c) && c.batch > 0 && s.history <= t.history && t.system == s.system
    requires t.stack == s.stack + [|s.history|]
    ensures var r := Step(t, c, PopCommand);
      r.history == s.history && r.kv == s.kv && r.stack == s.stack && r.system == s.system
  {
    hide CellsOf, SeqRm;
    RecordKeeps(t, c);
    RmTail(t.history, |s.history|);
    NothingToFix(s.stack, |s.history|, s.system);
  }

  lemma {:induction false} TalkingGrows(s: State, c: Config, talk: seq<Event>, n: nat)
    requires Inv(s, c) && c.batch > 0 && n <= |talk| && forall e :: e in talk ==> e.Say? || e.Upload? || e.Other?
    ensures var t := Run(s, c, talk, n); s.history <= t.history && t.stack == s.stack && t.system == s.system
  {
    hide CellsOf, SeqRm, Command, Step, RecordUndo;
    if n > 0 {
      TalkingGrows(s, c, talk, n - 1);
      var t := Run(s, c, talk, n - 1);
      assert talk[n - 1] in talk;
      RecordKeeps(t, c);
      TalkGrows(t, c, talk[n - 1]);
    }
  }
}
