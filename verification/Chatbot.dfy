/** The chatbot's global state and the functions that change it, step by step (llamafile/chatbot_hist.cpp,
    llamafile/chatbot_eval.cpp, llamafile/chatbot_repl.cpp). */
module Chatbot {
  import opened KvCache
  import opened Conversation

  class Chat {
    var history: seq<Token>
    var undo: seq<int>
    var stack: seq<int>
    var system: int
    var kv: set<Cell>
    const c: Config

    ghost function S(): State
      reads this
    {
      State(history, undo, stack, system, kv)
    }

    ghost predicate Valid()
      reads this
    {
      Inv(S(), c) && c.batch > 0
    }

    constructor (config: Config)
      requires config.batch > 0
      ensures Valid() && c == config && S() == State([], [], [], 0, {})
    {
      history, undo, stack, system, kv, c := [], [], [], 0, {}, config;
    }

    method RewindTo(pos: int)
      requires 0 <= pos <= |history|
      modifies this
      ensures S() == Rewind(old(S()), pos)
    {
      kv := SeqRm(kv, pos, -1);
      history := history[..pos];
    }

    static method PopAbove(stack: seq<int>, used: int) returns (r: seq<int>)
      ensures r == FixStack(stack, used)
    {
      r := stack;
      while r != [] && r[|r| - 1] > used
        invariant FixStack(r, used) == FixStack(stack, used)
        decreases |r|
      {
        r := r[..|r| - 1];
      }
    }

    method FixBoth()
      modifies this`undo, this`stack, this`system
      ensures S() == FixStacks(old(S()))
    {
      undo := PopAbove(undo, |history|);
      stack := PopAbove(stack, |history|);
      if system > |history| {
        system := |history|;
      }
    }

    static method Adjust(begin: int, end: int, stack: seq<int>) returns (builder: seq<int>)
      ensures builder == AdjustStack(begin, end, stack)
    {
      builder := [];
      for i := 0 to |stack|
        invariant builder == AdjustStack(begin, end, stack[..i])
      {
        var pos := stack[i];
        assert stack[..i + 1][..i] == stack[..i];
        if begin <= pos < end {
          continue;
        }
        if pos >= end {
          pos := pos - (end - begin);
        }
        builder := builder + [pos];
      }
      assert stack[..|stack|] == stack;
    }

    method RecordUndoPoint()
      modifies this`undo
      ensures S() == RecordUndo(old(S()))
    {
      if undo == [] || undo[|undo| - 1] != |history| {
        undo := undo + [|history|];
      }
    }

    method OnUndo()
      requires Valid()
      modifies this
      ensures Valid() && S() == Undo(old(S()))
    {
      UndoKeeps(S(), c);
      while undo != [] && undo[|undo| - 1] == |history|
        invariant PopEqual(undo, |history|) == PopEqual(old(undo), |history|) && undo <= old(undo)
        invariant history == old(history) && stack == old(stack) && system == old(system) && kv == old(kv)
        decreases |undo|
      {
        undo := undo[..|undo| - 1];
      }
      if undo == [] {
        return;
      }
      RewindTo(undo[|undo| - 1]);
      undo := undo[..|undo| - 1];
      FixBoth();
    }

    method Erase(begin: int, end: int)
      requires 0 <= begin <= end <= |history|
      modifies this
      ensures S() == Unfixed(old(S()), begin, end)
    {
      kv := SeqRm(kv, begin, end);
      kv := SeqAdd(kv, end, -1, 0 - (end - begin));
      history := history[..begin] + history[end..];
      undo := Adjust(begin, end, undo);
      stack := Adjust(begin, end, stack);
    }

    method OnForget()
      requires Valid()
      modifies this
      ensures Valid() && S() == Forget(old(S()))
    {
      ForgetKeeps(S(), c);
      InvMeans(S(), c);
      if |undo| < 2 {
        return;
      }
      SliceInside(S(), c);
      var eraseBegin, eraseEnd := undo[1], if |undo| > 2 then undo[2] else |history|;
      if eraseEnd - eraseBegin == 0 {
        return;
      }
      ForgetUnfolds(S());
      hide Unfixed, Forget, FixStacks, Inv, Between, Increasing;
      Erase(eraseBegin, eraseEnd);
      FixBoth();
    }

    method OnClear()
      requires Valid()
      modifies this
      ensures Valid() && S() == Clear(old(S()))
    {
      ClearKeeps(S(), c);
      RewindTo(system);
      stack := [];
      FixBoth();
    }

    method OnPush()
      requires Valid()
      modifies this`stack
      ensures Valid() && S() == Push(old(S()))
    {
      stack := stack + [|history|];
    }

    method OnPop()
      requires Valid()
      modifies this
      ensures Valid() && S() == Pop(old(S()))
    {
      PopKeeps(S(), c);
      if stack == [] {
        return;
      }
      RewindTo(stack[|stack| - 1]);
      stack := stack[..|stack| - 1];
      FixBoth();
    }

    method Eval(tokens: seq<Token>, good: nat) returns (ok: bool)
      requires c.batch > 0
      modifies this
      ensures (S(), ok) == EvalTokens(old(S()), c, tokens, good)
    {
      if |history| + |tokens| > c.ctx {
        return false;
      }
      var i: nat, left: nat := 0, good;
      while i < |tokens|
        invariant EvalFrom(S(), c, tokens, i, left) == EvalFrom(old(S()), c, tokens, 0, good)
        decreases |tokens| - i
      {
        var n := |tokens| - i;
        if n > c.batch {
          n := c.batch;
        }
        if left == 0 {
          return false;
        }
        kv := Decode(kv, tokens[i..i + n], |history|);
        history := history + tokens[i..i + n];
        left := left - 1;
        i := i + c.batch;
      }
      return true;
    }

    method EvalMessage(chunks: seq<Chunk>) returns (ok: bool)
      requires c.batch > 0
      modifies this
      ensures (S(), ok) == EvalString(old(S()), c, chunks)
    {
      hide EvalTokens;
      var k := 0;
      while k < |chunks|
        invariant k <= |chunks|
        invariant EvalString(S(), c, chunks[k..]) == EvalString(old(S()), c, chunks)
      {
        assert chunks[k..][1..] == chunks[k + 1..];
        match chunks[k] {
          case Text(tokens, good) => ok := Eval(tokens, good);
          case Image(size, good) => ok := Eval(Placeholders(size), good);
          case Unloadable => ok := false;
        }
        if !ok {
          return false;
        }
        k := k + 1;
      }
      return true;
    }

    method Generate(samples: seq<Sample>)
      requires c.batch > 0
      modifies this
      ensures S() == Reply(old(S()), c, samples)
    {
      hide EvalTokens;
      var k := 0;
      while k < |samples|
        invariant k <= |samples|
        invariant Reply(S(), c, samples[k..]) == Reply(old(S()), c, samples)
      {
        assert samples[k..][1..] == samples[k + 1..];
        var ok := Eval([samples[k].id], if samples[k].taken then 1 else 0);
        if !ok {
          return;
        }
        k := k + 1;
      }
    }

    method OnSay(message: seq<Chunk>, samples: seq<Sample>)
      requires Valid()
      modifies this
      ensures Valid() && S() == SayTo(old(S()), c, message, samples)
    {
      SayKeeps(S(), c, message, samples);
      hide EvalString, Reply, CellsOf;
      var before := |history|;
      var ok := EvalMessage(message);
      if !ok {
        RewindTo(before);
        return;
      }
      Generate(samples);
    }

    method OnUpload(chunks: seq<Chunk>)
      requires Valid()
      modifies this
      ensures Valid() && S() == UploadTo(old(S()), c, chunks)
    {
      UploadKeeps(S(), c, chunks);
      hide EvalString, CellsOf;
      var before := |history|;
      var ok := EvalMessage(chunks);
      if !ok {
        RewindTo(before);
      }
    }

    method Handle(e: Event)
      requires Valid()
      modifies this
      ensures Valid() && S() == Command(old(S()), c, e)
    {
      match e {
        case Say(message, samples) => OnSay(message, samples);
        case Upload(chunks) => OnUpload(chunks);
        case UndoCommand => OnUndo();
        case ForgetCommand => OnForget();
        case ClearCommand => OnClear();
        case PushCommand => OnPush();
        case PopCommand => OnPop();
        case Other =>
      }
    }

    /** The setup; no conversation starts when the system prompt does not fit. */
    method Start(bos: seq<Chunk>, prompt: seq<Chunk>) returns (ok: bool)
      requires Valid() && S() == State([], [], [], 0, {})
      modifies this
      ensures Valid() && (ok ==> S() == Setup(c, bos, prompt).0) && ok == Setup(c, bos, prompt).1
    {
      SetupStarts(c, bos, prompt);
      EvalStringGrows(S(), c, bos);
      hide EvalString, CellsOf;
      var loaded := EvalMessage(bos);
      RecordKeeps(S(), c);
      RecordUndoPoint();
      ok := true;
      if prompt != [] {
        EvalStringGrows(S(), c, prompt);
        ok := EvalMessage(prompt);
        if ok {
          system := |history|;
        }
      }
    }

    /** The endless loop, as far as the given commands go. */
    method Repl(events: seq<Event>)
      requires Valid()
      modifies this
      ensures Valid() && S() == Run(old(S()), c, events, |events|)
    {
      hide Command, CellsOf, RecordUndo;
      for n := 0 to |events|
        invariant Valid() && S() == Run(old(S()), c, events, n)
      {
        RecordKeeps(S(), c);
        RecordUndoPoint();
        Handle(events[n]);
      }
    }
  }
}
