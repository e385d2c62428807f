/** What each command of the chatbot comes to: exact results, for every state a run can be in. */
module ConversationLaws {
  import opened KvCache
  import opened Conversation

  // ----- going back -----

  /** `r` are exactly the positions of `stack` that are not above `used`. */
  ghost predicate Below(stack: seq<int>, used: int, r: seq<int>) {
    r <= stack && (forall x :: x in r ==> x <= used) && forall i :: |r| <= i < |stack| ==> stack[i] > used
  }

  lemma {:induction false} FixStackIs(stack: seq<int>, used: int)
    requires Nondecreasing(stack)
    ensures Below(stack, used, FixStack(stack, used))
  {
    if stack != [] && stack[|stack| - 1] > used {
      FixStackIs(stack[..|stack| - 1], used);
    }
  }

  lemma BelowAll(stack: seq<int>, used: int)
    requires forall x :: x in stack ==> x <= used
    ensures FixStack(stack, used) == stack
  {
    if stack != [] {
      assert stack[|stack| - 1] in stack;
    }
  }

  /** The conversation cut off at `pos`, all its parts in step. */
  ghost predicate CutOff(s: State, pos: int, t: State) {
    && 0 <= pos <= |s.history|
    && t.history == s.history[..pos] && t.kv == CellsOf(t.history)
    && t.system == if s.system < pos then s.system else pos
  }

  /** `/clear` goes back to the end of the system prompt, forgets what was pushed, and keeps exactly the undo points
      that are not above. */
  lemma ClearIs(s: State, c: Config)
    requires Inv(s, c)
    ensures var t := Clear(s);
      CutOff(s, s.system, t) && t.system == s.system && t.stack == [] && Below(s.undo, s.system, t.undo)
  {
    hide CellsOf, SeqRm;
    RmTail(s.history, s.system);
    StrictIsNot(s.undo);
    FixStackIs(s.undo, s.system);
  }

  /** `/pop` goes back to the position pushed last and takes it off the stack. */
  lemma PopIs(s: State, c: Config)
    requires Inv(s, c)
    ensures s.stack == [] ==> Pop(s) == s
    ensures s.stack != [] ==>
      var pos, t := s.stack[|s.stack| - 1], Pop(s);
      && CutOff(s, pos, t) && t.system == s.system
      && t.stack == s.stack[..|s.stack| - 1] && Below(s.undo, pos, t.undo)
  {
    hide CellsOf, SeqRm;
    if s.stack != [] {
      var pos := s.stack[|s.stack| - 1];
      RmTail(s.history, pos);
      StrictIsNot(s.undo);
      FixStackIs(s.undo, pos);
      BelowAll(s.stack[..|s.stack| - 1], pos);
    }
  }

  /** `/undo` goes back to the last undo point before the end, and drops it and what is above it. */
  lemma UndoIs(s: State, c: Config)
    requires Inv(s, c)
    ensures var u := PopEqual(s.undo, |s.history|);
      && (u == [] ==> Undo(s) == s.(undo := []))
      && (u != [] ==>
            var pos, t := u[|u| - 1], Undo(s);
            && CutOff(s, pos, t) && pos < |s.history|
            && t.undo == u[..|u| - 1] && Below(s.stack, pos, t.stack))
  {
    hide CellsOf, SeqRm;
    var u := PopEqual(s.undo, |s.history|);
    if u != [] {
      var pos := u[|u| - 1];
      assert pos == s.undo[|u| - 1];
      RmTail(s.history, pos);
      FixStackIs(s.stack, pos);
      BelowAll(u[..|u| - 1], pos);
    }
  }

  /** Of the undo points only the end of the conversation itself is passed over. */
  lemma UndoSkips(s: State, c: Config)
    requires Inv(s, c)
    ensures var n := |s.undo|;
      PopEqual(s.undo, |s.history|) == if n > 0 && s.undo[n - 1] == |s.history| then s.undo[..n - 1] else s.undo
  {
    var n := |s.undo|;
    if n > 0 && s.undo[n - 1] == |s.history| {
      assert n > 1 ==> s.undo[n - 2] < s.undo[n - 1];
      assert PopEqual(s.undo[..n - 1], |s.history|) == s.undo[..n - 1];
    }
  }

  /** The undo point recorded at the head of the loop is there once. */
  lemma RecordIs(s: State, c: Config)
    requires Inv(s, c)
    ensures var t := RecordUndo(s);
      && t == s.(undo := t.undo) && s.undo <= t.undo && |t.undo| <= |s.undo| + 1
      && |s.history| in t.undo && forall x :: x in t.undo ==> x in s.undo || x == |s.history|
  {
  }

  // ----- what a message adds -----

  /** The tokens of a message, an image standing as its placeholders. */
  function TokensOf(chunks: seq<Chunk>): seq<Token> {
    if chunks == [] then []
    else ChunkTokens(chunks[0]) + TokensOf(chunks[1..])
  }

  function ChunkTokens(chunk: Chunk): seq<Token> {
    match chunk
    case Text(tokens, _) => tokens
    case Image(size, _) => Placeholders(size)
    case Unloadable => []
  }

  /** How many batches `n` tokens take. */
  function Batches(n: nat, batch: nat): nat
    requires batch > 0
  {
    if n == 0 then 0 else if n <= batch then 1 else 1 + Batches(n - batch, batch)
  }

  /** The image loads and no batch is refused or interrupted. */
  predicate Decodes(chunk: Chunk, batch: nat)
    requires batch > 0
  {
    !chunk.Unloadable? && Batches(|ChunkTokens(chunk)|, batch) <= chunk.good
  }

  lemma {:induction false} EvalFromSucceeds(s: State, c: Config, tokens: seq<Token>, i: nat, good: nat)
    requires c.batch > 0
    ensures EvalFrom(s, c, tokens, i, good).1 <==> (i < |tokens| ==> Batches(|tokens| - i, c.batch) <= good)
    decreases |tokens| - i
  {
    hide DecodeBatch;
    if i < |tokens| && good > 0 {
      var n := if |tokens| - i > c.batch then c.batch else |tokens| - i;
      EvalFromSucceeds(DecodeBatch(s, tokens[i..i + n]), c, tokens, i + c.batch, good - 1);
    }
  }

  /** Even when it stops half-way, what was added is a first part of the tokens. */
  lemma {:induction false} EvalFromPrefix(s: State, c: Config, tokens: seq<Token>, i: nat, good: nat)
    requires c.batch > 0 && i <= |tokens|
    ensures EvalFrom(s, c, tokens, i, good).0.history <= s.history + tokens[i..]
    decreases |tokens| - i
  {
    hide Decode;
    if i < |tokens| && good > 0 {
      var n := if |tokens| - i > c.batch then c.batch else |tokens| - i;
      var t := DecodeBatch(s, tokens[i..i + n]);
      assert tokens[i..i + n] + tokens[i + n..] == tokens[i..];
      assert t.history + tokens[i + n..] == s.history + tokens[i..];
      if i + c.batch <= |tokens| {
        EvalFromPrefix(t, c, tokens, i + c.batch, good - 1);
      } else {
        assert EvalFrom(t, c, tokens, i + c.batch, good - 1) == (t, true);
      }
    }
  }

  lemma EvalTokensIs(s: State, c: Config, tokens: seq<Token>, good: nat)
    requires c.batch > 0
    ensures var (t, ok) := EvalTokens(s, c, tokens, good);
      && (ok <==> |s.history| + |tokens| <= c.ctx && Batches(|tokens|, c.batch) <= good)
      && t.history <= s.history + tokens && (ok ==> t.history == s.history + tokens)
  {
    hide EvalFrom;
    if |s.history| + |tokens| <= c.ctx {
      EvalFromSucceeds(s, c, tokens, 0, good);
      EvalFromPrefix(s, c, tokens, 0, good);
      EvalFromAppends(s, c, tokens, 0, good);
      assert tokens[0..] == tokens;
    }
  }

  lemma ChunkIs(s: State, c: Config, chunk: Chunk)
    requires c.batch > 0
    ensures var (t, ok) := EvalChunk(s, c, chunk);
      && (ok <==> Decodes(chunk, c.batch) && |s.history| + |ChunkTokens(chunk)| <= c.ctx)
      && t.history <= s.history + ChunkTokens(chunk) && (ok ==> t.history == s.history + ChunkTokens(chunk))
  {
    hide EvalTokens, Batches;
    match chunk
    case Text(tokens, good) => EvalTokensIs(s, c, tokens, good);
    case Image(size, good) => EvalTokensIs(s, c, Placeholders(size), good);
    case Unloadable =>
  }

  /** Evaluating a message succeeds if and only if every piece of it can be decoded and all of it fits into the
      context; then the history grows by exactly its tokens, in order. Otherwise it grows by a first part of them. */
  lemma {:induction false} MessageIs(s: State, c: Config, chunks: seq<Chunk>)
    requires c.batch > 0 && |s.history| <= c.ctx
    ensures var (t, ok) := EvalString(s, c, chunks);
      && (ok <==> (forall k :: 0 <= k < |chunks| ==> Decodes(chunks[k], c.batch))
                  && |s.history| + |TokensOf(chunks)| <= c.ctx)
      && t.history <= s.history + TokensOf(chunks) && (ok ==> t.history == s.history + TokensOf(chunks))
    decreases |chunks|
  {
    hide EvalChunk, Decodes, ChunkTokens;
    if chunks != [] {
      ChunkIs(s, c, chunks[0]);
      var (t, ok) := EvalChunk(s, c, chunks[0]);
      var rest := TokensOf(chunks[1..]);
      assert s.history + TokensOf(chunks) == s.history + ChunkTokens(chunks[0]) + rest;
      if ok {
        MessageIs(t, c, chunks[1..]);
        AllOfRest(chunks, c.batch);
      } else {
        PrefixStays(t.history, s.history + ChunkTokens(chunks[0]), rest);
      }
    }
  }

  lemma AllOfRest(chunks: seq<Chunk>, batch: nat)
    requires chunks != [] && batch > 0
    ensures (forall k :: 0 <= k < |chunks| ==> Decodes(chunks[k], batch))
       <==> Decodes(chunks[0], batch) && forall k :: 0 <= k < |chunks[1..]| ==> Decodes(chunks[1..][k], batch)
  {
    hide Decodes;
    if Decodes(chunks[0], batch) && forall k :: 0 <= k < |chunks[1..]| ==> Decodes(chunks[1..][k], batch) {
      forall k | 0 <= k < |chunks|
        ensures Decodes(chunks[k], batch)
      {
        assert k > 0 ==> chunks[k] == chunks[1..][k - 1];
      }
    }
  }

  lemma PrefixStays(a: seq<Token>, b: seq<Token>, d: seq<Token>)
    requires a <= b
    ensures a <= b + d
  {
  }

  // ----- what the model's reply adds -----

  /** How many samples are taken before the first that is refused. */
  function Taken(samples: seq<Sample>): (n: nat)
    ensures n <= |samples|
  {
    if samples != [] && samples[0].taken then 1 + Taken(samples[1..]) else 0
  }

  function Ids(samples: seq<Sample>): (ids: seq<Token>)
    ensures |ids| == |samples| && forall k :: 0 <= k < |ids| ==> ids[k] == samples[k].id
  {
    seq(|samples|, k requires 0 <= k < |samples| => samples[k].id)
  }

  /** The reply adds exactly the samples the model takes, as far as there is room. */
  lemma {:induction false} ReplyIs(s: State, c: Config, samples: seq<Sample>)
    requires c.batch > 0 && |s.history| <= c.ctx
    ensures var n := if Taken(samples) <= c.ctx - |s.history| then Taken(samples) else c.ctx - |s.history|;
      Reply(s, c, samples).history == s.history + Ids(samples[..n])
    decreases |samples|
  {
    hide EvalTokens, Ids;
    if samples != [] {
      var first := samples[0];
      var good := if first.taken then 1 else 0;
      EvalTokensIs(s, c, [first.id], good);
      var (t, ok) := EvalTokens(s, c, [first.id], good);
      assert Batches(1, c.batch) == 1;
      if ok {
        ReplyIs(t, c, samples[1..]);
        var n := if Taken(samples) <= c.ctx - |s.history| then Taken(samples) else c.ctx - |s.history|;
        assert samples[..n][0] == first && samples[..n][1..] == samples[1..][..n - 1];
        IdsFirst(samples[..n]);
      } else {
        NoIds();
        EvalTokensStays(s, c, first.id, good);
      }
    } else {
      NoIds();
    }
  }

  lemma IdsFirst(samples: seq<Sample>)
    requires samples != []
    ensures Ids(samples) == [samples[0].id] + Ids(samples[1..])
  {
  }

  lemma NoIds()
    ensures Ids([]) == []
  {
  }

  lemma EvalTokensStays(s: State, c: Config, id: Token, good: nat)
    requires c.batch > 0 && !EvalTokens(s, c, [id], good).1
    ensures EvalTokens(s, c, [id], good).0 == s
  {
    if |s.history| + 1 <= c.ctx {
      EvalFromSucceeds(s, c, [id], 0, good);
      assert Batches(1, c.batch) == 1 && good == 0;
    }
  }

  /** What saying something adds: the message and the reply, or nothing. */
  lemma SayAdds(s: State, c: Config, message: seq<Chunk>, samples: seq<Sample>)
    requires Inv(s, c) && c.batch > 0
    ensures var before := s.history + TokensOf(message);
      var fits := (forall k :: 0 <= k < |message| ==> Decodes(message[k], c.batch)) && |before| <= c.ctx;
      var room := if Taken(samples) <= c.ctx - |before| then Taken(samples) else c.ctx - |before|;
      SayTo(s, c, message, samples).history == if fits then before + Ids(samples[..room]) else s.history
  {
    hide CellsOf, SeqRm, EvalString, Reply, Ids, Decodes, TokensOf;
    EvalStringGrows(s, c, message);
    MessageIs(s, c, message);
    var (t, ok) := EvalString(s, c, message);
    if ok {
      ReplyIs(t, c, samples);
    } else {
      RewindBack(s, t, c);
    }
  }

  /** And an upload. */
  lemma UploadAdds(s: State, c: Config, chunks: seq<Chunk>)
    requires Inv(s, c) && c.batch > 0
    ensures var after := s.history + TokensOf(chunks);
      var fits := (forall k :: 0 <= k < |chunks| ==> Decodes(chunks[k], c.batch)) && |after| <= c.ctx;
      UploadTo(s, c, chunks).history == if fits then after else s.history
  {
    hide CellsOf, SeqRm, EvalString, Decodes, TokensOf;
    EvalStringGrows(s, c, chunks);
    MessageIs(s, c, chunks);
    var (t, ok) := EvalString(s, c, chunks);
    if !ok {
      RewindBack(s, t, c);
    }
  }

  /** A conversation that starts holds the first token and the whole system prompt, protected to its end. */
  lemma SetupIs(c: Config, bos: seq<Chunk>, prompt: seq<Chunk>)
    requires c.batch > 0 && (forall k :: 0 <= k < |bos| ==> Decodes(bos[k], c.batch)) && |TokensOf(bos)| <= c.ctx
    ensures var (t, ok) := Setup(c, bos, prompt);
      && (ok <==> prompt == [] || ((forall k :: 0 <= k < |prompt| ==> Decodes(prompt[k], c.batch))
                                   && |TokensOf(bos)| + |TokensOf(prompt)| <= c.ctx))
      && (ok ==> t.history == TokensOf(bos) + TokensOf(prompt) && t.undo == [|TokensOf(bos)|] && t.stack == []
                 && t.system == if prompt == [] then 0 else |t.history|)
  {
    var z := State([], [], [], 0, {});
    assert z.kv == CellsOf(z.history);
    hide CellsOf, EvalString, Decodes;
    EvalStringGrows(z, c, bos);
    MessageIs(z, c, bos);
    var s := EvalString(z, c, bos).0;
    assert s.history == TokensOf(bos);
    EvalStringGrows(RecordUndo(s), c, prompt);
    MessageIs(RecordUndo(s), c, prompt);
  }
}
