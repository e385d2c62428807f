/** The key-value cache of the language model, as far as the chatbot relies on it: which token sits at which
    position of sequence 0. `llama_decode`, `llama_kv_cache_seq_rm` and `llama_kv_cache_seq_add` have their usual
    meaning; a negative end means "to infinity". */
module KvCache {

  type Token = int

  datatype Cell = Cell(pos: int, token: Token)

  predicate InRange(pos: int, begin: int, end: int) {
    begin <= pos && (end < 0 || pos < end)
  }

  function SeqRm(kv: set<Cell>, begin: int, end: int): set<Cell> {
    set c | c in kv && !InRange(c.pos, begin, end)
  }

  function SeqAdd(kv: set<Cell>, begin: int, end: int, delta: int): set<Cell> {
    set c | c in kv :: if InRange(c.pos, begin, end) then Cell(c.pos + delta, c.token) else c
  }

  function Decode(kv: set<Cell>, tokens: seq<Token>, pos: int): set<Cell> {
    kv + set i | 0 <= i < |tokens| :: Cell(pos + i, tokens[i])
  }

  /** Token `i` of the history at position `i`, and nothing else. */
  function CellsOf(history: seq<Token>): set<Cell> {
    set i | 0 <= i < |history| :: Cell(i, history[i])
  }

  lemma RmTail(history: seq<Token>, pos: nat)
    requires pos <= |history|
    ensures SeqRm(CellsOf(history), pos, -1) == CellsOf(history[..pos])
  {
    var a, b := SeqRm(CellsOf(history), pos, -1), CellsOf(history[..pos]);
    forall c | c in a
      ensures c in b
    {
      assert c == Cell(c.pos, history[..pos][c.pos]);
    }
    forall c | c in b
      ensures c in a
    {
      assert c == Cell(c.pos, history[c.pos]);
    }
  }

  lemma DecodeAppends(history: seq<Token>, tokens: seq<Token>)
    ensures Decode(CellsOf(history), tokens, |history|) == CellsOf(history + tokens)
  {
    var a, b := Decode(CellsOf(history), tokens, |history|), CellsOf(history + tokens);
    var h := history + tokens;
    forall c | c in a
      ensures c in b
    {
      if c in CellsOf(history) {
        assert c == Cell(c.pos, h[c.pos]);
      } else {
        var i :| 0 <= i < |tokens| && c == Cell(|history| + i, tokens[i]);
        assert h[|history| + i] == tokens[i];
        assert c == Cell(c.pos, h[c.pos]);
      }
    }
    forall c | c in b
      ensures c in a
    {
      if c.pos < |history| {
        assert c == Cell(c.pos, history[c.pos]);
      } else {
        var i := c.pos - |history|;
        assert c == Cell(|history| + i, tokens[i]);
      }
    }
  }

  /** Cutting a slice out: remove its cells, then slide the later ones down over the gap. */
  lemma ForgetCloses(history: seq<Token>, begin: nat, end: nat)
    requires begin <= end <= |history|
    ensures SeqAdd(SeqRm(CellsOf(history), begin, end), end, -1, begin - end)
      == CellsOf(history[..begin] + history[end..])
  {
    var kv := SeqRm(CellsOf(history), begin, end);
    var h := history[..begin] + history[end..];
    var a, b := SeqAdd(kv, end, -1, begin - end), CellsOf(h);
    forall c | c in a
      ensures c in b
    {
      var d :| d in kv && c == if InRange(d.pos, end, -1) then Cell(d.pos + (begin - end), d.token) else d;
      assert d == Cell(d.pos, history[d.pos]);
      assert c == Cell(c.pos, h[c.pos]);
    }
    forall c | c in b
      ensures c in a
    {
      var d := if c.pos < begin then c else Cell(c.pos + (end - begin), c.token);
      assert d == Cell(d.pos, history[d.pos]);
      assert d in kv;
      assert c == if InRange(d.pos, end, -1) then Cell(d.pos + (begin - end), d.token) else d;
    }
  }
}
