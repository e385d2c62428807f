/** The line editor's history: adding, saving and loading (llamafile/bestline.c:3669-3766). */
module LineHistory {
  import opened ByteSeq

  const LF: byte := 10
  const CR: byte := 13
  const MAX_HISTORY: nat := 1024

  function TakeLast<T>(s: seq<T>, n: nat): (r: seq<T>)
    ensures |r| <= n && |r| <= |s| && r == s[|s| - |r|..] && (|r| < n ==> r == s)
  {
    if |s| <= n then s else s[|s| - n..]
  }

  /** The end of the line that starts at `p`: the next newline, or the end of the file. */
  function LineEnd(m: Bytes, p: nat): (f: nat)
    requires p <= |m|
    ensures p <= f <= |m| && (f < |m| ==> m[f] == LF) && forall i :: p <= i < f ==> m[i] != LF
    decreases |m| - p
  {
    if p == |m| || m[p] == LF then p else LineEnd(m, p + 1)
  }

  /** Where the line ends once trailing carriage returns and newlines are taken off. */
  function Strip(m: Bytes, p: nat, q: nat): (e: nat)
    requires p <= q <= |m|
    ensures p <= e <= q && (e > p ==> m[e - 1] != LF && m[e - 1] != CR)
    decreases q
  {
    if q > p && (m[q - 1] == LF || m[q - 1] == CR) then Strip(m, p, q - 1) else q
  }

  /** Nothing else is taken off. */
  lemma {:induction false} StripTakes(m: Bytes, p: nat, q: nat)
    requires p <= q <= |m|
    ensures forall i :: Strip(m, p, q) <= i < q ==> m[i] == LF || m[i] == CR
    decreases q
  {
    if q > p && (m[q - 1] == LF || m[q - 1] == CR) {
      StripTakes(m, p, q - 1);
    }
  }

  /** The non-empty lines of a file, from position `p` on. */
  function Lines(m: Bytes, p: nat): seq<Bytes>
    decreases |m| - p
  {
    if p >= |m| then []
    else
      var f := LineEnd(m, p);
      var q := Strip(m, p, f);
      (if q > p then [m[p..q]] else []) + Lines(m, f + 1)
  }

  function Saved(lines: seq<Bytes>): Bytes {
    if lines == [] then [] else lines[0] + [LF] + Saved(lines[1..])
  }

  /** A line that survives saving and loading. */
  predicate Clean(line: Bytes) {
    line != [] && LF !in line && line[|line| - 1] != CR
  }

  datatype Slot = Empty | Slice(begin: nat, end: nat)

  predicate Holds(m: Bytes, slot: Slot, line: Bytes) {
    slot.Slice? && slot.begin <= slot.end <= |m| && m[slot.begin..slot.end] == line
  }

  class History {
    var lines: seq<Bytes>

    ghost predicate Valid()
      reads this
    {
      |lines| <= MAX_HISTORY
    }

    constructor ()
      ensures Valid() && lines == []
    {
      lines := [];
    }

    method Add(line: Bytes) returns (added: bool)
      requires Valid()
      modifies this
      ensures Valid() && added == !(old(lines) != [] && old(lines)[|old(lines)| - 1] == line)
      ensures lines == if added then TakeLast(old(lines) + [line], MAX_HISTORY) else old(lines)
    {
      if lines != [] && lines[|lines| - 1] == line {
        return false;
      }
      if |lines| == MAX_HISTORY {
        lines := lines[1..];
      }
      lines := lines + [line];
      return true;
    }

    method Save() returns (m: Bytes)
      ensures m == Saved(lines)
    {
      m := [];
      for j := 0 to |lines|
        invariant m + Saved(lines[j..]) == Saved(lines)
      {
        assert lines[j..][1..] == lines[j + 1..];
        m := m + lines[j];
        m := m + [LF];
      }
    }

    /** The file's lines go round a ring of 1024 slots, which is then read out from the oldest on. */
    method Load(m: Bytes)
      requires Valid()
      modifies this
      ensures Valid() && lines == if m == [] then old(lines) else TakeLast(Lines(m, 0), MAX_HISTORY)
    {
      if m == [] {
        return;
      }
      var h := new Slot[1024](_ => Empty);
      var i, seen := Collect(m, h);
      lines := [];
      ghost var slots := h[..];
      ReadAll(seen);
      hide Ring, Lines, Read, TakeLast, Holds;
      for j := 0 to 1024
        invariant h[..] == slots && lines == Read(seen, j)
      {
        var k := (i + j) % 1024;
        RingSlot(m, slots, seen, j);
        if h[k].Slice? {
          lines := lines + [m[h[k].begin..h[k].end]];
        }
      }
    }
  }

  method StripEnd(m: Bytes, p: nat, f: nat) returns (q: nat)
    requires p <= f <= |m|
    ensures q == Strip(m, p, f)
  {
    q := f;
    while q > p && (m[q - 1] == LF || m[q - 1] == CR)
      invariant p <= q <= f && Strip(m, p, q) == Strip(m, p, f)
    {
      q := q - 1;
    }
  }

  method Collect(m: Bytes, h: array<Slot>) returns (i: nat, ghost seen: seq<Bytes>)
    requires h.Length == 1024 && forall k :: 0 <= k < 1024 ==> h[k] == Empty
    modifies h
    ensures seen == Lines(m, 0) && i == |seen| % 1024 && Ring(m, h[..], seen)
  {
    hide Holds, Strip, LineEnd, Lines;
    var p: nat := 0;
    i, seen := 0, [];
    assert [] + Lines(m, 0) == Lines(m, 0);
    while p < |m|
      invariant Lines(m, 0) == seen + Lines(m, p)
      invariant i == |seen| % 1024
      invariant Ring(m, h[..], seen)
      decreases |m| - p
    {
      var f := LineEnd(m, p);
      var q := StripEnd(m, p, f);
      LinesStep(m, p, seen);
      if q > p {
        RingStep(m, h[..], seen, Slice(p, q));
        h[i] := Slice(p, q);
        i := (i + 1) % 1024;
        seen := seen + [m[p..q]];
      }
      p := f + 1;
    }
    LinesDone(m, p, seen);
  }

  lemma LinesStep(m: Bytes, p: nat, seen: seq<Bytes>)
    requires p < |m|
    ensures var f := LineEnd(m, p);
      var q := Strip(m, p, f);
      seen + Lines(m, p) == (if q > p then seen + [m[p..q]] else seen) + Lines(m, f + 1)
  {
    hide *;
    LinesUnfold(m, p);
    Regroup(seen, m[p..Strip(m, p, LineEnd(m, p))], Lines(m, LineEnd(m, p) + 1));
  }

  lemma LinesUnfold(m: Bytes, p: nat)
    requires p < |m|
    ensures var f := LineEnd(m, p);
      var q := Strip(m, p, f);
      Lines(m, p) == (if q > p then [m[p..q]] else []) + Lines(m, f + 1)
  {
    hide LineEnd, Strip;
  }

  lemma Regroup(seen: seq<Bytes>, line: Bytes, rest: seq<Bytes>)
    ensures seen + ([line] + rest) == seen + [line] + rest && seen + ([] + rest) == seen + rest
  {
  }

  lemma LinesDone(m: Bytes, p: nat, seen: seq<Bytes>)
    requires p >= |m|
    ensures seen + Lines(m, p) == seen
  {
  }

  /** The slots hold the last 1024 lines seen, line `t` in slot `t % 1024`; the rest are empty. */
  ghost predicate Ring(m: Bytes, h: seq<Slot>, seen: seq<Bytes>) {
    && |h| == 1024
    && (forall t :: 0 <= t < |seen| && t >= |seen| - 1024 ==> Holds(m, h[t % 1024], seen[t]))
    && (forall k :: |seen| <= k < 1024 ==> h[k] == Empty)
  }

  lemma RingStep(m: Bytes, h: seq<Slot>, seen: seq<Bytes>, s: Slot)
    requires Ring(m, h, seen) && s.Slice? && s.begin <= s.end <= |m|
    ensures Ring(m, h[|seen| % 1024 := s], seen + [m[s.begin..s.end]])
    ensures (|seen| + 1) % 1024 == (|seen| % 1024 + 1) % 1024
  {
    var g, n := h[|seen| % 1024 := s], |seen|;
    forall t | 0 <= t < n + 1 && t >= n + 1 - 1024
      ensures Holds(m, g[t % 1024], (seen + [m[s.begin..s.end]])[t])
    {
      if t < n {
        assert t % 1024 != n % 1024;
      }
    }
  }

  /** What has been read out after `j` slots. */
  function Read(seen: seq<Bytes>, j: nat): seq<Bytes>
    requires j <= 1024
  {
    var n := |seen|;
    if n >= 1024 then seen[n - 1024..n - 1024 + j] else if n + j > 1024 then seen[..n + j - 1024] else []
  }

  lemma ReadAll(seen: seq<Bytes>)
    ensures Read(seen, 0) == [] && Read(seen, 1024) == TakeLast(seen, 1024)
  {
  }

  lemma RingSlot(m: Bytes, h: seq<Slot>, seen: seq<Bytes>, j: nat)
    requires Ring(m, h, seen) && j < 1024
    ensures var k := (|seen| % 1024 + j) % 1024;
      if h[k].Slice?
      then h[k].begin <= h[k].end <= |m| && Read(seen, j + 1) == Read(seen, j) + [m[h[k].begin..h[k].end]]
      else Read(seen, j + 1) == Read(seen, j)
  {
    var n, k := |seen|, (|seen| % 1024 + j) % 1024;
    SlotOf(n, j);
    ReadStep(seen, j);
    if n + j >= 1024 {
      var t := n + j - 1024;
      assert Holds(m, h[t % 1024], seen[t]);
    }
  }

  lemma SlotOf(n: nat, j: nat)
    requires j < 1024
    ensures n + j >= 1024 ==> (n + j - 1024) % 1024 == (n % 1024 + j) % 1024
    ensures n + j < 1024 ==> n <= (n % 1024 + j) % 1024 < 1024
  {
  }

  lemma ReadStep(seen: seq<Bytes>, j: nat)
    requires j < 1024
    ensures Read(seen, j + 1) == Read(seen, j) + if |seen| + j >= 1024 then [seen[|seen| + j - 1024]] else []
  {
  }

  // ----- saving, then loading -----

  lemma {:induction false} EndOfLine(m: Bytes, p: nat, f: nat)
    requires p <= f < |m| && m[f] == LF && forall i :: p <= i < f ==> m[i] != LF
    ensures LineEnd(m, p) == f
    decreases f - p
  {
    if p < f {
      EndOfLine(m, p + 1, f);
    }
  }

  lemma {:induction false} LinesShift(a: Bytes, b: Bytes, p: nat)
    ensures Lines(a + b, |a| + p) == Lines(b, p)
    decreases |b| - p
  {
    hide *;
    if p < |b| {
      EndShift(a, b, p);
      StripShift(a, b, p, LineEnd(b, p));
      LinesShift(a, b, LineEnd(b, p) + 1);
      SliceShift(a, b, p, Strip(b, p, LineEnd(b, p)));
      LinesUnfold(a + b, |a| + p);
      LinesUnfold(b, p);
    } else {
      LinesDone(a + b, |a| + p, []);
      LinesDone(b, p, []);
      NothingSeen(Lines(a + b, |a| + p));
      NothingSeen(Lines(b, p));
    }
  }

  lemma SliceShift(a: Bytes, b: Bytes, p: nat, q: nat)
    requires p <= q <= |b|
    ensures (a + b)[|a| + p..|a| + q] == b[p..q]
  {
  }

  lemma NothingSeen(lines: seq<Bytes>)
    ensures [] + lines == lines
  {
  }

  lemma {:induction false} EndShift(a: Bytes, b: Bytes, p: nat)
    requires p <= |b|
    ensures LineEnd(a + b, |a| + p) == |a| + LineEnd(b, p)
    decreases |b| - p
  {
    if p < |b| && b[p] != LF {
      EndShift(a, b, p + 1);
    }
  }

  lemma {:induction false} StripShift(a: Bytes, b: Bytes, p: nat, q: nat)
    requires p <= q <= |b|
    ensures Strip(a + b, |a| + p, |a| + q) == |a| + Strip(b, p, q)
    decreases q
  {
    if q > p && (b[q - 1] == LF || b[q - 1] == CR) {
      StripShift(a, b, p, q - 1);
    }
  }

  lemma {:induction false} LoadSaved(lines: seq<Bytes>)
    requires forall line :: line in lines ==> Clean(line)
    ensures Lines(Saved(lines), 0) == lines
  {
    if lines != [] {
      var a, b, m := lines[0] + [LF], Saved(lines[1..]), Saved(lines);
      assert lines[0] in lines;
      LoadSaved(lines[1..]);
      EndOfLine(m, 0, |lines[0]|);
      LinesShift(a, b, 0);
      assert m[0..|lines[0]|] == lines[0];
    }
  }

  lemma {:induction false} LoadedIsClean(m: Bytes, p: nat)
    ensures forall line :: line in Lines(m, p) ==> Clean(line)
    decreases |m| - p
  {
    if p < |m| {
      LoadedIsClean(m, LineEnd(m, p) + 1);
    }
  }

  /** A history comes back from its file if and only if no line is empty, holds a newline or ends in a carriage
      return. */
  lemma RoundTrip(lines: seq<Bytes>)
    requires |lines| <= MAX_HISTORY
    ensures TakeLast(Lines(Saved(lines), 0), MAX_HISTORY) == lines <==> forall line :: line in lines ==> Clean(line)
  {
    hide Lines, Saved, Clean;
    if forall line :: line in lines ==> Clean(line) {
      LoadSaved(lines);
    }
    LoadedIsClean(Saved(lines), 0);
  }
}
