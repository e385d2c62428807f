/** The two walks over a central directory: the reader looks for a name (llamafile/llamafile.c:151-178), the writer
    slides the records it keeps over the ones about to be replaced (llamafile/zipalign.c:229-260). */
module ZipDirectory {
  import opened ByteSeq
  import opened ZipFormat
  import opened ZipSearch

  // ----- directory records -----

  /** One well-formed record, nothing before or after it. */
  predicate Record(r: Bytes) {
    |r| >= 46 && CfileHdrSize(r, 0) == |r| && Read(r, 0, 4) == CFILE_MAGIC
  }

  function Name(r: Bytes): Bytes
    requires Record(r)
  {
    r[46..46 + Read(r, 28, 2)]
  }

  predicate Records(rs: seq<Bytes>) {
    forall r :: r in rs ==> Record(r)
  }

  /** A record reads the same inside a directory. */
  lemma ReadIn(s: Bytes, p: nat, r: Bytes, k: nat, w: nat)
    requires At(s, p, r) && k + w <= |r|
    ensures p + k + w <= |s| && Read(s, p + k, w) == Read(r, k, w)
  {
    AtSlice(s, p, r);
    Moved(s, p, r, 0, |r|, k, w);
  }

  lemma RecordIn(s: Bytes, p: nat, r: Bytes)
    requires At(s, p, r) && Record(r)
    ensures CfileInside(s, p) && CfileHdrSize(s, p) == |r| && Read(s, p, 4) == CFILE_MAGIC
    ensures s[p + 46..p + 46 + Read(s, p + 28, 2)] == Name(r)
  {
    hide Read;
    ReadIn(s, p, r, 0, 4);
    ReadIn(s, p, r, 28, 2);
    ReadIn(s, p, r, 30, 2);
    ReadIn(s, p, r, 32, 2);
    AtSlice(s, p, r);
    SliceOfSlice(s, p, |r|, 46, Read(r, 28, 2));
  }

  lemma RecordAt(rs: seq<Bytes>, k: nat)
    requires k < |rs| && Records(rs)
    ensures At(Concat(rs), Off(rs, k), rs[k]) && Record(rs[k])
  {
    FieldAt(Concat(rs), 0, rs, k);
  }

  lemma {:induction false} OffGrows(parts: seq<Bytes>, j: nat, k: nat)
    requires j <= k <= |parts|
    ensures Off(parts, j) <= Off(parts, k)
    decreases k
  {
    if j < k {
      OffGrows(parts, j, k - 1);
    }
  }

  // ----- the reader's walk -----

  /** What `llamafile_open_zip` is asked for: a name, or the only file with a `.gguf` ending. */
  datatype Wanted = Named(name: Bytes) | AnyGguf

  function Lower(b: byte): byte {
    if 65 <= b <= 90 then (b + 32) as byte else b
  }

  predicate Hit(want: Wanted, name: Bytes) {
    match want
    case Named(n) => n == name
    case AnyGguf =>
      && |name| > 5
      && var e := name[|name| - 5..];
         [Lower(e[0]), Lower(e[1]), Lower(e[2]), Lower(e[3]), Lower(e[4])] == [46, 103, 103, 117, 102]
  }

  datatype Walk = Corrupt | Walked(found: nat, last: nat)

  /** The walk from record `idx`, at offset `o`, with `found` hits so far, the last one at `last`. */
  function Lookup(cdir: Bytes, cnt: nat, want: Wanted, idx: nat, o: nat, found: nat, last: nat): Walk
    decreases cnt - idx
  {
    if idx < cnt && CfileInside(cdir, o) then
      if Read(cdir, o, 4) != CFILE_MAGIC then Corrupt
      else if Hit(want, cdir[o + 46..o + 46 + Read(cdir, o + 28, 2)]) then
        Lookup(cdir, cnt, want, idx + 1, o + CfileHdrSize(cdir, o), found + 1, o)
      else Lookup(cdir, cnt, want, idx + 1, o + CfileHdrSize(cdir, o), found, last)
    else Walked(found, last)
  }

  method LookUp(cdir: Bytes, cnt: nat, want: Wanted) returns (w: Walk)
    ensures w == Lookup(cdir, cnt, want, 0, 0, 0, 0)
  {
    var idx: nat, o: nat, found: nat, last: nat := 0, 0, 0, 0;
    while idx < cnt && CfileInside(cdir, o)
      invariant Lookup(cdir, cnt, want, idx, o, found, last) == Lookup(cdir, cnt, want, 0, 0, 0, 0)
      decreases cnt - idx
    {
      if Read(cdir, o, 4) != CFILE_MAGIC {
        return Corrupt;
      }
      if Hit(want, cdir[o + 46..o + 46 + Read(cdir, o + 28, 2)]) {
        last := o;
        found := found + 1;
      }
      idx, o := idx + 1, o + CfileHdrSize(cdir, o);
    }
    return Walked(found, last);
  }

  /** How many of the first `k` records answer to what is wanted. */
  function Hits(rs: seq<Bytes>, want: Wanted, k: nat): nat
    requires k <= |rs| && Records(rs)
  {
    if k == 0 then 0 else Hits(rs, want, k - 1) + if Hit(want, Name(rs[k - 1])) then 1 else 0
  }

  /** Where the last of them stands. */
  function LastHit(rs: seq<Bytes>, want: Wanted, k: nat): nat
    requires k <= |rs| && Records(rs)
  {
    if k == 0 then 0 else if Hit(want, Name(rs[k - 1])) then Off(rs, k - 1) else LastHit(rs, want, k - 1)
  }

  lemma {:induction false} LookupFrom(rs: seq<Bytes>, want: Wanted, k: nat)
    requires k <= |rs| && Records(rs)
    ensures Lookup(Concat(rs), |rs|, want, k, Off(rs, k), Hits(rs, want, k), LastHit(rs, want, k))
         == Walked(Hits(rs, want, |rs|), LastHit(rs, want, |rs|))
    decreases |rs| - k
  {
    hide Read, At, Hit, Concat, Name, Record, CfileHdrSize, CfileInside;
    if k < |rs| {
      RecordAt(rs, k);
      RecordIn(Concat(rs), Off(rs, k), rs[k]);
      LookupFrom(rs, want, k + 1);
    }
  }

  /** On a directory made of well-formed records the walk visits each of them once: it counts all hits and
      remembers the last. */
  lemma LookupCounts(rs: seq<Bytes>, want: Wanted)
    requires Records(rs)
    ensures Lookup(Concat(rs), |rs|, want, 0, 0, 0, 0) == Walked(Hits(rs, want, |rs|), LastHit(rs, want, |rs|))
  {
    LookupFrom(rs, want, 0);
  }

  lemma {:induction false} NoHits(rs: seq<Bytes>, want: Wanted, k: nat)
    requires k <= |rs| && Records(rs)
    requires forall j :: 0 <= j < k ==> !Hit(want, Name(rs[j]))
    ensures Hits(rs, want, k) == 0
  {
    if k > 0 {
      NoHits(rs, want, k - 1);
    }
  }

  // ----- the writer's compaction -----

  /** The state of the compaction loop. */
  datatype Compactor = Compactor(cdir: Bytes, idx: nat, o: nat, w: nat, kept: nat)

  datatype Compaction = BadMagic | Overrun | Compacted(cdir: Bytes, size: nat, count: nat)

  function Memmove(s: Bytes, dst: nat, src: nat, n: nat): (r: Bytes)
    requires dst + n <= |s| && src + n <= |s|
    ensures |r| == |s|
  {
    s[..dst] + s[src..src + n] + s[dst + n..]
  }

  predicate More(c: Compactor, cnt: nat) {
    c.idx < cnt && CfileInside(c.cdir, c.o)
  }

  predicate Doomed(c: Compactor, names: seq<Bytes>)
    requires CfileInside(c.cdir, c.o)
  {
    c.cdir[c.o + 46..c.o + 46 + Read(c.cdir, c.o + 28, 2)] in names
  }

  /** Whether the loop body stays inside the directory. The code does not ask. */
  predicate Fits(c: Compactor, names: seq<Bytes>)
    requires CfileInside(c.cdir, c.o)
  {
    Doomed(c, names) || c.w + CfileHdrSize(c.cdir, c.o) <= |c.cdir|
  }

  /** One trip round the loop. The record size is read again, at the old place, after the move. */
  function Next(c: Compactor, names: seq<Bytes>): (d: Compactor)
    requires CfileInside(c.cdir, c.o) && Fits(c, names)
    ensures |d.cdir| == |c.cdir| && d.idx == c.idx + 1
  {
    var n := CfileHdrSize(c.cdir, c.o);
    if Doomed(c, names) then c.(idx := c.idx + 1, o := c.o + n)
    else
      var moved := Memmove(c.cdir, c.w, c.o, n);
      Compactor(moved, c.idx + 1, c.o + CfileHdrSize(moved, c.o), c.w + CfileHdrSize(moved, c.w), c.kept + 1)
  }

  function Compact(c: Compactor, cnt: nat, names: seq<Bytes>): Compaction
    decreases cnt - c.idx
  {
    if More(c, cnt) then
      if Read(c.cdir, c.o, 4) != CFILE_MAGIC then BadMagic
      else if !Fits(c, names) then Overrun
      else Compact(Next(c, names), cnt, names)
    else Compacted(c.cdir, c.w, c.kept)
  }

  function Start(cdir: Bytes): Compactor {
    Compactor(cdir, 0, 0, 0, 0)
  }

  method MemmoveInPlace(a: array<byte>, dst: nat, src: nat, n: nat)
    requires dst + n <= a.Length && src + n <= a.Length
    modifies a
    ensures a[..] == Memmove(old(a[..]), dst, src, n)
  {
    forall j | 0 <= j < n {
      a[dst + j] := a[src + j];
    }
    assert a[..] == Memmove(old(a[..]), dst, src, n);
  }

  lemma InsideBounds(s: Bytes, o: nat)
    requires CfileInside(s, o)
    ensures o + 46 + Read(s, o + 28, 2) <= o + CfileHdrSize(s, o) <= |s|
  {
  }

  method CompactInPlace(a: array<byte>, cnt: nat, names: seq<Bytes>) returns (r: Compaction)
    modifies a
    ensures r == Compact(Start(old(a[..])), cnt, names)
    ensures r.Compacted? ==> a[..] == r.cdir
  {
    hide Read, Memmove, CfileHdrSize, CfileInside;
    var o: nat, w: nat, idx: nat, kept: nat := 0, 0, 0, 0;
    while idx < cnt && CfileInside(a[..], o)
      invariant Compact(Compactor(a[..], idx, o, w, kept), cnt, names) == Compact(Start(old(a[..])), cnt, names)
      decreases cnt - idx
    {
      InsideBounds(a[..], o);
      if Read(a[..], o, 4) != CFILE_MAGIC {
        return BadMagic;
      }
      ghost var c := Compactor(a[..], idx, o, w, kept);
      var n := CfileHdrSize(a[..], o);
      var found := a[..][o + 46..o + 46 + Read(a[..], o + 28, 2)] in names;
      if !found {
        if w + n > a.Length {
          return Overrun;
        }
        MemmoveInPlace(a, w, o, n);
        w := w + CfileHdrSize(a[..], w);
        kept := kept + 1;
      }
      idx, o := idx + 1, o + CfileHdrSize(a[..], o);
      assert Compactor(a[..], idx, o, w, kept) == Next(c, names);
    }
    return Compacted(a[..], w, kept);
  }

  // ----- what it should do -----

  /** The records that are not replaced. */
  function Kept(rs: seq<Bytes>, names: seq<Bytes>, k: nat): (ks: seq<Bytes>)
    requires k <= |rs| && Records(rs)
    ensures Records(ks)
  {
    if k == 0 then [] else Kept(rs, names, k - 1) + if Name(rs[k - 1]) in names then [] else [rs[k - 1]]
  }

  /** How far record `k` slides down. */
  function Gap(rs: seq<Bytes>, names: seq<Bytes>, k: nat): nat
    requires k <= |rs| && Records(rs)
  {
    if k == 0 then 0 else Gap(rs, names, k - 1) + if Name(rs[k - 1]) in names then |rs[k - 1]| else 0
  }

  /** What stands where record `r` stood, once it has slid down by `g`. */
  function Slid(r: Bytes, g: nat): (t: Bytes)
    ensures |t| == |r|
  {
    if g >= |r| then r else r[g..] + r[|r| - g..]
  }

  /** The size the loop reads there. */
  function Reread(r: Bytes, g: nat): nat
    requires |r| >= 46
  {
    CfileHdrSize(Slid(r, g), 0)
  }

  /** Every kept record among the first `n` still shows its own size after the move. */
  predicate SteadyUpTo(rs: seq<Bytes>, names: seq<Bytes>, n: int)
    requires Records(rs) && n <= |rs|
  {
    forall k :: 0 <= k < n && Name(rs[k]) !in names ==> Reread(rs[k], Gap(rs, names, k)) == |rs[k]|
  }

  /** So does every kept record but the last of the directory. */
  predicate Steady(rs: seq<Bytes>, names: seq<Bytes>)
    requires Records(rs)
  {
    SteadyUpTo(rs, names, |rs| - 1)
  }

  /** A record slid by nothing, or by so much that its first 34 bytes are not overwritten, still shows its size. */
  lemma SmallOrUnmoved(r: Bytes, g: nat)
    requires Record(r) && (g == 0 || |r| <= g + 28)
    ensures Reread(r, g) == |r|
  {
    var t := Slid(r, g);
    hide Read;
    if g == 0 {
      assert r[0..] + r[|r|..] == r;
    } else if g < |r| {
      assert t[28..34] == r[28..34];
      Moved(t, 28, r, 28, 6, 0, 2);
      Moved(t, 28, r, 28, 6, 2, 2);
      Moved(t, 28, r, 28, 6, 4, 2);
    }
  }

  // ----- and when it does it -----

  /** The loop is at record `k`, with the kept records before it packed at the front and the rest untouched. */
  ghost predicate Tracked(c: Compactor, rs: seq<Bytes>, names: seq<Bytes>, k: nat)
    requires k <= |rs| && Records(rs)
  {
    && c.o == Off(rs, k)
    && Packed(c, rs, names, k)
  }

  ghost predicate Packed(c: Compactor, rs: seq<Bytes>, names: seq<Bytes>, k: nat)
    requires k <= |rs| && Records(rs)
  {
    && c.idx == k && |c.cdir| == |Concat(rs)|
    && c.w + Gap(rs, names, k) == Off(rs, k) <= |c.cdir|
    && c.kept == |Kept(rs, names, k)|
    && c.cdir[..c.w] == Concat(Kept(rs, names, k))
    && c.cdir[Off(rs, k)..] == Concat(rs)[Off(rs, k)..]
  }

  lemma MemmoveAt(s: Bytes, w: nat, o: nat, n: nat, p: nat)
    requires w <= o && o + n <= |s| && p < |s|
    ensures Memmove(s, w, o, n)[p] == if w <= p < w + n then s[p - w + o] else s[p]
  {
    if w <= p < w + n {
      assert s[o..o + n][p - w] == s[o + (p - w)];
    }
  }

  lemma SlidByte(s: Bytes, w: nat, o: nat, r: Bytes, j: nat)
    requires w <= o && At(s, o, r) && j < |r| && o + |r| <= |s|
    ensures Memmove(s, w, o, |r|)[w + j] == r[j]
    ensures Memmove(s, w, o, |r|)[o + j] == Slid(r, o - w)[j]
  {
    hide At, Memmove;
    var g := o - w;
    MemmoveAt(s, w, o, |r|, w + j);
    MemmoveAt(s, w, o, |r|, o + j);
    AtByte(s, o, r, j);
    assert w + j - w + o == o + j;
    if j < |r| - g {
      AtByte(s, o, r, j + g);
      assert o + j - w + o == o + (j + g);
    }
  }

  /** A record slid down by `g` leaves `Slid(r, g)` where it was. */
  lemma MoveLeavesSlid(s: Bytes, w: nat, o: nat, r: Bytes)
    requires w <= o && At(s, o, r)
    ensures o + |r| <= |s|
    ensures var t := Memmove(s, w, o, |r|);
      && At(t, w, r) && At(t, o, Slid(r, o - w)) && t[..w] == s[..w] && t[o + |r|..] == s[o + |r|..]
  {
    hide *;
    AtRange(s, o, r);
    MemmoveAround(s, w, o, |r|);
    var t, u := Memmove(s, w, o, |r|), Slid(r, o - w);
    forall j: nat | j < |r|
      ensures t[w + j] == r[j] && t[o + j] == u[j]
    {
      SlidByte(s, w, o, r, j);
    }
    AtWhen(t, w, r);
    AtWhen(t, o, u);
  }

  lemma AtWhen(s: Bytes, p: nat, t: Bytes)
    requires p + |t| <= |s| && forall j: nat :: j < |t| ==> s[p + j] == t[j]
    ensures At(s, p, t)
  {
  }

  lemma MemmoveAround(s: Bytes, w: nat, o: nat, n: nat)
    requires w <= o && o + n <= |s|
    ensures Memmove(s, w, o, n)[..w] == s[..w] && Memmove(s, w, o, n)[o + n..] == s[o + n..]
  {
    assert Memmove(s, w, o, n)[w + n..] == s[w + n..];
    assert Memmove(s, w, o, n)[o + n..] == Memmove(s, w, o, n)[w + n..][o - w..];
    assert s[o + n..] == s[w + n..][o - w..];
  }

  lemma SizeIn(s: Bytes, p: nat, r: Bytes)
    requires At(s, p, r) && |r| >= 46
    ensures p + 46 <= |s| && CfileHdrSize(s, p) == CfileHdrSize(r, 0)
  {
    hide Read;
    ReadIn(s, p, r, 28, 2);
    ReadIn(s, p, r, 30, 2);
    ReadIn(s, p, r, 32, 2);
  }

  lemma SameSuffix(s: Bytes, t: Bytes, p: nat, r: Bytes)
    requires |s| == |t| && p <= |s| && s[p..] == t[p..] && At(t, p, r)
    ensures At(s, p, r) && s[p + |r|..] == t[p + |r|..]
  {
    forall k | 0 <= k < |r|
      ensures s[p + k] == r[k]
    {
      assert s[p + k] == s[p..][k] == t[p..][k] == t[p + k];
    }
    assert s[p + |r|..] == s[p..][|r|..];
    assert t[p + |r|..] == t[p..][|r|..];
  }

  lemma ConcatSnoc(ks: seq<Bytes>, r: Bytes)
    ensures Concat(ks + [r]) == Concat(ks) + r
  {
    assert (ks + [r])[..|ks|] == ks;
  }

  /** A record that is kept: the move packs it, and the loop goes on from wherever the size read afterwards says. */
  lemma KeepPacks(c: Compactor, rs: seq<Bytes>, names: seq<Bytes>, k: nat, d: Compactor)
    requires Records(rs) && k < |rs| && Tracked(c, rs, names, k) && Name(rs[k]) !in names
    requires At(c.cdir, c.o, rs[k]) && c.cdir[Off(rs, k + 1)..] == Concat(rs)[Off(rs, k + 1)..]
    requires CfileInside(c.cdir, c.o) && CfileHdrSize(c.cdir, c.o) == |rs[k]| && !Doomed(c, names)
    requires Fits(c, names) && d == Next(c, names)
    ensures Packed(d, rs, names, k + 1) && d.o == Off(rs, k) + Reread(rs[k], Gap(rs, names, k))
  {
    hide Read, Memmove, At, Concat, Slid, Record, Name, Doomed;
    var r := rs[k];
    var t := Memmove(c.cdir, c.w, c.o, |r|);
    MoveLeavesSlid(c.cdir, c.w, c.o, r);
    hide CfileHdrSize, CfileInside;
    RecordIn(t, c.w, r);
    SizeIn(t, c.o, Slid(r, c.o - c.w));
    ConcatSnoc(Kept(rs, names, k), r);
    AtSlice(t, c.w, r);
    assert t[..c.w + |r|] == t[..c.w] + t[c.w..c.w + |r|];
  }

  /** One trip round the loop packs one more record, wherever the loop goes next. */
  lemma StepPacks(c: Compactor, rs: seq<Bytes>, names: seq<Bytes>, k: nat)
    requires Records(rs) && k < |rs| && Tracked(c, rs, names, k)
    ensures More(c, |rs|) && Read(c.cdir, c.o, 4) == CFILE_MAGIC && Fits(c, names)
    ensures Packed(Next(c, names), rs, names, k + 1)
    ensures Next(c, names).o == Off(rs, k) + if Name(rs[k]) in names then |rs[k]| else Reread(rs[k], Gap(rs, names, k))
  {
    hide Read, Memmove, CfileHdrSize, CfileInside, At, Concat, Record, Name, Reread;
    var r := rs[k];
    RecordAt(rs, k);
    SameSuffix(c.cdir, Concat(rs), c.o, r);
    RecordIn(c.cdir, c.o, r);
    InsideBounds(c.cdir, c.o);
    if Name(r) !in names {
      KeepPacks(c, rs, names, k, Next(c, names));
    } else {
      assert Kept(rs, names, k + 1) == Kept(rs, names, k);
    }
  }

  /** The state after `k` trips round the loop, if it gets that far. */
  function After(c: Compactor, cnt: nat, names: seq<Bytes>, k: nat): (r: seq<Compactor>)
    ensures |r| <= 1
  {
    if k == 0 then [c]
    else
      var d := After(c, cnt, names, k - 1);
      if |d| == 1 && More(d[0], cnt) && Read(d[0].cdir, d[0].o, 4) == CFILE_MAGIC && Fits(d[0], names)
      then [Next(d[0], names)] else []
  }

  /** The loop looks at record `k` where it starts. */
  ghost predicate Visits(rs: seq<Bytes>, names: seq<Bytes>, k: nat)
    requires k <= |rs|
  {
    var d := After(Start(Concat(rs)), |rs|, names, k);
    |d| == 1 && d[0].o == Off(rs, k)
  }

  lemma NothingYet(rs: seq<Bytes>, names: seq<Bytes>)
    requires Records(rs)
    ensures Tracked(Start(Concat(rs)), rs, names, 0)
  {
  }

  lemma {:induction false} VisitsTracks(rs: seq<Bytes>, names: seq<Bytes>, k: nat)
    requires Records(rs) && k < |rs| && forall j :: 0 <= j <= k ==> Visits(rs, names, j)
    ensures |After(Start(Concat(rs)), |rs|, names, k)| == 1
    ensures Tracked(After(Start(Concat(rs)), |rs|, names, k)[0], rs, names, k)
  {
    hide Read, Next, More, Fits, Reread, Name, Concat, Record, CfileHdrSize;
    ConcatLength(rs);
    OffGrows(rs, k, |rs|);
    NothingYet(rs, names);
    assert Visits(rs, names, k);
    if k > 0 {
      VisitsTracks(rs, names, k - 1);
      StepPacks(After(Start(Concat(rs)), |rs|, names, k - 1)[0], rs, names, k - 1);
    }
  }

  /** Where the loop goes after record `k`, as long as it has visited every record so far. */
  lemma GoesOn(rs: seq<Bytes>, names: seq<Bytes>, k: nat)
    requires Records(rs) && k < |rs| && forall j :: 0 <= j <= k ==> Visits(rs, names, j)
    ensures Visits(rs, names, k + 1) <==> Name(rs[k]) in names || Reread(rs[k], Gap(rs, names, k)) == |rs[k]|
  {
    hide Read, Next, More, Fits, Reread, Gap, Packed;
    VisitsTracks(rs, names, k);
    StepPacks(After(Start(Concat(rs)), |rs|, names, k)[0], rs, names, k);
  }

  lemma {:induction false} SteadyVisits(rs: seq<Bytes>, names: seq<Bytes>, k: nat)
    requires Records(rs) && k < |rs| && SteadyUpTo(rs, names, k)
    ensures forall j :: 0 <= j <= k ==> Visits(rs, names, j)
  {
    hide Read, Next, More, Fits, Reread, Gap, Name, Concat;
    if k == 0 {
      assert Visits(rs, names, 0);
    } else {
      SteadyVisits(rs, names, k - 1);
      GoesOn(rs, names, k - 1);
    }
  }

  /** Exactly when the walk stays on the records: it looks at every record where that record starts if and only if
      every kept record but the last still shows its own size after the move. */
  lemma VisitsEveryRecord(rs: seq<Bytes>, names: seq<Bytes>)
    requires Records(rs)
    ensures (forall k :: 0 <= k < |rs| ==> Visits(rs, names, k)) <==> Steady(rs, names)
  {
    hide Visits, Reread, Gap, Name;
    assert forall r :: r in rs ==> |r| >= 46;
    if Steady(rs, names) && rs != [] {
      SteadyVisits(rs, names, |rs| - 1);
    }
    if forall k :: 0 <= k < |rs| ==> Visits(rs, names, k) {
      forall k | 0 <= k < |rs| - 1 && Name(rs[k]) !in names
        ensures Reread(rs[k], Gap(rs, names, k)) == |rs[k]|
      {
        assert Visits(rs, names, k + 1);
        GoesOn(rs, names, k);
      }
    }
  }

  lemma {:induction false} CompactAfter(c: Compactor, cnt: nat, names: seq<Bytes>, k: nat)
    requires |After(c, cnt, names, k)| == 1
    ensures Compact(After(c, cnt, names, k)[0], cnt, names) == Compact(c, cnt, names)
  {
    hide Read, Next, CfileInside, Fits;
    if k > 0 {
      CompactAfter(c, cnt, names, k - 1);
    }
  }

  /** A compaction that left exactly these records. */
  predicate Holds(r: Compaction, ks: seq<Bytes>) {
    r.Compacted? && r.count == |ks| && r.size == |Concat(ks)| <= |r.cdir| && r.cdir[..r.size] == Concat(ks)
  }

  /** Then compaction is the filter: the directory shrinks to the kept records, byte for byte and in order. */
  lemma CompactIsFilter(rs: seq<Bytes>, names: seq<Bytes>)
    requires Records(rs) && Steady(rs, names)
    ensures Holds(Compact(Start(Concat(rs)), |rs|, names), Kept(rs, names, |rs|))
  {
    hide Read, Next, Fits, Reread, Gap, CfileInside;
    if rs != [] {
      var k := |rs| - 1;
      SteadyVisits(rs, names, k);
      VisitsTracks(rs, names, k);
      var c := After(Start(Concat(rs)), |rs|, names, k)[0];
      StepPacks(c, rs, names, k);
      CompactAfter(Start(Concat(rs)), |rs|, names, k);
      assert Packed(Next(c, names), rs, names, |rs|);
    }
  }

  /** Records from `j` on add to what is kept, unless all of them are to be replaced. */
  lemma {:induction false} KeptGrows(rs: seq<Bytes>, names: seq<Bytes>, j: nat, k: nat)
    requires Records(rs) && j <= k <= |rs|
    ensures |Kept(rs, names, j)| <= |Kept(rs, names, k)|
    ensures |Kept(rs, names, j)| == |Kept(rs, names, k)| <==> forall i :: j <= i < k ==> Name(rs[i]) in names
    ensures |Kept(rs, names, j)| == |Kept(rs, names, k)| ==> Kept(rs, names, j) == Kept(rs, names, k)
    decreases k
  {
    hide Name, Record;
    if j < k {
      KeptGrows(rs, names, j, k - 1);
    }
  }

  /** Record `k` is the first that is kept and does not show its size after the move; what it shows instead leads
      past the directory. */
  predicate Strays(rs: seq<Bytes>, names: seq<Bytes>, k: nat)
    requires Records(rs)
  {
    && k < |rs| && Name(rs[k]) !in names && SteadyUpTo(rs, names, k)
    && Off(rs, k) + Reread(rs[k], Gap(rs, names, k)) + 46 > |Concat(rs)|
  }

  lemma EndsPacked(c: Compactor, rs: seq<Bytes>, names: seq<Bytes>, k: nat)
    requires Records(rs) && k <= |rs| && Packed(c, rs, names, k) && c.o + 46 > |Concat(rs)|
    ensures Holds(Compact(c, |rs|, names), Kept(rs, names, k))
  {
    hide Concat, Kept, Gap;
  }

  /** The way it fails: if the size read after the move runs past the directory, all later records are lost. The
      result is then right if and only if none of them was to be kept. */
  lemma LaterRecordsLost(rs: seq<Bytes>, names: seq<Bytes>, k: nat)
    requires Records(rs) && Strays(rs, names, k)
    ensures Holds(Compact(Start(Concat(rs)), |rs|, names), Kept(rs, names, k + 1))
    ensures Kept(rs, names, k + 1) == Kept(rs, names, k) + [rs[k]]
    ensures Holds(Compact(Start(Concat(rs)), |rs|, names), Kept(rs, names, |rs|))
      <==> forall j :: k < j < |rs| ==> Name(rs[j]) in names
  {
    hide Read, Next, Fits, Reread, Gap, Concat, Compact, Packed, Record, Name, After, Start;
    SteadyVisits(rs, names, k);
    VisitsTracks(rs, names, k);
    var c := After(Start(Concat(rs)), |rs|, names, k)[0];
    StepPacks(c, rs, names, k);
    CompactAfter(Start(Concat(rs)), |rs|, names, k);
    CompactStep(c, |rs|, names);
    EndsPacked(Next(c, names), rs, names, k + 1);
    KeptGrows(rs, names, k + 1, |rs|);
  }

  lemma CompactStep(c: Compactor, cnt: nat, names: seq<Bytes>)
    requires More(c, cnt) && Read(c.cdir, c.o, 4) == CFILE_MAGIC && Fits(c, names)
    ensures Compact(c, cnt, names) == Compact(Next(c, names), cnt, names)
  {
    hide Read, Next, Fits;
  }

  // ----- what compaction keeps of any directory -----

  /** The size read at the new place is the size just moved there. */
  lemma SizeMoves(s: Bytes, w: nat, o: nat)
    requires CfileInside(s, o) && w + CfileHdrSize(s, o) <= |s|
    ensures var n := CfileHdrSize(s, o); n >= 46 && CfileHdrSize(Memmove(s, w, o, n), w) == n
  {
    hide Read;
    var n := CfileHdrSize(s, o);
    var t := Memmove(s, w, o, n);
    assert t[w..w + n] == s[o..o + n];
    Moved(t, w, s, o, n, 28, 2);
    Moved(t, w, s, o, n, 30, 2);
    Moved(t, w, s, o, n, 32, 2);
  }

  /** What the loop has packed so far: whole records, counted, none of a name in `names`. */
  ghost predicate KeepsRecords(s: Bytes, w: nat, count: nat, names: seq<Bytes>, ks: seq<Bytes>) {
    && w <= |s| && s[..w] == Concat(ks) && count == |ks|
    && Records(ks) && forall r :: r in ks ==> Name(r) !in names
  }

  /** The bytes of a record are a record of their own, wherever they stand. */
  lemma RecordOut(s: Bytes, o: nat)
    requires CfileInside(s, o) && Read(s, o, 4) == CFILE_MAGIC
    ensures var n := CfileHdrSize(s, o);
      && o + 46 + Read(s, o + 28, 2) <= o + n <= |s|
      && Record(s[o..o + n]) && Name(s[o..o + n]) == s[o + 46..o + 46 + Read(s, o + 28, 2)]
  {
    hide Read;
    var n := CfileHdrSize(s, o);
    var r := s[o..o + n];
    assert r[0..0 + n] == s[o..o + n];
    Moved(r, 0, s, o, n, 0, 4);
    Moved(r, 0, s, o, n, 28, 2);
    Moved(r, 0, s, o, n, 30, 2);
    Moved(r, 0, s, o, n, 32, 2);
    SliceOfSlice(s, o, n, 46, Read(s, o + 28, 2));
  }

  lemma MemmovePacks(s: Bytes, w: nat, o: nat, n: nat)
    requires w + n <= |s| && o + n <= |s|
    ensures Memmove(s, w, o, n)[..w + n] == s[..w] + s[o..o + n]
  {
  }

  lemma KeepOneMore(c: Compactor, names: seq<Bytes>, ks: seq<Bytes>)
    requires KeepsRecords(c.cdir, c.w, c.kept, names, ks) && CfileInside(c.cdir, c.o)
      && Read(c.cdir, c.o, 4) == CFILE_MAGIC
    requires Fits(c, names) && !Doomed(c, names)
    ensures var d := Next(c, names);
      KeepsRecords(d.cdir, d.w, d.kept, names, ks + [c.cdir[c.o..c.o + CfileHdrSize(c.cdir, c.o)]])
  {
    hide Read, Memmove, CfileHdrSize, Record, Name, Concat;
    var n := CfileHdrSize(c.cdir, c.o);
    RecordOut(c.cdir, c.o);
    SizeMoves(c.cdir, c.w, c.o);
    MemmovePacks(c.cdir, c.w, c.o, n);
    ConcatSnoc(ks, c.cdir[c.o..c.o + n]);
  }

  /** Whatever the directory looks like, and wherever the walk strays, compaction that ends leaves whole records in
      front, counts them, and keeps none that is to be replaced. */
  lemma {:induction false} CompactKeepsRecords(c: Compactor, cnt: nat, names: seq<Bytes>, ks: seq<Bytes>)
    returns (ls: seq<Bytes>)
    requires KeepsRecords(c.cdir, c.w, c.kept, names, ks)
    ensures var r := Compact(c, cnt, names); r.Compacted? ==> KeepsRecords(r.cdir, r.size, r.count, names, ls)
    decreases cnt - c.idx
  {
    hide Read, Memmove, CfileHdrSize, KeepsRecords, Doomed;
    ls := ks;
    if More(c, cnt) && Read(c.cdir, c.o, 4) == CFILE_MAGIC && Fits(c, names) {
      if Doomed(c, names) {
        ls := CompactKeepsRecords(Next(c, names), cnt, names, ks);
      } else {
        KeepOneMore(c, names, ks);
        ls := CompactKeepsRecords(Next(c, names), cnt, names, ks + [c.cdir[c.o..c.o + CfileHdrSize(c.cdir, c.o)]]);
      }
    }
  }

  // ----- a directory that loses a record -----

  function BareFields(name: Bytes): seq<Bytes> {
    [Le(CFILE_MAGIC, 4), Zeros(24), Le(|name|, 2), Le(0, 2), Le(0, 2), Zeros(12), name]
  }

  function Bare(name: Bytes): Bytes { Concat(BareFields(name)) }

  lemma BareIsRecord(name: Bytes)
    requires |name| <= MAX16
    ensures Record(Bare(name)) && Name(Bare(name)) == name && |Bare(name)| == 46 + |name|
  {
    var f, s := BareFields(name), Bare(name);
    assert At(s, 0, s);
    hide Le, Concat, Read, At;
    assert Off(f, 1) == 4;
    assert Off(f, 2) == 28;
    assert Off(f, 3) == 30;
    assert Off(f, 4) == 32;
    assert Off(f, 5) == 34;
    assert Off(f, 6) == 46;
    assert Off(f, 7) == 46 + |name|;
    ConcatLength(f);
    Powers();
    FieldRead(s, 0, f, 0, 0, CFILE_MAGIC, 4);
    FieldRead(s, 0, f, 2, 28, |name|, 2);
    FieldRead(s, 0, f, 3, 30, 0, 2);
    FieldRead(s, 0, f, 4, 32, 0, 2);
    FieldAt(s, 0, f, 6);
    AtSlice(s, 46, name);
  }

  /** Replacing the file "a" in a directory that lists "a", a hundred times "b", and "c". */
  function LosesC(): seq<Bytes> {
    [Bare([97]), Bare(seq(100, _ => 98)), Bare([99])]
  }

  lemma SlidName()
    ensures Record(Bare(seq(100, _ => 98))) && Reread(Bare(seq(100, _ => 98)), 47) == 75604
  {
    var name: Bytes := seq(100, _ => 98);
    var r := Bare(name);
    BareIsRecord(name);
    hide Bare, Read;
    var t := Slid(r, 47);
    forall p | 28 <= p < 34
      ensures t[p] == 98
    {
      assert t[p] == r[p + 47] == r[46..146][p + 1];
    }
    Bytes2(t, 28);
    Bytes2(t, 30);
    Bytes2(t, 32);
  }

  lemma ThreeRecords(rs: seq<Bytes>)
    requires |rs| == 3 && Records(rs) && |rs[0]| == 47 && |rs[1]| == 146 && |rs[2]| == 47
    requires Name(rs[0]) == [97] && Name(rs[1]) != [97] && Name(rs[2]) != [97] && Reread(rs[1], 47) == 75604
    ensures Off(rs, 1) == 47 && |Concat(rs)| == 240 && Gap(rs, [[97]], 1) == 47
    ensures Kept(rs, [[97]], 1) == [] && |Kept(rs, [[97]], 3)| == 2 && Strays(rs, [[97]], 1)
  {
    hide Name, Record, Concat, Reread;
    ConcatLength(rs);
    assert Off(rs, 1) == 47;
    assert Off(rs, 2) == 193;
    assert Off(rs, 3) == 240;
    assert Kept(rs, [[97]], 1) == [];
    assert |Kept(rs, [[97]], 2)| == 1;
  }

  lemma LosesCRecords()
    ensures var rs := LosesC();
      && |rs| == 3 && Records(rs) && |rs[0]| == 47 && |rs[1]| == 146 && |rs[2]| == 47
      && Name(rs[0]) == [97] && Name(rs[1]) != [97] && Name(rs[2]) != [97] && Reread(rs[1], 47) == 75604
  {
    hide Bare, Read, Reread, Record, Name;
    var name := seq(100, _ => 98 as byte);
    BareIsRecord([97]);
    BareIsRecord([99]);
    BareIsRecord(name);
    SlidName();
    assert [97] != [99] && |name| == 100;
  }

  lemma HoldsCount(r: Compaction, ks: seq<Bytes>)
    requires Holds(r, ks)
    ensures r.Compacted? && r.count == |ks|
  {
  }

  /** The compaction keeps only the second record, although the third is not replaced either. */
  lemma CompactionLosesC()
    ensures Records(LosesC()) && |Kept(LosesC(), [[97]], 3)| == 2
    ensures var r := Compact(Start(Concat(LosesC())), 3, [[97]]); r.Compacted? && r.count == 1
  {
    hide *;
    LosesCRecords();
    ThreeRecords(LosesC());
    LaterRecordsLost(LosesC(), [[97]], 1);
    HoldsCount(Compact(Start(Concat(LosesC())), 3, [[97]]), Kept(LosesC(), [[97]], 2));
  }
}
