/** The simple triple loop of llamafile/gemm.h, and the theorem that the tiled, threaded product
    computes the same matrix under every schedule. */
module Gemm {
  import opened Arith
  import opened DotProduct
  import opened Tiling
  import opened Stores

  /** The arguments of the reference `gemm`. */
  datatype Call = Call(aT: bool, bT: bool, m: nat, n: nat, k: nat, alpha: real, A: seq<real>, lda: nat,
                       B: seq<real>, ldb: nat, beta: real, ldc: nat) {
    function IndexA(i: nat, l: nat): nat { if aT then lda * i + l else lda * l + i }

    function IndexB(l: nat, j: nat): nat { if bT then ldb * l + j else ldb * j + l }

    ghost predicate Readable() {
      && (forall i: nat, l: nat :: i < m && l < k ==> IndexA(i, l) < |A|)
      && (forall l: nat, j: nat :: l < k && j < n ==> IndexB(l, j) < |B|)
    }

    ghost predicate InBounds(size: nat) {
      && ldc >= 1 && ldc >= m && Readable()
      && (forall i: nat, j: nat :: i < m && j < n ==> Addr(ldc, i, j) < size)
    }

    /** The inner product of row `i` and column `j` over the first `h` terms. */
    ghost function Inner(i: nat, j: nat, h: nat): real {
      if h == 0 then 0.0
      else Inner(i, j, h - 1) + At(A, IndexA(i, h - 1)) * At(B, IndexB(h - 1, j))
    }

    function Scale(d: real, c: real): real {
      if beta != 0.0 then alpha * d + beta * c else alpha * d
    }

    /** `c1` is `c0` with every cell of the `m` x `n` output replaced by its product, and nothing
        else changed. */
    ghost predicate Result(c0: seq<real>, c1: seq<real>) {
      && |c0| == |c1|
      && (forall i: nat, j: nat :: i < m && j < n && Addr(ldc, i, j) < |c0| ==>
            c1[Addr(ldc, i, j)] == Scale(Inner(i, j, k), c0[Addr(ldc, i, j)]))
      && (forall x: nat :: x < |c0| && Outside(x) ==> c1[x] == c0[x])
    }

    /** Position `x` of the buffer is not a cell of the output. */
    ghost predicate Outside(x: nat) {
      forall i: nat, j: nat :: i < m && j < n ==> Addr(ldc, i, j) != x
    }

    /** The state after the cells before `(i, j)`, row by row, have been stored. */
    ghost predicate Upto(c0: seq<real>, c1: seq<real>, i: nat, j: nat) {
      && |c0| == |c1|
      && (forall y: nat, x: nat :: y < m && x < n && Addr(ldc, y, x) < |c0| ==>
            c1[Addr(ldc, y, x)] == if y < i || (y == i && x < j) then Scale(Inner(y, x, k), c0[Addr(ldc, y, x)])
                                   else c0[Addr(ldc, y, x)])
      && (forall x: nat :: x < |c0| && Outside(x) ==> c1[x] == c0[x])
    }
  }

  lemma AddrInjective(ldc: nat, i: nat, j: nat, y: nat, x: nat)
    requires i < ldc && y < ldc && Addr(ldc, i, j) == Addr(ldc, y, x)
    ensures i == y && j == x
  {
    DivMod(Addr(ldc, i, j), ldc, j, i);
    DivMod(Addr(ldc, y, x), ldc, x, y);
  }

  lemma UptoStep(g: Call, c0: seq<real>, c1: seq<real>, i: nat, j: nat)
    requires g.InBounds(|c0|) && i < g.m && j < g.n && g.Upto(c0, c1, i, j)
    ensures Addr(g.ldc, i, j) < |c1| && c1[Addr(g.ldc, i, j)] == c0[Addr(g.ldc, i, j)]
    ensures g.Upto(c0, c1[Addr(g.ldc, i, j) := g.Scale(g.Inner(i, j, g.k), c1[Addr(g.ldc, i, j)])], i, j + 1)
  {
    var a := Addr(g.ldc, i, j);
    var c2 := c1[a := g.Scale(g.Inner(i, j, g.k), c1[a])];
    forall y: nat, x: nat | y < g.m && x < g.n && Addr(g.ldc, y, x) < |c0|
      ensures c2[Addr(g.ldc, y, x)]
           == if y < i || (y == i && x < j + 1) then g.Scale(g.Inner(y, x, g.k), c0[Addr(g.ldc, y, x)])
              else c0[Addr(g.ldc, y, x)]
    {
      if Addr(g.ldc, y, x) == a {
        AddrInjective(g.ldc, i, j, y, x);
      }
    }
  }

  method InnerLoop(g: Call, i: nat, j: nat) returns (d: real)
    requires i < g.m && j < g.n && g.Readable()
    ensures d == g.Inner(i, j, g.k)
  {
    d := 0.0;
    for l := 0 to g.k
      invariant d == g.Inner(i, j, l)
    {
      assert g.IndexA(i, l) < |g.A| && g.IndexB(l, j) < |g.B|;
      d := g.A[g.IndexA(i, l)] * g.B[g.IndexB(l, j)] + d;
    }
  }

  method StoreEntry(g: Call, C: array<real>, i: nat, j: nat, d: real, ghost c0: seq<real>)
    requires g.InBounds(C.Length) && |c0| == C.Length && i < g.m && j < g.n
    requires d == g.Inner(i, j, g.k) && g.Upto(c0, C[..], i, j)
    modifies C
    ensures g.Upto(c0, C[..], i, j + 1)
  {
    UptoStep(g, c0, C[..], i, j);
    ghost var c1 := C[..];
    var a := Addr(g.ldc, i, j);
    var v := g.Scale(d, C[a]);
    C[a] := v;
    assert C[..] == c1[a := v];
  }

  /** `gemm` of llamafile/gemm.h. */
  method Gemm(g: Call, C: array<real>)
    requires g.InBounds(C.Length)
    modifies C
    ensures g.Result(old(C[..]), C[..])
  {
    for i := 0 to g.m
      invariant g.Upto(old(C[..]), C[..], i, 0)
    {
      for j := 0 to g.n
        invariant g.Upto(old(C[..]), C[..], i, j)
      {
        var d := InnerLoop(g, i, j);
        StoreEntry(g, C, i, j, d, old(C[..]));
      }
    }
  }

  /** What the reference computes is fully determined by its inputs. */
  lemma ResultUnique(g: Call, c0: seq<real>, c1: seq<real>, c2: seq<real>)
    requires g.Result(c0, c1) && g.Result(c0, c2)
    ensures c1 == c2
  {
    forall x: nat | x < |c0|
      ensures c1[x] == c2[x]
    {
      if !g.Outside(x) {
        var i: nat, j: nat :| i < g.m && j < g.n && Addr(g.ldc, i, j) == x;
      }
    }
  }

  // ----- all threads together -----

  /** The call of the reference that matches a tiled product. */
  ghost function Reference(o: Operands, m: nat, n: nat, ldc: nat): Call {
    Call(true, false, m, n, o.k, 1.0, o.A, o.lda, o.B, o.ldb, 0.0, ldc)
  }

  lemma {:induction false} InnerIsDot(o: Operands, m: nat, n: nat, ldc: nat, i: nat, j: nat, h: nat)
    ensures Reference(o, m, n, ldc).Inner(i, j, h) == o.Dot(i, j, 0, h)
  {
    if h > 0 {
      InnerIsDot(o, m, n, ldc, i, j, h - 1);
    }
  }

  /** The stores of several threads, as a bag. */
  ghost function Union(logs: seq<seq<Store>>): multiset<Store> {
    if logs == [] then multiset{} else Union(logs[..|logs| - 1]) + multiset(logs[|logs| - 1])
  }

  ghost predicate EachThread(o: Operands, regs: Registers, nth: nat, r: Region, logs: seq<seq<Store>>)
    requires r.Valid() && nth >= 1
  {
    forall t :: 0 <= t < |logs| ==> WritesOnce(o, logs[t], Owned(regs, nth, r, t))
  }

  lemma {:induction false} UnionCounts(o: Operands, regs: Registers, nth: nat, r: Region, logs: seq<seq<Store>>,
                                       s: Store)
    requires r.Valid() && nth >= 1 && EachThread(o, regs, nth, r, logs)
    ensures Union(logs)[s]
         == if r.Has(s.i, s.j) && Owner(regs, nth, r, s.i, s.j) < |logs| && s.val == o.Dot(s.i, s.j, 0, o.k)
            then 1 else 0
  {
    if logs != [] {
      var t := |logs| - 1;
      assert EachThread(o, regs, nth, r, logs[..t]);
      UnionCounts(o, regs, nth, r, logs[..t], s);
      assert WritesOnce(o, logs[t], Owned(regs, nth, r, t));
      assert multiset(logs[t])[s]
          == if (s.i, s.j) in Owned(regs, nth, r, t) && s.val == o.Dot(s.i, s.j, 0, o.k) then 1 else 0;
    }
  }

  /** Over all threads, every cell is stored exactly once, by exactly one thread. */
  lemma AllCellsOnce(o: Operands, regs: Registers, nth: nat, r: Region, logs: seq<seq<Store>>, mix: seq<Store>)
    requires r.Valid() && nth >= 1 && |logs| == nth && EachThread(o, regs, nth, r, logs)
    requires multiset(mix) == Union(logs)
    ensures WritesOnce(o, mix, r.Cells())
  {
    forall s: Store
      ensures multiset(mix)[s] == if (s.i, s.j) in r.Cells() && s.val == o.Dot(s.i, s.j, 0, o.k) then 1 else 0
    {
      UnionCounts(o, regs, nth, r, logs, s);
    }
  }

  ghost predicate Sound(o: Operands, r: Region, log: seq<Store>) {
    forall s :: s in log ==> r.Has(s.i, s.j) && s.val == o.Dot(s.i, s.j, 0, o.k)
  }

  ghost predicate Stored(log: seq<Store>, i: nat, j: nat) {
    exists s :: s in log && s.i == i && s.j == j
  }

  /** A cell holds its product as soon as some store of it has run, whatever ran before or since. */
  lemma {:induction false} ApplyCell(o: Operands, r: Region, ldc: nat, c: seq<real>, log: seq<Store>, i: nat, j: nat)
    requires r.Has(i, j) && r.m <= ldc && Sound(o, r, log) && Addr(ldc, i, j) < |c|
    ensures Apply(ldc, c, log)[Addr(ldc, i, j)]
         == if Stored(log, i, j) then o.Dot(i, j, 0, o.k) else c[Addr(ldc, i, j)]
  {
    if log != [] {
      var before, last := log[..|log| - 1], log[|log| - 1];
      assert last in log && forall s :: s in log <==> s in before || s == last;
      ApplyCell(o, r, ldc, c, before, i, j);
      if Addr(ldc, last.i, last.j) == Addr(ldc, i, j) {
        AddrInjective(ldc, last.i, last.j, i, j);
      }
      assert Stored(log, i, j) <==> Stored(before, i, j) || (last.i == i && last.j == j);
    }
  }

  lemma {:induction false} ApplyElsewhere(o: Operands, r: Region, ldc: nat, c: seq<real>, log: seq<Store>, x: nat)
    requires Sound(o, r, log) && x < |c|
    requires forall i: nat, j: nat :: r.Has(i, j) ==> Addr(ldc, i, j) != x
    ensures Apply(ldc, c, log)[x] == c[x]
  {
    if log != [] {
      assert log[|log| - 1] in log;
      ApplyElsewhere(o, r, ldc, c, log[..|log| - 1], x);
    }
  }

  /** The main theorem: start from any buffer, let each thread produce the log that `Matmul` promises,
      and run the stores of all threads in any order at all. The buffer then holds exactly what the
      reference `gemm` would have left in it. */
  lemma AnyScheduleIsGemm(o: Operands, regs: Registers, nth: nat, m: nat, n: nat, ldc: nat, c: seq<real>,
                          logs: seq<seq<Store>>, mix: seq<Store>)
    requires nth >= 1 && |logs| == nth && m <= ldc
    requires EachThread(o, regs, nth, Region(0, m, 0, n), logs)
    requires multiset(mix) == Union(logs)
    ensures Reference(o, m, n, ldc).Result(c, Apply(ldc, c, mix))
  {
    var r, g := Region(0, m, 0, n), Reference(o, m, n, ldc);
    AllCellsOnce(o, regs, nth, r, logs, mix);
    MixIsSound(o, r, mix);
    var c1 := Apply(ldc, c, mix);
    forall i: nat, j: nat | i < m && j < n && Addr(ldc, i, j) < |c|
      ensures c1[Addr(ldc, i, j)] == g.Scale(g.Inner(i, j, o.k), c[Addr(ldc, i, j)])
    {
      InnerIsDot(o, m, n, ldc, i, j, o.k);
      assert r.Has(i, j);
      MixStores(o, r, mix, i, j);
      ApplyCell(o, r, ldc, c, mix, i, j);
    }
    forall x: nat | x < |c| && g.Outside(x)
      ensures c1[x] == c[x]
    {
      ApplyElsewhere(o, r, ldc, c, mix, x);
    }
  }

  lemma MixIsSound(o: Operands, r: Region, mix: seq<Store>)
    requires r.Valid() && WritesOnce(o, mix, r.Cells())
    ensures Sound(o, r, mix)
  {
    forall s | s in mix
      ensures r.Has(s.i, s.j) && s.val == o.Dot(s.i, s.j, 0, o.k)
    {
      assert multiset(mix)[s] > 0;
    }
  }

  lemma MixStores(o: Operands, r: Region, mix: seq<Store>, i: nat, j: nat)
    requires r.Valid() && WritesOnce(o, mix, r.Cells()) && r.Has(i, j)
    ensures Stored(mix, i, j)
  {
    var s := Store(i, j, o.Dot(i, j, 0, o.k));
    assert multiset(mix)[s] == 1;
    assert s in multiset(mix);
  }
}
