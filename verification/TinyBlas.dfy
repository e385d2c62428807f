/** The tiled matrix product of llamafile/tinyblas_cpu.h, one object per thread. */
module TinyBlas {
  import opened Arith
  import opened Ruler
  import opened DotProduct
  import opened Tiling
  import opened Stores

  class TinyBLAS {
    const o: Operands
    const C: array<real>
    const ldc: nat
    const ith: nat
    const nth: nat
    const regs: Registers

    constructor (o: Operands, C: array<real>, ldc: nat, ith: nat, nth: nat, regs: Registers)
      ensures this.o == o && this.C == C && this.ldc == ldc
      ensures this.ith == ith && this.nth == nth && this.regs == regs
    {
      this.o, this.C, this.ldc := o, C, ldc;
      this.ith, this.nth, this.regs := ith, nth, regs;
    }

    /** Every row the region needs lies in `A` and `B`, every cell in `C`. */
    ghost predicate InBounds(r: Region) {
      && o.KN > 0
      && (forall i: nat :: r.m0 <= i < r.m ==> o.RowA(i))
      && (forall j: nat :: r.n0 <= j < r.n ==> o.RowB(j))
      && (forall i: nat, j: nat :: r.Has(i, j) ==> Addr(ldc, i, j) < C.Length)
    }

    /** Accumulator `(j, i)` holds what tree `t` computes for cell `(ii + i, jj + j)`. */
    ghost predicate Holds(Cv: array2<Vec>, r: Region, t: Tree)
      reads Cv
    {
      forall j, i :: 0 <= j < Cv.Length0 && 0 <= i < Cv.Length1 ==>
        Cv[j, i] == o.Eval(t, r.m0 + i, r.n0 + j)
    }

    /** The same for slot `s` of the stack of partial sums. */
    ghost predicate SlotHolds(stack: array3<Vec>, s: nat, r: Region, t: Tree)
      requires s < stack.Length0
      reads stack
    {
      forall j, i :: 0 <= j < stack.Length1 && 0 <= i < stack.Length2 ==>
        stack[s, j, i] == o.Eval(t, r.m0 + i, r.n0 + j)
    }

    ghost predicate Sized(Cv: array2<Vec>, r: Region) {
      r.Valid() && Cv.Length1 == r.m - r.m0 && Cv.Length0 == r.n - r.n0
    }

    ghost predicate StackSized(stack: array3<Vec>, r: Region) {
      r.Valid() && stack.Length2 == r.m - r.m0 && stack.Length1 == r.n - r.n0
    }

    method LoadVec(s: seq<real>, x: nat) returns (v: Vec)
      requires x + o.KN <= |s|
      ensures v == s[x..x + o.KN]
    {
      v := s[x..x + o.KN];
    }

    /** The same while a tile is being updated column by column: `done` up to `(j, i)`, `todo` from there. */
    ghost predicate HoldsUpto(Cv: array2<Vec>, r: Region, todo: Tree, done: Tree, j: nat, i: nat)
      reads Cv
    {
      forall y, x :: 0 <= y < Cv.Length0 && 0 <= x < Cv.Length1 ==>
        Cv[y, x] == o.Eval(if y < j || (y == j && x < i) then done else todo, r.m0 + x, r.n0 + y)
    }

    method MaddCell(Cv: array2<Vec>, r: Region, ghost lo: nat, l: nat, j: nat, i: nat)
      requires InBounds(r) && Sized(Cv, r) && j < Cv.Length0 && i < Cv.Length1
      requires lo <= l && l + o.KN <= o.k
      requires Cv[j, i] == o.Eval(Span(lo, l), r.m0 + i, r.n0 + j)
      modifies Cv
      ensures Cv[j, i] == o.Eval(Span(lo, l + o.KN), r.m0 + i, r.n0 + j)
      ensures forall y, x :: 0 <= y < Cv.Length0 && 0 <= x < Cv.Length1 && (y != j || x != i) ==>
        Cv[y, x] == old(Cv[y, x])
    {
      assert o.RowA(r.m0 + i) && o.RowB(r.n0 + j);
      MaddStep(o, r.m0 + i, r.n0 + j, lo, l);
      var a := LoadVec(o.A, o.lda * (r.m0 + i) + l);
      var b := LoadVec(o.B, o.ldb * (r.n0 + j) + l);
      Cv[j, i] := Madd(a, b, Cv[j, i]);
    }

    /** One step of the vector loops: `madd` one vector of row `ii + i` and row `jj + j`. */
    method TileMadd(Cv: array2<Vec>, r: Region, ghost lo: nat, l: nat)
      requires InBounds(r) && Sized(Cv, r)
      requires lo <= l && l + o.KN <= o.k
      requires Holds(Cv, r, Span(lo, l))
      modifies Cv
      ensures Holds(Cv, r, Span(lo, l + o.KN))
    {
      for j := 0 to Cv.Length0
        invariant HoldsUpto(Cv, r, Span(lo, l), Span(lo, l + o.KN), j, 0)
      {
        for i := 0 to Cv.Length1
          invariant HoldsUpto(Cv, r, Span(lo, l), Span(lo, l + o.KN), j, i)
        {
          MaddCell(Cv, r, lo, l, j, i);
        }
      }
    }

    /** `Cv += stack[sp]`. */
    method TileAdd(Cv: array2<Vec>, stack: array3<Vec>, sp: nat, r: Region, ghost earlier: Tree, ghost later: Tree)
      requires Sized(Cv, r) && StackSized(stack, r) && sp < stack.Length0
      requires Holds(Cv, r, later) && SlotHolds(stack, sp, r, earlier)
      modifies Cv
      ensures Holds(Cv, r, Sum(earlier, later))
    {
      for j := 0 to Cv.Length0
        invariant HoldsUpto(Cv, r, later, Sum(earlier, later), j, 0)
      {
        for i := 0 to Cv.Length1
          invariant HoldsUpto(Cv, r, later, Sum(earlier, later), j, i)
        {
          Cv[j, i] := Add(Cv[j, i], stack[sp, j, i]);
        }
      }
    }

    /** `stack[sp] = Cv`. */
    method TilePush(stack: array3<Vec>, sp: nat, Cv: array2<Vec>, r: Region, ghost t: Tree)
      requires Sized(Cv, r) && StackSized(stack, r) && sp < stack.Length0
      requires Holds(Cv, r, t)
      modifies stack
      ensures SlotHolds(stack, sp, r, t)
      ensures forall s, j, i ::
        0 <= s < stack.Length0 && s != sp && 0 <= j < stack.Length1 && 0 <= i < stack.Length2 ==>
        stack[s, j, i] == old(stack[s, j, i])
    {
      var j := 0;
      while j < Cv.Length0
        invariant 0 <= j <= Cv.Length0
        invariant forall y, x :: 0 <= y < j && 0 <= x < Cv.Length1 ==>
          stack[sp, y, x] == o.Eval(t, r.m0 + x, r.n0 + y)
        invariant forall s, y, x ::
          0 <= s < stack.Length0 && s != sp && 0 <= y < stack.Length1 && 0 <= x < stack.Length2 ==>
          stack[s, y, x] == old(stack[s, y, x])
      {
        var i := 0;
        while i < Cv.Length1
          invariant 0 <= i <= Cv.Length1
          invariant forall y, x :: 0 <= y <= j && 0 <= x < Cv.Length1 && (y < j || x < i) ==>
            stack[sp, y, x] == o.Eval(t, r.m0 + x, r.n0 + y)
          invariant forall s, y, x ::
            0 <= s < stack.Length0 && s != sp && 0 <= y < stack.Length1 && 0 <= x < stack.Length2 ==>
            stack[s, y, x] == old(stack[s, y, x])
        {
          stack[sp, j, i] := Cv[j, i];
          i := i + 1;
        }
        j := j + 1;
      }
    }

    /** The width of one pass of the chunk loop: `KN * CHUNK * 4` with `CHUNK == 8`. */
    function W(): nat { 32 * o.KN }

    /** The slots declared for the stack: `bsr(k / CHUNK + 1) + 1`. */
    function Slots(): nat { Bsr(o.k / 8 + 1) + 1 }

    function BlockTree(b: Block): Tree { Perfect(b.lo, b.exp, W()) }

    /** The stack holds the partial sums of the ruler counter at `c`. */
    ghost predicate StackHolds(stack: array3<Vec>, r: Region, c: nat)
      reads stack
    {
      |Blocks(c)| <= stack.Length0 &&
      forall s :: 0 <= s < |Blocks(c)| ==> SlotHolds(stack, s, r, BlockTree(Blocks(c)[s]))
    }

    /** One pass of the chunk loop: sum a chunk, merge the carry, push. */
    method ChunkPass(stack: array3<Vec>, sp: nat, r: Region, chunk: nat, step: nat, ghost c: nat)
      returns (sp': nat)
      requires InBounds(r) && StackSized(stack, r)
      requires chunk == c * W() && chunk + W() <= o.k && step == 2 * (c + 1)
      requires stack.Length0 == Slots()
      requires StackHolds(stack, r, c) && sp == |Blocks(c)|
      modifies stack
      ensures StackHolds(stack, r, c + 1) && sp' == |Blocks(c + 1)|
    {
      var Cv := SumChunk(r, chunk);
      assert Holds(Cv, r, Perfect(c, 0, W())) by {
        assert (c + 1) * W() == chunk + W();
      }
      RuleIsTrailingZeros(c + 1);
      sp' := MergeCarry(Cv, stack, sp, r, Bsr(BitAnd(step, 0 - step)), c + 1);
      sp' := PushSum(stack, sp', Cv, r, c + 1);
    }

    /** The inner loop `for (rule = ...; --rule;)`. */
    method MergeCarry(Cv: array2<Vec>, stack: array3<Vec>, sp: nat, r: Region, rule0: nat, ghost n: nat)
      returns (sp': nat)
      requires Sized(Cv, r) && StackSized(stack, r)
      requires n > 0 && rule0 == Zeros(n) + 1
      requires sp == |Blocks(n - 1)| && StackHolds(stack, r, n - 1)
      requires Holds(Cv, r, Perfect(n - 1, 0, W()))
      modifies Cv
      ensures sp' == |Blocks(Clear(n))| && StackHolds(stack, r, Clear(n))
      ensures Holds(Cv, r, Perfect(Clear(n), Zeros(n), W()))
    {
      sp' := sp;
      var rule := rule0 - 1;
      ghost var t := 0;
      while rule != 0
        invariant 0 <= t <= Zeros(n) && rule == Zeros(n) - t
        invariant Pow2(t) <= n
        invariant sp' == |Blocks(n - Pow2(t))| && StackHolds(stack, r, n - Pow2(t))
        invariant Holds(Cv, r, Perfect(n - Pow2(t), t, W()))
        decreases rule
      {
        sp' := MergeTop(Cv, stack, sp', r, n, t);
        t := t + 1;
        rule := rule - 1;
      }
      LowBitPow2(n);
    }

    /** Below its top block, the stack of counter `n` is the stack of `Clear(n)`. */
    lemma StackTop(stack: array3<Vec>, r: Region, n: nat)
      requires n > 0 && StackHolds(stack, r, n)
      ensures |Blocks(n)| == |Blocks(Clear(n))| + 1
      ensures StackHolds(stack, r, Clear(n))
      ensures SlotHolds(stack, |Blocks(Clear(n))|, r, Perfect(Clear(n), Zeros(n), W()))
    {
      var below, all := Blocks(Clear(n)), Blocks(n);
      assert all == below + [Block(Clear(n), Zeros(n))];
      assert SlotHolds(stack, |below|, r, BlockTree(all[|below|]));
      forall s | 0 <= s < |below|
        ensures SlotHolds(stack, s, r, BlockTree(below[s]))
      {
        assert all[s] == below[s];
      }
    }

    /** The carry: pop the top block and add it to the running sum. */
    method MergeTop(Cv: array2<Vec>, stack: array3<Vec>, sp: nat, r: Region, ghost n: nat, ghost t: nat)
      returns (sp': nat)
      requires Sized(Cv, r) && StackSized(stack, r)
      requires n > 0 && t < Zeros(n) && Pow2(t) <= n
      requires sp == |Blocks(n - Pow2(t))| && StackHolds(stack, r, n - Pow2(t))
      requires Holds(Cv, r, Perfect(n - Pow2(t), t, W()))
      modifies Cv
      ensures Pow2(t + 1) <= n
      ensures sp' == |Blocks(n - Pow2(t + 1))| && StackHolds(stack, r, n - Pow2(t + 1))
      ensures Holds(Cv, r, Perfect(n - Pow2(t + 1), t + 1, W()))
    {
      ghost var before := n - Pow2(t);
      CarryBlock(n, t);
      ghost var lo := Clear(before);
      assert lo + Pow2(t) == before && lo == n - Pow2(t + 1);
      StackTop(stack, r, before);
      sp' := sp - 1;
      TileAdd(Cv, stack, sp', r, Perfect(lo, t, W()), Perfect(before, t, W()));
      assert Perfect(lo, t + 1, W()) == Sum(Perfect(lo, t, W()), Perfect(before, t, W()));
    }

    method PushSum(stack: array3<Vec>, sp: nat, Cv: array2<Vec>, r: Region, ghost n: nat)
      returns (sp': nat)
      requires Sized(Cv, r) && StackSized(stack, r)
      requires 0 < n && n * W() <= o.k && o.KN > 0
      requires stack.Length0 == Slots()
      requires sp == |Blocks(Clear(n))| && StackHolds(stack, r, Clear(n))
      requires Holds(Cv, r, Perfect(Clear(n), Zeros(n), W()))
      modifies stack
      ensures StackHolds(stack, r, n) && sp' == |Blocks(n)|
    {
      ghost var below, all, top := Blocks(Clear(n)), Blocks(n), Block(Clear(n), Zeros(n));
      assert all == below + [top];
      assert |all| <= stack.Length0 by {
        ChunksFit(n);
        StackFits(n, o.k, n);
      }
      TilePush(stack, sp, Cv, r, BlockTree(top));
      forall s | 0 <= s < sp
        ensures SlotHolds(stack, s, r, BlockTree(below[s]))
      {
        assert old(SlotHolds(stack, s, r, BlockTree(below[s])));
      }
      assert forall s :: 0 <= s < |all| ==> SlotHolds(stack, s, r, BlockTree(all[s]));
      sp' := sp + 1;
    }

    lemma ChunksFit(n: nat)
      requires n * W() <= o.k && o.KN > 0
      ensures n <= o.k / 8
    {
      MulLe(1, o.KN, 32);
      assert n * W() == 32 * (n * o.KN);
      MulLe(1, o.KN, n);
    }

    /** A zeroed tile of accumulators. */
    method ZeroTile(r: Region, ghost at: nat) returns (Cv: array2<Vec>)
      requires r.Valid() && o.KN > 0
      ensures fresh(Cv) && Sized(Cv, r) && Holds(Cv, r, Span(at, at))
    {
      Cv := new Vec[r.n - r.n0, r.m - r.m0]((_, _) => Zero(o.KN));
    }

    method SumChunk(r: Region, chunk: nat) returns (Cv: array2<Vec>)
      requires InBounds(r) && r.Valid() && chunk + W() <= o.k
      ensures fresh(Cv) && Sized(Cv, r) && Holds(Cv, r, Span(chunk, chunk + W()))
    {
      Cv := ZeroTile(r, chunk);
      var l := 0;
      ghost var steps := 0;
      assert Times(32, o.KN) == W() by { TimesIsProduct(32, o.KN); }
      while l < W()
        invariant l == Times(steps, o.KN) && steps <= 32
        invariant fresh(Cv) && Sized(Cv, r) && Holds(Cv, r, Span(chunk, chunk + l))
        decreases 32 - steps
      {
        TimesBelow(steps, 32, o.KN);
        TileMadd(Cv, r, chunk, chunk + l);
        l := l + o.KN;
        steps := steps + 1;
      }
      TimesBelow(steps, 32, o.KN);
    }

    /** Full chunks in a row, and where the tail after them starts. */
    ghost function Chunks(): nat
      requires o.KN > 0
    {
      Quot(o.k, W())
    }

    ghost function TailStart(): (x: nat)
      requires o.KN > 0
      ensures x <= o.k
    {
      FloorLe(o.k, W());
      Chunks() * W()
    }

    /** The vector part of one job: the addition tree, drained into one accumulator per cell. */
    ghost function FinalTree(): (t: Tree)
      requires o.KN > 0
    {
      Drain(Chunks(), W(), Span(TailStart(), VectorEnd(TailStart())))
    }

    /** Where the vector tail that starts at `at` stops. */
    ghost function VectorEnd(at: nat): (e: nat)
      requires o.KN > 0 && at <= o.k
      ensures at <= e <= o.k < e + o.KN && Aligned(o.KN, at, e)
      decreases o.k - at
    {
      if at + o.KN > o.k then at
      else
        var e := VectorEnd(at + o.KN);
        AlignedFront(o.KN, at, e);
        e
    }

    /** The vector tail: whole vectors after the last full chunk. */
    method VectorTail(r: Region, chunk0: nat) returns (Cv: array2<Vec>, chunk: nat)
      requires InBounds(r) && r.Valid() && chunk0 <= o.k
      ensures chunk == VectorEnd(chunk0)
      ensures fresh(Cv) && Sized(Cv, r) && Holds(Cv, r, Span(chunk0, chunk))
    {
      Cv := ZeroTile(r, chunk0);
      chunk := chunk0;
      while chunk + o.KN <= o.k
        invariant chunk0 <= chunk <= o.k && VectorEnd(chunk) == VectorEnd(chunk0)
        invariant fresh(Cv) && Sized(Cv, r) && Holds(Cv, r, Span(chunk0, chunk))
      {
        TileMadd(Cv, r, chunk0, chunk);
        chunk := chunk + o.KN;
      }
    }

    /** `while (sp--) Cv += stack[sp]`. */
    method DrainStack(Cv: array2<Vec>, stack: array3<Vec>, sp0: nat, r: Region, ghost c0: nat, ghost top0: Tree)
      requires Sized(Cv, r) && StackSized(stack, r)
      requires StackHolds(stack, r, c0) && sp0 == |Blocks(c0)|
      requires Holds(Cv, r, top0)
      modifies Cv
      ensures Holds(Cv, r, Drain(c0, W(), top0))
    {
      var sp := sp0;
      ghost var c, top := c0, top0;
      while sp != 0
        invariant StackHolds(stack, r, c) && sp == |Blocks(c)|
        invariant Holds(Cv, r, top)
        invariant Drain(c, W(), top) == Drain(c0, W(), top0)
      {
        sp := sp - 1;
        StackTop(stack, r, c);
        TileAdd(Cv, stack, sp, r, Perfect(Clear(c), Zeros(c), W()), top);
        c, top := Clear(c), Sum(Perfect(Clear(c), Zeros(c), W()), top);
      }
    }

    /** The chunk loop of one job. */
    method ChunkLoop(stack: array3<Vec>, r: Region) returns (sp: nat, chunk: nat)
      requires InBounds(r) && StackSized(stack, r)
      requires stack.Length0 == Slots()
      modifies stack
      ensures chunk == TailStart()
      ensures StackHolds(stack, r, Chunks()) && sp == |Blocks(Chunks())|
    {
      chunk, sp := 0, 0;
      var step := 2;
      ghost var c := 0;
      while chunk + W() <= o.k
        invariant chunk == c * W() <= o.k && step == 2 * (c + 1)
        invariant StackHolds(stack, r, c) && sp == |Blocks(c)|
        decreases o.k - chunk
      {
        sp := ChunkPass(stack, sp, r, chunk, step, c);
        NextChunk(c);
        chunk := chunk + W();
        step := step + 2;
        c := c + 1;
      }
      ChunkCount(c);
    }

    lemma NextChunk(c: nat)
      ensures (c + 1) * W() == c * W() + W()
    {
    }

    lemma ChunkCount(c: nat)
      requires o.KN > 0 && c * W() <= o.k < c * W() + W()
      ensures o.k / W() == c
    {
      DivMod(o.k, W(), c, o.k - c * W());
    }

    /** Everything one job does before it stores: `Cf` for the tile `r`. */
    method TileProduct(stack: array3<Vec>, r: Region) returns (Cf: array2<real>)
      requires InBounds(r) && StackSized(stack, r)
      requires stack.Length0 == Slots()
      modifies stack
      ensures fresh(Cf) && Cf.Length0 == r.n - r.n0 && Cf.Length1 == r.m - r.m0
      ensures forall j, i :: 0 <= j < Cf.Length0 && 0 <= i < Cf.Length1 ==>
        Cf[j, i] == o.Dot(r.m0 + i, r.n0 + j, 0, o.k)
    {
      var sp, chunk := ChunkLoop(stack, r);
      var Cv, chunk' := VectorTail(r, chunk);
      DrainStack(Cv, stack, sp, r, Chunks(), Span(chunk, chunk'));
      FinalCovers();
      Cf := ScalarTail(Cv, r, chunk', FinalTree());
    }

    /** The addition tree of a job reads the vectors of `[0, VectorEnd)` once each, in order. */
    lemma FinalCovers()
      requires o.KN > 0
      ensures Covers(FinalTree(), o.KN, 0, VectorEnd(TailStart()))
    {
      var end := VectorEnd(TailStart());
      DrainCovers(o.KN, Chunks(), W(), Span(TailStart(), end), end);
    }

    /** The promise of the file's header comment: summing error can only grow with the logarithm
        of the length, because no chunk passes through more than `bsr(chunks) + 1` additions. */
    lemma SummationHeight()
      requires o.KN > 0 && o.k >= W()
      ensures Chunks() > 0
      ensures Height(FinalTree()) == Bsr(Chunks()) + 1
    {
      DivPositive(o.k, W());
      DrainHeight(Chunks(), W(), Span(TailStart(), VectorEnd(TailStart())));
    }

    /** `hsum` and the scalar tail. */
    method ScalarTail(Cv: array2<Vec>, r: Region, chunk0: nat, ghost t: Tree) returns (Cf: array2<real>)
      requires InBounds(r) && Sized(Cv, r) && chunk0 <= o.k
      requires Covers(t, o.KN, 0, chunk0) && Holds(Cv, r, t)
      ensures fresh(Cf) && Cf.Length0 == r.n - r.n0 && Cf.Length1 == r.m - r.m0
      ensures ScalarsHold(Cf, r, o.k)
    {
      Cf := HsumTile(Cv, r, chunk0, t);
      var chunk := chunk0;
      while chunk < o.k
        invariant chunk <= o.k && fresh(Cf) && Cf.Length0 == r.n - r.n0 && Cf.Length1 == r.m - r.m0
        invariant ScalarsHold(Cf, r, chunk)
      {
        ScalarStep(Cf, r, chunk);
        chunk := chunk + 1;
      }
    }

    ghost predicate ScalarsHold(Cf: array2<real>, r: Region, hi: nat)
      reads Cf
    {
      forall j, i :: 0 <= j < Cf.Length0 && 0 <= i < Cf.Length1 ==>
        Cf[j, i] == o.Dot(r.m0 + i, r.n0 + j, 0, hi)
    }

    method HsumTile(Cv: array2<Vec>, r: Region, ghost hi: nat, ghost t: Tree) returns (Cf: array2<real>)
      requires Sized(Cv, r) && Covers(t, o.KN, 0, hi) && Holds(Cv, r, t)
      ensures fresh(Cf) && Cf.Length0 == r.n - r.n0 && Cf.Length1 == r.m - r.m0
      ensures ScalarsHold(Cf, r, hi)
    {
      Cf := new real[r.n - r.n0, r.m - r.m0]((_, _) => 0.0);
      for j := 0 to Cf.Length0
        invariant DotUpto(Cf, r, 0, hi, j, 0, true)
      {
        for i := 0 to Cf.Length1
          invariant DotUpto(Cf, r, 0, hi, j, i, true)
        {
          assert Hsum(Cv[j, i]) == o.Dot(r.m0 + i, r.n0 + j, 0, hi) by {
            EvalIsDot(o, t, r.m0 + i, r.n0 + j, 0, hi);
          }
          Cf[j, i] := Hsum(Cv[j, i]);
        }
      }
    }

    /** Cells before `(j, i)` hold the sum up to `done`, the rest the sum up to `todo` (or anything, if `any`). */
    ghost predicate DotUpto(Cf: array2<real>, r: Region, todo: nat, done: nat, j: nat, i: nat, any: bool)
      reads Cf
    {
      forall y, x :: 0 <= y < Cf.Length0 && 0 <= x < Cf.Length1 ==>
        var before := y < j || (y == j && x < i);
        (any && !before) || Cf[y, x] == o.Dot(r.m0 + x, r.n0 + y, 0, if before then done else todo)
    }

    method ScalarStep(Cf: array2<real>, r: Region, chunk: nat)
      requires InBounds(r) && r.Valid() && chunk < o.k
      requires Cf.Length0 == r.n - r.n0 && Cf.Length1 == r.m - r.m0
      requires ScalarsHold(Cf, r, chunk)
      modifies Cf
      ensures ScalarsHold(Cf, r, chunk + 1)
    {
      for j := 0 to Cf.Length0
        invariant DotUpto(Cf, r, chunk, chunk + 1, j, 0, false)
      {
        for i := 0 to Cf.Length1
          invariant DotUpto(Cf, r, chunk, chunk + 1, j, i, false)
        {
          assert o.RowA(r.m0 + i) && o.RowB(r.n0 + j);
          var x, y := o.lda * (r.m0 + i) + chunk, o.ldb * (r.n0 + j) + chunk;
          assert o.Term(r.m0 + i, r.n0 + j, chunk) == o.A[x] * o.B[y];
          Cf[j, i] := o.A[x] * o.B[y] + Cf[j, i];
        }
      }
    }

    // ----- stores -----

    /** Since the contents were `c0`, exactly `cells` were stored, once each, with their products. */
    ghost predicate Stored(c0: seq<real>, log: seq<Store>, cells: set<(int, int)>)
      reads C
    {
      Filled(o, ldc, c0, C[..], log, cells)
    }

    ghost function CellsBefore(r: Region, j: nat, i: nat): set<(int, int)> {
      set x, y | r.m0 <= x < r.m && r.n0 <= y < r.n && (y < j || (y == j && x < i)) :: (x, y)
    }

    method StoreCell(i: nat, j: nat, val: real, ghost c0: seq<real>, ghost log: seq<Store>, ghost done: set<(int, int)>)
      returns (ghost log': seq<Store>)
      requires Addr(ldc, i, j) < C.Length && (i, j) !in done
      requires Stored(c0, log, done)
      requires val == o.Dot(i, j, 0, o.k)
      modifies C
      ensures Stored(c0, log', done + {(i, j)})
    {
      log' := log + [Store(i, j, val)];
      FilledCell(o, ldc, c0, C[..], log, done, Store(i, j, val));
      var x := ldc * j + i;
      ghost var before := C[..];
      C[x] := val;
      assert C[..] == before[x := val];
    }

    lemma CellsBeforeStep(r: Region, j: nat, i: nat)
      requires r.Has(i, j)
      ensures (i, j) !in CellsBefore(r, j, i)
      ensures CellsBefore(r, j, i + 1) == CellsBefore(r, j, i) + {(i, j)}
    {
    }

    lemma CellsBeforeEnds(r: Region, j: nat)
      requires r.Valid() && r.n0 <= j <= r.n
      ensures CellsBefore(r, r.n0, r.m0) == {}
      ensures CellsBefore(r, j + 1, r.m0) == CellsBefore(r, j, r.m)
      ensures CellsBefore(r, r.n, r.m0) == r.Cells()
    {
    }

    /** The last loops of a job: store the tile, each cell once. */
    method StoreTile(Cf: array2<real>, r: Region) returns (ghost log: seq<Store>)
      requires InBounds(r) && r.Valid()
      requires Cf.Length0 == r.n - r.n0 && Cf.Length1 == r.m - r.m0
      requires ScalarsHold(Cf, r, o.k)
      modifies C
      ensures Stored(old(C[..]), log, r.Cells())
    {
      log := [];
      FilledNone(o, ldc, C[..]);
      CellsBeforeEnds(r, r.n0);
      var j := 0;
      while j < Cf.Length0
        invariant 0 <= j <= Cf.Length0
        invariant Stored(old(C[..]), log, CellsBefore(r, r.n0 + j, r.m0))
      {
        log := StoreColumn(Cf, r, j, old(C[..]), log);
        CellsBeforeEnds(r, r.n0 + j);
        j := j + 1;
      }
    }

    method StoreColumn(Cf: array2<real>, r: Region, j: nat, ghost c0: seq<real>, ghost log: seq<Store>)
      returns (ghost log': seq<Store>)
      requires InBounds(r) && r.Valid() && j < Cf.Length0
      requires Cf.Length0 == r.n - r.n0 && Cf.Length1 == r.m - r.m0
      requires ScalarsHold(Cf, r, o.k)
      requires Stored(c0, log, CellsBefore(r, r.n0 + j, r.m0))
      modifies C
      ensures Stored(c0, log', CellsBefore(r, r.n0 + j, r.m))
    {
      log' := log;
      var i := 0;
      while i < Cf.Length1
        invariant 0 <= i <= Cf.Length1
        invariant Stored(c0, log', CellsBefore(r, r.n0 + j, r.m0 + i))
      {
        assert r.Has(r.m0 + i, r.n0 + j);
        CellsBeforeStep(r, r.n0 + j, r.m0 + i);
        log' := StoreCell(r.m0 + i, r.n0 + j, Cf[j, i], c0, log', CellsBefore(r, r.n0 + j, r.m0 + i));
        i := i + 1;
      }
    }

    // ----- tiles and threads -----

    lemma TileInBounds(g: Grid, job: nat)
      requires g.Valid() && job < g.Tiles() && InBounds(g.r)
      ensures InBounds(g.Tile(job))
    {
      var t := g.Tile(job);
      forall i: nat, j: nat | t.Has(i, j)
        ensures g.r.Has(i, j)
      {
        TileIsJob(g, job, i, j);
      }
      assert t.Has(t.m0, t.n0);
      forall i: nat | t.m0 <= i < t.m
        ensures o.RowA(i)
      {
        assert t.Has(i, t.n0);
      }
      forall j: nat | t.n0 <= j < t.n
        ensures o.RowB(j)
      {
        assert t.Has(t.m0, j);
      }
    }

    /** `RM > 1 ? extent / RM : 1`, which equals `extent / RM` because the dispatch tables pick
        `RM == 1` for a single row only. */
    function TileCount(extent: nat, rm: nat): (c: nat)
      requires rm >= 1 && (rm == 1 ==> extent == 1)
      ensures c == extent / rm
    {
      if rm > 1 then extent / rm else 1
    }

    /** One thread's share of one grid of tiles. */
    method Gemm(g: Grid) returns (ghost log: seq<Store>)
      requires g.Valid() && g.nth == nth && InBounds(g.r)
      requires (g.RM == 1 ==> g.r.m - g.r.m0 == 1) && (g.RN == 1 ==> g.r.n - g.r.n0 == 1)
      modifies C
      ensures Stored(old(C[..]), log, g.JobCells(Start(g, ith), End(g, ith)))
    {
      var ytiles := TileCount(g.r.m - g.r.m0, g.RM);
      var xtiles := TileCount(g.r.n - g.r.n0, g.RN);
      var tiles := xtiles * ytiles;
      var duty := Share(tiles, nth);
      var start := First(duty, ith);
      var end := start + duty;
      if end > tiles {
        end := tiles;
      }
      log := RunJobs(g, xtiles, start, end);
    }

    /** The loop over the jobs of one thread. */
    method RunJobs(g: Grid, xtiles: nat, start: nat, end: nat)
      returns (ghost log: seq<Store>)
      requires g.Valid() && InBounds(g.r) && end <= g.Tiles() && xtiles == g.XTiles()
      modifies C
      ensures Stored(old(C[..]), log, g.JobCells(start, end))
    {
      var stack := new Vec[Slots(), g.RN, g.RM]((_, _, _) => []);
      log := [];
      FilledNone(o, ldc, C[..]);
      assert g.JobCells(start, start) == {};
      var job := start;
      while job < end
        invariant start <= job && (job <= end || job == start)
        invariant Stored(old(C[..]), log, g.JobCells(start, job))
      {
        log := Job(g, stack, TileAt(g.r.m0, g.r.n0, xtiles, g.RM, g.RN, job), job, old(C[..]), log, start);
        job := job + 1;
      }
      assert g.JobCells(start, job) == g.JobCells(start, end);
    }

    /** One job: compute a tile and store it. */
    method Job(ghost g: Grid, stack: array3<Vec>, r: Region, ghost job: nat,
               ghost c0: seq<real>, ghost log: seq<Store>, ghost start: nat)
      returns (ghost log': seq<Store>)
      requires g.Valid() && InBounds(g.r) && start <= job < g.Tiles() && r == g.Tile(job)
      requires StackSized(stack, r) && stack.Length0 == Slots()
      requires Stored(c0, log, g.JobCells(start, job))
      modifies C, stack
      ensures Stored(c0, log', g.JobCells(start, job + 1))
    {
      ghost var c1 := C[..];
      TileInBounds(g, job);
      var Cf := TileProduct(stack, r);
      ghost var more := StoreTile(Cf, r);
      log' := log + more;
      JobCellsStep(g, start, job);
      FilledJoin(o, ldc, c0, c1, C[..], log, g.JobCells(start, job), more, r.Cells());
    }

    /** Tile a region, then the two leftovers. */
    method Mnpack(r: Region) returns (ghost log: seq<Store>)
      requires r.Valid() && nth >= 1 && InBounds(r)
      modifies C
      ensures Stored(old(C[..]), log, Owned(regs, nth, r, ith))
      decreases r.m - r.m0 + (r.n - r.n0)
    {
      if Shape(regs, r.m - r.m0, r.n - r.n0) == (0, 0) {
        log := [];
        FilledNone(o, ldc, C[..]);
        NothingOwned(r);
        return;
      }
      var g := GridOf(regs, nth, r);
      SubregionInBounds(g);
      ghost var tiles := Gemm(g);
      var mp := Edge(r.m0, r.m, g.RM);
      var np := Edge(r.n0, r.n, g.RN);
      ghost var c1 := C[..];
      ghost var below := Mnpack(Region(mp, r.m, r.n0, np));
      ghost var c2 := C[..];
      ghost var right := Mnpack(Region(r.m0, r.m, np, r.n));
      log := tiles + below + right;
      JoinRegions(r, old(C[..]), c1, c2, C[..], tiles, below, right);
    }

    lemma NothingOwned(r: Region)
      requires r.Valid() && nth >= 1 && Shape(regs, r.m - r.m0, r.n - r.n0) == (0, 0)
      ensures Owned(regs, nth, r, ith) == {}
    {
    }

    lemma JoinRegions(r: Region, c0: seq<real>, c1: seq<real>, c2: seq<real>, c3: seq<real>,
                      tiles: seq<Store>, below: seq<Store>, right: seq<Store>)
      requires r.Valid() && nth >= 1 && Shape(regs, r.m - r.m0, r.n - r.n0) != (0, 0)
      requires var g := GridOf(regs, nth, r);
        && Filled(o, ldc, c0, c1, tiles, g.JobCells(Start(g, ith), End(g, ith)))
        && Filled(o, ldc, c1, c2, below, Owned(regs, nth, Below(g), ith))
        && Filled(o, ldc, c2, c3, right, Owned(regs, nth, Right(g), ith))
      ensures Filled(o, ldc, c0, c3, tiles + below + right, Owned(regs, nth, r, ith))
    {
      var g := GridOf(regs, nth, r);
      var x, y := g.JobCells(Start(g, ith), End(g, ith)), Owned(regs, nth, Below(g), ith);
      OwnedSplit(regs, nth, r, ith);
      FilledJoin(o, ldc, c0, c1, c2, tiles, x, below, y);
      FilledJoin(o, ldc, c0, c2, c3, tiles + below, x + y, right, Owned(regs, nth, Right(g), ith));
    }

    lemma SubregionInBounds(g: Grid)
      requires g.Valid() && InBounds(g.r)
      ensures InBounds(Below(g)) && InBounds(Right(g))
    {
    }

    /** What thread `ith` does: it stores the dot product of each cell it owns exactly once, stores
        nothing else, and never touches a cell of another thread. */
    method Matmul(m: nat, n: nat) returns (ghost log: seq<Store>)
      requires nth >= 1 && InBounds(Region(0, m, 0, n))
      modifies C
      ensures C[..] == Apply(ldc, old(C[..]), log)
      ensures WritesOnce(o, log, Owned(regs, nth, Region(0, m, 0, n), ith))
    {
      log := Mnpack(Region(0, m, 0, n));
    }
  }
}
