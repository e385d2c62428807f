/** Exact arithmetic under the matrix kernels: vectors of `KN` lanes, dot products over a
    range, and the value of an addition tree. */
module DotProduct {
  import opened Arith
  import opened Ruler

  /** A vector register: one real number a lane. */
  type Vec = seq<real>

  function Zero(kn: nat): Vec {
    seq(kn, _ => 0.0)
  }

  /** Lane-wise `x * y + s`. */
  function Madd(x: Vec, y: Vec, s: Vec): (r: Vec)
    requires |x| == |y| == |s|
    ensures |r| == |s|
  {
    seq(|s|, t requires 0 <= t < |s| => x[t] * y[t] + s[t])
  }

  function Add(x: Vec, y: Vec): (r: Vec)
    requires |x| == |y|
    ensures |r| == |x|
  {
    seq(|x|, t requires 0 <= t < |x| => x[t] + y[t])
  }

  /** Horizontal sum of the lanes. */
  function Hsum(x: Vec): real {
    if x == [] then 0.0 else Hsum(x[..|x| - 1]) + x[|x| - 1]
  }

  ghost function At(s: seq<real>, x: nat): real {
    if x < |s| then s[x] else 0.0
  }

  /** `n` elements from `x` on, reading 0 past the end. */
  ghost function Load(s: seq<real>, x: nat, n: nat): (v: Vec)
    ensures |v| == n
  {
    seq(n, t requires 0 <= t < n => At(s, x + t))
  }

  /** The two input matrices: cell `(i, j)` of the product is row `i` of `A` times row `j` of `B`. */
  datatype Operands = Operands(A: seq<real>, lda: nat, B: seq<real>, ldb: nat, k: nat, KN: nat) {

    ghost predicate RowA(i: nat) { lda * i + k <= |A| }

    ghost predicate RowB(j: nat) { ldb * j + k <= |B| }

    ghost function Term(i: nat, j: nat, l: nat): real {
      At(A, lda * i + l) * At(B, ldb * j + l)
    }

    /** The sum of `A[lda * i + l] * B[ldb * j + l]` over `lo <= l < hi`. */
    ghost function Dot(i: nat, j: nat, lo: nat, hi: nat): real
      decreases hi
    {
      if hi <= lo then 0.0 else Dot(i, j, lo, hi - 1) + Term(i, j, hi - 1)
    }

    ghost function LoadA(i: nat, l: nat): (v: Vec)
      ensures |v| == KN
    {
      Load(A, lda * i + l, KN)
    }

    ghost function LoadB(j: nat, l: nat): (v: Vec)
      ensures |v| == KN
    {
      Load(B, ldb * j + l, KN)
    }

    /** The accumulator of cell `(i, j)` after loading `[lo, hi)` one vector at a time. */
    ghost function Accumulate(i: nat, j: nat, lo: nat, hi: nat): (v: Vec)
      ensures |v| == KN
      decreases hi
    {
      if KN == 0 || hi < lo + KN then Zero(KN)
      else Madd(LoadA(i, hi - KN), LoadB(j, hi - KN), Accumulate(i, j, lo, hi - KN))
    }

    /** The vector an addition tree computes for cell `(i, j)`. */
    ghost function Eval(t: Tree, i: nat, j: nat): (v: Vec)
      ensures |v| == KN
    {
      match t
      case Span(lo, hi) => Accumulate(i, j, lo, hi)
      case Sum(earlier, later) => Add(Eval(later, i, j), Eval(earlier, i, j))
    }
  }

  // ----- sums -----

  lemma {:induction false} HsumZero(n: nat)
    ensures Hsum(Zero(n)) == 0.0
  {
    if n > 0 {
      assert Zero(n)[..n - 1] == Zero(n - 1);
      HsumZero(n - 1);
    }
  }

  lemma {:induction false} HsumAdd(x: Vec, y: Vec)
    requires |x| == |y|
    ensures Hsum(Add(x, y)) == Hsum(x) + Hsum(y)
  {
    if x != [] {
      var n := |x| - 1;
      assert Add(x, y)[..n] == Add(x[..n], y[..n]);
      HsumAdd(x[..n], y[..n]);
    }
  }

  lemma {:induction false} DotSplit(o: Operands, i: nat, j: nat, lo: nat, mid: nat, hi: nat)
    requires lo <= mid <= hi
    ensures o.Dot(i, j, lo, hi) == o.Dot(i, j, lo, mid) + o.Dot(i, j, mid, hi)
    decreases hi
  {
    if mid < hi {
      DotSplit(o, i, j, lo, mid, hi - 1);
    }
  }

  lemma LoadIsSlice(s: seq<real>, x: nat, n: nat)
    requires x + n <= |s|
    ensures s[x..x + n] == Load(s, x, n)
  {
    forall t | 0 <= t < n
      ensures s[x..x + n][t] == Load(s, x, n)[t]
    {
      assert At(s, x + t) == s[x + t];
    }
  }

  /** One `madd` of the next vectors of a row and a column. */
  lemma MaddStep(o: Operands, i: nat, j: nat, lo: nat, l: nat)
    requires o.RowA(i) && o.RowB(j) && o.KN > 0 && lo <= l && l + o.KN <= o.k
    ensures o.lda * i + l + o.KN <= |o.A| && o.ldb * j + l + o.KN <= |o.B|
    ensures var x, y := o.lda * i + l, o.ldb * j + l;
      o.Eval(Span(lo, l + o.KN), i, j) == Madd(o.A[x..x + o.KN], o.B[y..y + o.KN], o.Eval(Span(lo, l), i, j))
  {
    LoadIsSlice(o.A, o.lda * i + l, o.KN);
    LoadIsSlice(o.B, o.ldb * j + l, o.KN);
  }

  /** Lane by lane, one `madd` adds the next `n` terms to the horizontal sum. */
  lemma {:induction false} HsumMadd(o: Operands, i: nat, j: nat, l: nat, s: Vec, n: nat)
    requires |s| == o.KN && n <= o.KN
    ensures Hsum(Madd(o.LoadA(i, l), o.LoadB(j, l), s)[..n])
         == Hsum(s[..n]) + o.Dot(i, j, l, l + n)
  {
    if n > 0 {
      HsumMadd(o, i, j, l, s, n - 1);
      var v := Madd(o.LoadA(i, l), o.LoadB(j, l), s);
      assert v[..n][..n - 1] == v[..n - 1];
      assert s[..n][..n - 1] == s[..n - 1];
      assert v[n - 1] == o.Term(i, j, l + n - 1) + s[n - 1];
    }
  }

  /** `hi - lo` is a whole number of vectors. */
  ghost predicate Aligned(kn: nat, lo: nat, hi: nat)
    decreases hi
  {
    kn > 0 && (hi == lo || (hi >= lo + kn && Aligned(kn, lo, hi - kn)))
  }

  lemma {:induction false} AlignedFront(kn: nat, lo: nat, hi: nat)
    requires Aligned(kn, lo + kn, hi)
    ensures Aligned(kn, lo, hi)
    decreases hi
  {
    if hi > lo + kn {
      AlignedFront(kn, lo, hi - kn);
    }
  }

  lemma {:induction false} AccumulateIsDot(o: Operands, i: nat, j: nat, lo: nat, hi: nat)
    requires Aligned(o.KN, lo, hi)
    ensures Hsum(o.Accumulate(i, j, lo, hi)) == o.Dot(i, j, lo, hi)
    decreases hi
  {
    if hi == lo {
      HsumZero(o.KN);
    } else {
      AccumulateIsDot(o, i, j, lo, hi - o.KN);
      var s := o.Accumulate(i, j, lo, hi - o.KN);
      HsumMadd(o, i, j, hi - o.KN, s, o.KN);
      var v := o.Accumulate(i, j, lo, hi);
      assert v[..o.KN] == v && s[..o.KN] == s;
      DotSplit(o, i, j, lo, hi - o.KN, hi);
    }
  }

  /** A tree whose leaves lie end to end over `[lo, hi)`. */
  ghost predicate Covers(t: Tree, kn: nat, lo: nat, hi: nat) {
    match t
    case Span(a, b) => a == lo <= b == hi && Aligned(kn, a, b)
    case Sum(earlier, later) =>
      exists mid: nat :: lo <= mid <= hi && Covers(earlier, kn, lo, mid) && Covers(later, kn, mid, hi)
  }

  /** Any such tree, whatever its shape, computes the same dot product. */
  lemma {:induction false} EvalIsDot(o: Operands, t: Tree, i: nat, j: nat, lo: nat, hi: nat)
    requires Covers(t, o.KN, lo, hi)
    ensures Hsum(o.Eval(t, i, j)) == o.Dot(i, j, lo, hi)
  {
    match t
    case Span(a, b) => AccumulateIsDot(o, i, j, a, b);
    case Sum(earlier, later) =>
      var mid: nat :| lo <= mid <= hi && Covers(earlier, o.KN, lo, mid) && Covers(later, o.KN, mid, hi);
      EvalIsDot(o, earlier, i, j, lo, mid);
      EvalIsDot(o, later, i, j, mid, hi);
      HsumAdd(o.Eval(later, i, j), o.Eval(earlier, i, j));
      DotSplit(o, i, j, lo, mid, hi);
  }

  /** `n * kn`, counted up. */
  ghost function Times(n: nat, kn: nat): nat {
    if n == 0 then 0 else Times(n - 1, kn) + kn
  }

  lemma {:induction false} TimesIsProduct(n: nat, kn: nat)
    ensures Times(n, kn) == n * kn
  {
    if n > 0 {
      TimesIsProduct(n - 1, kn);
    }
  }

  lemma {:induction false} TimesBelow(a: nat, b: nat, kn: nat)
    requires kn > 0
    ensures Times(a, kn) < Times(b, kn) ==> a < b
    ensures a < b ==> Times(a, kn) + kn <= Times(b, kn)
  {
    if a < b {
      TimesBelow(a, b - 1, kn);
    } else if b < a {
      TimesBelow(a - 1, b, kn);
    }
  }

  lemma {:induction false} AlignedMultiple(kn: nat, lo: nat, steps: nat)
    requires kn > 0
    ensures Aligned(kn, lo, lo + Times(steps, kn))
  {
    if steps > 0 {
      AlignedMultiple(kn, lo, steps - 1);
    }
  }

  lemma {:induction false} PerfectCovers(kn: nat, lo: nat, b: nat, w: nat)
    requires kn > 0 && w == kn * 32
    ensures Covers(Perfect(lo, b, w), kn, lo * w, (lo + Pow2(b)) * w)
    decreases b
  {
    if b == 0 {
      assert (lo + 1) * w == lo * w + 32 * kn;
      AlignedMultiple(kn, lo * w, 32);
      TimesIsProduct(32, kn);
    } else {
      var half := Pow2(b - 1);
      PerfectCovers(kn, lo, b - 1, w);
      PerfectCovers(kn, lo + half, b - 1, w);
      assert lo + half + half == lo + Pow2(b);
      MulLe(lo, lo + half, w);
      MulLe(lo + half, lo + Pow2(b), w);
    }
  }

  lemma CoversSum(kn: nat, earlier: Tree, later: Tree, lo: nat, mid: nat, hi: nat)
    requires lo <= mid <= hi && Covers(earlier, kn, lo, mid) && Covers(later, kn, mid, hi)
    ensures Covers(Sum(earlier, later), kn, lo, hi)
  {
  }

  /** Draining the stack over `n` chunks leaves one tree over everything read. */
  lemma {:induction false} DrainCovers(kn: nat, n: nat, w: nat, top: Tree, hi: nat)
    requires kn > 0 && w == kn * 32 && n * w <= hi
    requires Covers(top, kn, n * w, hi)
    ensures Covers(Drain(n, w, top), kn, 0, hi)
    decreases n
  {
    if n > 0 {
      var lo, b := Clear(n), Zeros(n);
      assert lo + Pow2(b) == n by { LowBitPow2(n); }
      PerfectCovers(kn, lo, b, w);
      MulLe(lo, n, w);
      CoversSum(kn, Perfect(lo, b, w), top, lo * w, n * w, hi);
      DrainCovers(kn, lo, w, Sum(Perfect(lo, b, w), top), hi);
    }
  }
}
