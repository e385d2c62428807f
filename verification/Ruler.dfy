/** The binary counter behind the "ruler function" summation of tinyBLAS::gemm:
    a stack with one partial sum for each set bit of the number of chunks already read,
    and the shape of the addition tree this builds. */
module Ruler {

  /** Bitwise `x & y` on two's complement integers of any width. */
  function BitAnd(x: nat, y: int): nat {
    if x == 0 then 0
    else 2 * BitAnd(x / 2, y / 2) + if x % 2 == 1 && y % 2 == 1 then 1 else 0
  }

  /** Index of the most significant bit. */
  function Bsr(x: nat): nat
    requires x > 0
  {
    if x == 1 then 0 else 1 + Bsr(x / 2)
  }

  function Pow2(b: nat): (p: nat)
    ensures p >= 1
  {
    if b == 0 then 1 else 2 * Pow2(b - 1)
  }

  /** The largest power of two dividing `n`. */
  function LowBit(n: nat): (p: nat)
    requires n > 0
    ensures 1 <= p <= n
  {
    if n % 2 == 1 then 1 else 2 * LowBit(n / 2)
  }

  function Clear(n: nat): (r: nat)
    requires n > 0
    ensures r < n
  {
    n - LowBit(n)
  }

  function PopCount(n: nat): nat {
    if n == 0 then 0 else PopCount(n / 2) + n % 2
  }

  lemma {:induction false} LowBitIsMask(x: nat)
    requires x > 0
    ensures BitAnd(x, 0 - x) == LowBit(x)
  {
    if x % 2 == 0 {
      assert (0 - x) / 2 == -(x / 2);
      LowBitIsMask(x / 2);
    } else {
      assert (0 - x) % 2 == 1;
      assert (0 - x) / 2 == -(x / 2) - 1;
      ComplementIsDisjoint(x / 2);
    }
  }

  lemma {:induction false} ComplementIsDisjoint(x: nat)
    ensures BitAnd(x, -1 - x) == 0
  {
    if x > 0 {
      assert (-1 - x) / 2 == -(x / 2) - 1;
      assert (-1 - x) % 2 == 1 - x % 2;
      ComplementIsDisjoint(x / 2);
    }
  }

  lemma {:induction false} BsrPow2(b: nat)
    ensures Bsr(Pow2(b)) == b
  {
    if b > 0 {
      BsrPow2(b - 1);
    }
  }

  lemma {:induction false} BsrBounds(n: nat)
    requires n > 0
    ensures Pow2(Bsr(n)) <= n < 2 * Pow2(Bsr(n))
  {
    if n > 1 {
      BsrBounds(n / 2);
    }
  }

  lemma {:induction false} BsrMonotonic(a: nat, b: nat)
    requires 0 < a <= b
    ensures Bsr(a) <= Bsr(b)
  {
    if a > 1 {
      BsrMonotonic(a / 2, b / 2);
    }
  }

  /** Number of trailing zero bits. */
  function Zeros(n: nat): nat
    requires n > 0
  {
    if n % 2 == 1 then 0 else 1 + Zeros(n / 2)
  }

  lemma {:induction false} LowBitPow2(n: nat)
    requires n > 0
    ensures LowBit(n) == Pow2(Zeros(n))
    ensures Zeros(n) <= Bsr(n)
  {
    if n % 2 == 0 {
      LowBitPow2(n / 2);
    }
  }

  /** The trip count of the inner loop: `bsr(step & -step) - 1` with `step = 2 * n`. */
  lemma RuleIsTrailingZeros(n: nat)
    requires n > 0
    ensures BitAnd(2 * n, 0 - 2 * n) > 0
    ensures Bsr(BitAnd(2 * n, 0 - 2 * n)) == Zeros(n) + 1
  {
    LowBitIsMask(2 * n);
    assert LowBit(2 * n) == 2 * LowBit(n);
    LowBitPow2(n);
    BsrPow2(Zeros(n) + 1);
  }

  /** While the counter goes from `n - 1` to `n`, the carry merges blocks of doubling size. */
  lemma {:induction false} CarryBlock(n: nat, t: nat)
    requires n > 0 && t < Zeros(n)
    ensures n > Pow2(t)
    ensures Zeros(n - Pow2(t)) == t
    ensures Clear(n - Pow2(t)) == n - Pow2(t + 1)
  {
    if t == 0 {
      LowBitPow2(n - 1);
    } else {
      CarryBlock(n / 2, t - 1);
      assert n == 2 * (n / 2);
      assert n - Pow2(t) == 2 * (n / 2 - Pow2(t - 1));
      LowBitPow2(n - Pow2(t));
    }
  }

  lemma {:induction false} ClearPopCount(n: nat)
    requires n > 0
    ensures PopCount(Clear(n)) == PopCount(n) - 1
  {
    if n % 2 == 0 {
      ClearPopCount(n / 2);
      assert Clear(n) == 2 * Clear(n / 2);
    } else {
      assert (n - 1) / 2 == n / 2 && (n - 1) % 2 == 0;
    }
  }

  lemma {:induction false} PopCountBound(n: nat)
    requires n > 0
    ensures 1 <= PopCount(n) <= Bsr(n) + 1
  {
    if n > 1 {
      PopCountBound(n / 2);
    }
  }

  lemma {:induction false} ClearHasMoreZeros(n: nat)
    requires n > 0 && Clear(n) > 0
    ensures Zeros(Clear(n)) > Zeros(n)
  {
    if n % 2 == 0 {
      assert Clear(n) == 2 * Clear(n / 2);
      ClearHasMoreZeros(n / 2);
    }
  }

  // ----- the stack of blocks -----

  /** `2^exp` consecutive chunks starting at chunk `lo`. */
  datatype Block = Block(lo: nat, exp: nat)

  /** The stack after `n` chunks, bottom first: one block for each set bit of `n`. */
  function Blocks(n: nat): seq<Block> {
    if n == 0 then [] else Blocks(Clear(n)) + [Block(Clear(n), Zeros(n))]
  }

  lemma {:induction false} BlocksLength(n: nat)
    ensures |Blocks(n)| == PopCount(n)
  {
    if n > 0 {
      BlocksLength(Clear(n));
      ClearPopCount(n);
    }
  }

  /** The blocks lie end to end over the first `n` chunks, sizes strictly decreasing up
      the stack. */
  lemma {:induction false} BlocksShape(n: nat)
    ensures n > 0 ==> Blocks(n)[0].lo == 0
    ensures n > 0 ==> var top := Blocks(n)[|Blocks(n)| - 1]; top.lo + Pow2(top.exp) == n
    ensures forall s :: 0 <= s < |Blocks(n)| - 1 ==>
              && Blocks(n)[s].lo + Pow2(Blocks(n)[s].exp) == Blocks(n)[s + 1].lo
              && Blocks(n)[s].exp > Blocks(n)[s + 1].exp
  {
    if n > 0 {
      BlocksShape(Clear(n));
      LowBitPow2(n);
      var below := Blocks(Clear(n));
      var all := Blocks(n);
      assert all == below + [Block(Clear(n), Zeros(n))];
      if Clear(n) > 0 {
        ClearHasMoreZeros(n);
      }
      forall s | 0 <= s < |all| - 1
        ensures all[s].lo + Pow2(all[s].exp) == all[s + 1].lo && all[s].exp > all[s + 1].exp
      {
        if s + 1 < |below| {
          assert below[s].exp > below[s + 1].exp;
        }
      }
    }
  }

  /** The stack never outgrows the `bsr(k / CHUNK + 1) + 1` slots declared for it. */
  lemma StackFits(n: nat, k: nat, chunks: nat)
    requires 0 < n <= chunks <= k / 8
    ensures |Blocks(n)| <= Bsr(k / 8 + 1) + 1
  {
    BlocksLength(n);
    PopCountBound(n);
    BsrMonotonic(n, k / 8 + 1);
  }

  // ----- the addition tree -----

  /** How one accumulator was summed: a run of `madd`s over `[lo, hi)`, or one vector
      addition of an earlier sum and a later one. */
  datatype Tree = Span(lo: nat, hi: nat) | Sum(earlier: Tree, later: Tree)

  function Height(t: Tree): nat {
    match t
    case Span(_, _) => 0
    case Sum(l, r) => 1 + if Height(l) > Height(r) then Height(l) else Height(r)
  }

  /** The tree of a block of `2^b` chunks of width `w`: perfectly balanced. */
  function Perfect(lo: nat, b: nat, w: nat): Tree
    decreases b
  {
    if b == 0 then Span(lo * w, (lo + 1) * w)
    else Sum(Perfect(lo, b - 1, w), Perfect(lo + Pow2(b - 1), b - 1, w))
  }

  /** Popping every block of the stack of `n` chunks onto the sum `top`, top block first. */
  function Drain(n: nat, w: nat, top: Tree): Tree
    decreases n
  {
    if n == 0 then top
    else Drain(Clear(n), w, Sum(Perfect(Clear(n), Zeros(n), w), top))
  }

  lemma {:induction false} PerfectHeight(lo: nat, b: nat, w: nat)
    ensures Height(Perfect(lo, b, w)) == b
    decreases b
  {
    if b > 0 {
      PerfectHeight(lo, b - 1, w);
      PerfectHeight(lo + Pow2(b - 1), b - 1, w);
    }
  }

  lemma {:induction false} ClearKeepsTopBit(n: nat)
    requires n > 0 && Clear(n) > 0
    ensures Bsr(Clear(n)) == Bsr(n)
  {
    if n % 2 == 0 {
      assert Clear(n) == 2 * Clear(n / 2);
      ClearKeepsTopBit(n / 2);
    } else if n > 2 {
      assert (n - 1) / 2 == n / 2;
    }
  }

  /** The rounding claim of the file: however many chunks are summed, no chunk passes through
      more than `bsr(n) + 1` vector additions. */
  lemma {:induction false} DrainHeight(n: nat, w: nat, top: Tree)
    requires n > 0 && Height(top) <= Zeros(n)
    ensures Height(Drain(n, w, top)) == Bsr(n) + 1
    decreases n
  {
    PerfectHeight(Clear(n), Zeros(n), w);
    var next := Sum(Perfect(Clear(n), Zeros(n), w), top);
    assert Height(next) == Zeros(n) + 1;
    if Clear(n) > 0 {
      ClearHasMoreZeros(n);
      ClearKeepsTopBit(n);
      DrainHeight(Clear(n), w, next);
    } else {
      LowBitPow2(n);
      BsrPow2(Zeros(n));
    }
  }
}
