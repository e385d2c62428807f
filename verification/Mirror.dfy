/** Matching brackets on a line (llamafile/bestline.c:1331-1376, 2500-2553). */
module Mirror {
  import opened ByteSeq
  import opened Utf8
  import opened LineText

  // ----- the bracket tables -----

  type Table = seq<(int, int)>

  /** Opening brackets with their closing ones, and closing ones with their opening ones, in seven pieces each. In
      the fifth the mirror images cross over. */
  const L0: Table := [(0x28, 0x29), (0x5B, 0x5D), (0x7B, 0x7D), (0x2045, 0x2046), (0x207D, 0x207E), (0x208D, 0x208E),
                      (0x2308, 0x2309)]
  const L1: Table := [(0x230A, 0x230B), (0x2329, 0x232A), (0x2768, 0x2769), (0x276A, 0x276B), (0x276C, 0x276D),
                      (0x276E, 0x276F), (0x2770, 0x2771)]
  const L2: Table := [(0x2772, 0x2773), (0x2774, 0x2775), (0x27C5, 0x27C6), (0x27E6, 0x27E7), (0x27E8, 0x27E9),
                      (0x27EA, 0x27EB), (0x27EC, 0x27ED)]
  const L3: Table := [(0x27EE, 0x27EF), (0x2983, 0x2984), (0x2985, 0x2986), (0x2987, 0x2988), (0x2989, 0x298A),
                      (0x298B, 0x298C)]
  const L4: Table := [(0x298D, 0x2990), (0x298F, 0x298E)]
  const L5: Table := [(0x2991, 0x2992), (0x2993, 0x2994), (0x2997, 0x2998), (0x29D8, 0x29D9), (0x29DA, 0x29DB),
                      (0x29FC, 0x29FD), (0xFE59, 0xFE5A)]
  const L6: Table := [(0xFE5B, 0xFE5C), (0xFE5D, 0xFE5E), (0xFF08, 0xFF09), (0xFF3B, 0xFF3D), (0xFF5B, 0xFF5D),
                      (0xFF62, 0xFF63)]

  const R0: Table := [(0x29, 0x28), (0x5D, 0x5B), (0x7D, 0x7B), (0x2046, 0x2045), (0x207E, 0x207D), (0x208E, 0x208D),
                      (0x2309, 0x2308)]
  const R1: Table := [(0x230B, 0x230A), (0x232A, 0x2329), (0x2769, 0x2768), (0x276B, 0x276A), (0x276D, 0x276C),
                      (0x276F, 0x276E), (0x2771, 0x2770)]
  const R2: Table := [(0x2773, 0x2772), (0x2775, 0x2774), (0x27C6, 0x27C5), (0x27E7, 0x27E6), (0x27E9, 0x27E8),
                      (0x27EB, 0x27EA), (0x27ED, 0x27EC)]
  const R3: Table := [(0x27EF, 0x27EE), (0x2984, 0x2983), (0x2986, 0x2985), (0x2988, 0x2987), (0x298A, 0x2989),
                      (0x298C, 0x298B)]
  const R4: Table := [(0x298E, 0x298F), (0x2990, 0x298D)]
  const R5: Table := [(0x2992, 0x2991), (0x2994, 0x2993), (0x2998, 0x2997), (0x29D9, 0x29D8), (0x29DB, 0x29DA),
                      (0x29FD, 0x29FC), (0xFE5A, 0xFE59)]
  const R6: Table := [(0xFE5C, 0xFE5B), (0xFE5E, 0xFE5D), (0xFF09, 0xFF08), (0xFF3D, 0xFF3B), (0xFF5D, 0xFF5B),
                      (0xFF63, 0xFF62)]

  const LEFTS: Table := L0 + L1 + L2 + L3 + L4 + L5 + L6

  const RIGHTS: Table := R0 + R1 + R2 + R3 + R4 + R5 + R6

  predicate Sorted(t: Table) {
    forall i, j :: 0 <= i < j < |t| ==> t[i].0 < t[j].0
  }

  predicate Lists(t: Table, c: int, d: int) {
    exists i :: 0 <= i < |t| && t[i] == (c, d)
  }

  /** `GetMirror`: what the table pairs with `c`, or 0. */
  method GetMirror(t: Table, c: int) returns (d: int)
    requires Sorted(t) && forall i :: 0 <= i < |t| ==> t[i].1 != 0
    ensures d != 0 ==> Lists(t, c, d)
    ensures d == 0 ==> forall i :: 0 <= i < |t| ==> t[i].0 != c
  {
    var l, r := 0, |t| - 1;
    while l <= r
      invariant 0 <= l <= r + 1 <= |t|
      invariant forall i :: 0 <= i < |t| && t[i].0 == c ==> l <= i <= r
    {
      var m := (l + r) / 2;
      if t[m].0 < c {
        l := m + 1;
      } else if t[m].0 > c {
        r := m - 1;
      } else {
        assert t[m] == (c, t[m].1);
        return t[m].1;
      }
    }
    return 0;
  }

  /** The same by looking through the table. */
  function Lookup(t: Table, c: int): int {
    if t == [] then 0 else if t[0].0 == c then t[0].1 else Lookup(t[1..], c)
  }

  function MirrorRight(c: int): int { Lookup(LEFTS, c) }

  function MirrorLeft(c: int): int { Lookup(RIGHTS, c) }

  lemma {:induction false} LookupFinds(t: Table, i: nat)
    requires Sorted(t) && i < |t|
    ensures Lookup(t, t[i].0) == t[i].1
  {
    if i > 0 {
      LookupFinds(t[1..], i - 1);
    }
  }

  lemma {:induction false} LookupFound(t: Table, c: int) returns (i: nat)
    requires Lookup(t, c) != 0
    ensures i < |t| && t[i] == (c, Lookup(t, c))
  {
    if t[0].0 == c {
      i := 0;
    } else {
      var j := LookupFound(t[1..], c);
      i := j + 1;
    }
  }

  lemma {:induction false} LookupMisses(t: Table, c: int)
    requires forall i :: 0 <= i < |t| ==> t[i].0 != c
    ensures Lookup(t, c) == 0
  {
    if t != [] {
      LookupMisses(t[1..], c);
    }
  }

  /** Each pair of one table stands the other way round in the other, and no bracket is NUL. */
  predicate Mirrored(a: Table, b: Table) {
    && (forall p :: p in a ==> (p.1, p.0) in b && p.0 != 0 && p.1 != 0 && p.0 != p.1)
    && (forall p :: p in b ==> (p.1, p.0) in a)
  }

  lemma SortedJoin(a: Table, b: Table)
    requires Sorted(a) && Sorted(b) && a != [] && b != [] && a[|a| - 1].0 < b[0].0
    ensures Sorted(a + b) && (a + b)[|a + b| - 1] == b[|b| - 1]
  {
  }

  lemma MirroredJoin(a: Table, b: Table, c: Table, d: Table)
    requires Mirrored(a, b) && Mirrored(c, d)
    ensures Mirrored(a + c, b + d)
  {
  }

  predicate Swapped(a: Table, b: Table) {
    && |a| == |b|
    && forall i :: 0 <= i < |a| ==> b[i] == (a[i].1, a[i].0) && a[i].0 != 0 && a[i].1 != 0 && a[i].0 != a[i].1
  }

  lemma SwappedIsMirrored(a: Table, b: Table)
    requires Swapped(a, b)
    ensures Mirrored(a, b)
  {
    forall p | p in a
      ensures (p.1, p.0) in b && p.0 != 0 && p.1 != 0 && p.0 != p.1
    {
      var i :| 0 <= i < |a| && a[i] == p;
      assert b[i] == (p.1, p.0);
    }
    forall p | p in b
      ensures (p.1, p.0) in a
    {
      var i :| 0 <= i < |b| && b[i] == p;
      assert a[i] == (p.1, p.0);
    }
  }

  lemma Sorted0()
    ensures Sorted(L0) && Sorted(R0)
  {
  }

  lemma Swapped0()
    ensures Swapped(L0, R0)
  {
  }

  lemma Sorted1()
    ensures Sorted(L1) && Sorted(R1)
  {
  }

  lemma Swapped1()
    ensures Swapped(L1, R1)
  {
  }

  lemma Sorted2()
    ensures Sorted(L2) && Sorted(R2)
  {
  }

  lemma Swapped2()
    ensures Swapped(L2, R2)
  {
  }

  lemma Sorted3()
    ensures Sorted(L3) && Sorted(R3)
  {
  }

  lemma Swapped3()
    ensures Swapped(L3, R3)
  {
  }

  lemma Sorted4()
    ensures Sorted(L4) && Sorted(R4)
  {
  }

  lemma Sorted5()
    ensures Sorted(L5) && Sorted(R5)
  {
  }

  lemma Swapped5()
    ensures Swapped(L5, R5)
  {
  }

  lemma Sorted6()
    ensures Sorted(L6) && Sorted(R6)
  {
  }

  lemma Swapped6()
    ensures Swapped(L6, R6)
  {
  }

  lemma CrossedOver()
    ensures Mirrored(L4, R4)
  {
    assert L4[0] in L4 && L4[1] in L4 && R4[0] in R4 && R4[1] in R4;
  }

  lemma TablesAreSorted()
    ensures Sorted(LEFTS) && Sorted(RIGHTS)
  {
    Sorted0();
    Sorted1();
    Sorted2();
    Sorted3();
    Sorted4();
    Sorted5();
    Sorted6();
    hide Sorted, Mirrored;
    SortedJoin(L0, L1);
    SortedJoin(L0 + L1, L2);
    SortedJoin(L0 + L1 + L2, L3);
    SortedJoin(L0 + L1 + L2 + L3, L4);
    SortedJoin(L0 + L1 + L2 + L3 + L4, L5);
    SortedJoin(L0 + L1 + L2 + L3 + L4 + L5, L6);
    SortedJoin(R0, R1);
    SortedJoin(R0 + R1, R2);
    SortedJoin(R0 + R1 + R2, R3);
    SortedJoin(R0 + R1 + R2 + R3, R4);
    SortedJoin(R0 + R1 + R2 + R3 + R4, R5);
    SortedJoin(R0 + R1 + R2 + R3 + R4 + R5, R6);
  }

  lemma TablesAreMirrored()
    ensures Mirrored(LEFTS, RIGHTS)
  {
    hide Mirrored, Swapped;
    Swapped0();
    SwappedIsMirrored(L0, R0);
    Swapped1();
    SwappedIsMirrored(L1, R1);
    Swapped2();
    SwappedIsMirrored(L2, R2);
    Swapped3();
    SwappedIsMirrored(L3, R3);
    CrossedOver();
    Swapped5();
    SwappedIsMirrored(L5, R5);
    Swapped6();
    SwappedIsMirrored(L6, R6);
    MirroredJoin(L0, R0, L1, R1);
    MirroredJoin(L0 + L1, R0 + R1, L2, R2);
    MirroredJoin(L0 + L1 + L2, R0 + R1 + R2, L3, R3);
    MirroredJoin(L0 + L1 + L2 + L3, R0 + R1 + R2 + R3, L4, R4);
    MirroredJoin(L0 + L1 + L2 + L3 + L4, R0 + R1 + R2 + R3 + R4, L5, R5);
    MirroredJoin(L0 + L1 + L2 + L3 + L4 + L5, R0 + R1 + R2 + R3 + R4 + R5, L6, R6);
  }

  /** The two look-ups undo each other. */
  lemma MirrorsInvert(c: int)
    ensures MirrorRight(c) != 0 ==> MirrorLeft(MirrorRight(c)) == c && c != 0 && MirrorRight(c) != c
    ensures MirrorLeft(c) != 0 ==> MirrorRight(MirrorLeft(c)) == c && c != 0 && MirrorLeft(c) != c
  {
    TablesAreSorted();
    TablesAreMirrored();
    hide Mirrored, Sorted, Lookup;
    if MirrorRight(c) != 0 {
      OneWay(LEFTS, RIGHTS, c);
    }
    if MirrorLeft(c) != 0 {
      OneWay(RIGHTS, LEFTS, c);
    }
  }

  /** What the two library functions return. */
  method MirrorRightOf(c: int) returns (d: int)
    ensures d == MirrorRight(c)
  {
    TablesAreSorted();
    TablesAreMirrored();
    d := GetMirror(LEFTS, c);
    LooksUp(LEFTS, c, d);
  }

  method MirrorLeftOf(c: int) returns (d: int)
    ensures d == MirrorLeft(c)
  {
    TablesAreSorted();
    TablesAreMirrored();
    d := GetMirror(RIGHTS, c);
    LooksUp(RIGHTS, c, d);
  }

  lemma LooksUp(t: Table, c: int, d: int)
    requires Sorted(t)
    requires d != 0 ==> Lists(t, c, d)
    requires d == 0 ==> forall i :: 0 <= i < |t| ==> t[i].0 != c
    ensures d == Lookup(t, c)
  {
    if d == 0 {
      LookupMisses(t, c);
    } else {
      var i :| 0 <= i < |t| && t[i] == (c, d);
      LookupFinds(t, i);
    }
  }

  lemma OneWay(a: Table, b: Table, c: int)
    requires Mirrored(a, b) || Mirrored(b, a)
    requires Sorted(b) && Lookup(a, c) != 0
    ensures Lookup(b, Lookup(a, c)) == c && c != 0 && Lookup(a, c) != c
  {
    var i := LookupFound(a, c);
    assert a[i] in a;
    var j :| 0 <= j < |b| && b[j] == (Lookup(a, c), c);
    LookupFinds(b, j);
  }

  // ----- matching -----

  function Weight(left: int, right: int, c: int): int {
    if c == left then 1 else if c == right then -1 else 0
  }

  /** How many more opening than closing brackets stand in `chars[a..b]`. */
  function Depth(chars: seq<int>, left: int, right: int, a: int, b: int): int
    requires 0 <= a <= b <= |chars|
    decreases b - a
  {
    if a == b then 0 else Depth(chars, left, right, a, b - 1) + Weight(left, right, chars[b - 1])
  }

  /** No more brackets close than open, in any part of `chars[a..b]` from its start. */
  ghost predicate NeverBelow(chars: seq<int>, left: int, right: int, a: int, b: int)
    requires 0 <= a <= b <= |chars|
  {
    forall m :: a <= m <= b ==> Depth(chars, left, right, a, m) >= 0
  }

  /** No more brackets open than close, in any part of it up to its end. */
  ghost predicate NeverAbove(chars: seq<int>, left: int, right: int, a: int, b: int)
    requires 0 <= a <= b <= |chars|
  {
    forall m :: a <= m <= b ==> Depth(chars, left, right, m, b) <= 0
  }

  /** The text between characters `i` and `j` is balanced. */
  ghost predicate Balanced(chars: seq<int>, left: int, right: int, i: int, j: int)
    requires 0 <= i < j <= |chars|
  {
    Depth(chars, left, right, i + 1, j) == 0 && NeverBelow(chars, left, right, i + 1, j)
  }

  /** Characters `i` and `j` are a pair of brackets with balanced text between them. */
  ghost predicate Pair(chars: seq<int>, i: int, j: int) {
    && 0 <= i < j < |chars|
    && MirrorRight(chars[i]) != 0 && chars[j] == MirrorRight(chars[i])
    && Balanced(chars, chars[i], chars[j], i, j)
  }

  datatype Found = Nothing | At(pos: nat)

  /** The scan to the right, from character `m` with `depth` brackets open. */
  function ScanRight(chars: seq<int>, left: int, right: int, m: nat, depth: nat): (f: Found)
    ensures f.At? ==> f.pos < |chars|
    decreases |chars| - m
  {
    if m >= |chars| then Nothing
    else if chars[m] == left then ScanRight(chars, left, right, m + 1, depth + 1)
    else if chars[m] == right then if depth > 0 then ScanRight(chars, left, right, m + 1, depth - 1) else At(m)
    else ScanRight(chars, left, right, m + 1, depth)
  }

  /** The scan to the left, over the characters before `m`. */
  function ScanLeft(chars: seq<int>, left: int, right: int, m: nat, depth: nat): (f: Found)
    requires m <= |chars|
    ensures f.At? ==> f.pos < m
  {
    if m == 0 then Nothing
    else if chars[m - 1] == right then ScanLeft(chars, left, right, m - 1, depth + 1)
    else if chars[m - 1] == left then if depth > 0 then ScanLeft(chars, left, right, m - 1, depth - 1) else At(m - 1)
    else ScanLeft(chars, left, right, m - 1, depth)
  }

  /** What the cursor's right neighbour closes with. */
  function RightMatch(chars: seq<int>, k: nat): (f: Found)
    ensures f.At? ==> k < f.pos < |chars|
  {
    if k >= |chars| || MirrorRight(chars[k]) == 0 then Nothing
    else
      ScanRightAfter(chars, chars[k], MirrorRight(chars[k]), k + 1, 0);
      ScanRight(chars, chars[k], MirrorRight(chars[k]), k + 1, 0)
  }

  lemma {:induction false} ScanRightAfter(chars: seq<int>, left: int, right: int, m: nat, depth: nat)
    ensures var f := ScanRight(chars, left, right, m, depth); f.At? ==> m <= f.pos
    decreases |chars| - m
  {
    if m < |chars| {
      if chars[m] == left {
        ScanRightAfter(chars, left, right, m + 1, depth + 1);
      } else if chars[m] == right {
        if depth > 0 {
          ScanRightAfter(chars, left, right, m + 1, depth - 1);
        }
      } else {
        ScanRightAfter(chars, left, right, m + 1, depth);
      }
    }
  }

  /** What the cursor's left neighbour opens with. The code gives up when that is the first character. */
  function LeftMatch(chars: seq<int>, k: nat): (f: Found)
    requires k <= |chars|
    ensures f.At? ==> f.pos + 1 < k
  {
    if k < 2 || MirrorLeft(chars[k - 1]) == 0 then Nothing
    else ScanLeft(chars, MirrorLeft(chars[k - 1]), chars[k - 1], k - 1, 0)
  }

  lemma {:induction false} DepthAdds(chars: seq<int>, left: int, right: int, a: int, m: int, b: int)
    requires 0 <= a <= m <= b <= |chars|
    ensures Depth(chars, left, right, a, b) == Depth(chars, left, right, a, m) + Depth(chars, left, right, m, b)
    decreases b - m
  {
    if m < b {
      DepthAdds(chars, left, right, a, m, b - 1);
    }
  }

  lemma BalancedBackwards(chars: seq<int>, left: int, right: int, a: int, b: int)
    requires 0 <= a <= b <= |chars| && Depth(chars, left, right, a, b) == 0
    ensures NeverBelow(chars, left, right, a, b) <==> NeverAbove(chars, left, right, a, b)
  {
    if NeverBelow(chars, left, right, a, b) {
      forall m | a <= m <= b
        ensures Depth(chars, left, right, m, b) <= 0
      {
        assert Depth(chars, left, right, a, m) >= 0;
        DepthAdds(chars, left, right, a, m, b);
      }
    }
    if NeverAbove(chars, left, right, a, b) {
      forall m | a <= m <= b
        ensures Depth(chars, left, right, a, m) >= 0
      {
        assert Depth(chars, left, right, m, b) <= 0;
        DepthAdds(chars, left, right, a, m, b);
      }
    }
  }

  /** The right scan finds a closing bracket with balanced text before it, and there is no other. */
  lemma {:induction false} ScanRightFinds(chars: seq<int>, left: int, right: int, i: nat, m: nat, depth: nat)
    requires left != right && i < m <= |chars| && depth == Depth(chars, left, right, i + 1, m)
    requires NeverBelow(chars, left, right, i + 1, m)
    ensures var f := ScanRight(chars, left, right, m, depth);
      forall j :: m <= j < |chars| ==> (f == At(j) <==> chars[j] == right && Balanced(chars, left, right, i, j))
    decreases |chars| - m
  {
    if m < |chars| {
      var next := depth + Weight(left, right, chars[m]);
      assert Depth(chars, left, right, i + 1, m + 1) == next;
      if next < 0 {
        forall j | m < j < |chars|
          ensures !Balanced(chars, left, right, i, j)
        {
          assert !NeverBelow(chars, left, right, i + 1, j);
        }
      } else {
        ScanRightAfter(chars, left, right, m + 1, next);
        ScanRightFinds(chars, left, right, i, m + 1, next);
        assert chars[m] == right ==> depth > 0;
      }
    }
  }

  lemma DepthFirst(chars: seq<int>, left: int, right: int, a: int, b: int)
    requires 0 <= a < b <= |chars|
    ensures Depth(chars, left, right, a, b) == Weight(left, right, chars[a]) + Depth(chars, left, right, a + 1, b)
  {
    DepthAdds(chars, left, right, a, a + 1, b);
    assert Depth(chars, left, right, a, a + 1) == Depth(chars, left, right, a, a) + Weight(left, right, chars[a]);
  }

  /** The left scan finds an opening bracket with balanced text behind it, and there is no other. */
  lemma {:induction false} ScanLeftFinds(chars: seq<int>, left: int, right: int, j: nat, m: nat, depth: nat)
    requires left != right && m <= j <= |chars| && depth == 0 - Depth(chars, left, right, m, j)
    requires NeverAbove(chars, left, right, m, j)
    ensures var f := ScanLeft(chars, left, right, m, depth);
      forall i :: 0 <= i < m ==> (f == At(i) <==> chars[i] == left && Balanced(chars, left, right, i, j))
  {
    if m > 0 {
      var next := depth - Weight(left, right, chars[m - 1]);
      DepthFirst(chars, left, right, m - 1, j);
      if next < 0 {
        BalancedBackwards(chars, left, right, m, j);
        assert Depth(chars, left, right, m - 1, j) > 0;
        forall i | 0 <= i < m - 1
          ensures !Balanced(chars, left, right, i, j)
        {
          if Balanced(chars, left, right, i, j) {
            BalancedBackwards(chars, left, right, i + 1, j);
          }
        }
      } else {
        ScanLeftFinds(chars, left, right, j, m - 1, next);
        if depth > 0 {
          assert Depth(chars, left, right, m, j) != 0;
        }
      }
    }
  }

  /** The right scan at a bracket finds its partner, and nothing when it has none. */
  lemma RightMatchIsPair(chars: seq<int>, i: nat, j: nat)
    ensures RightMatch(chars, i) == At(j) <==> Pair(chars, i, j)
  {
    hide Depth, ScanRight, MirrorRight;
    if i < |chars| && MirrorRight(chars[i]) != 0 {
      MirrorsInvert(chars[i]);
      EmptyDepth(chars, chars[i], MirrorRight(chars[i]), i + 1);
      ScanRightFinds(chars, chars[i], MirrorRight(chars[i]), i, i + 1, 0);
      ScanRightAfter(chars, chars[i], MirrorRight(chars[i]), i + 1, 0);
    }
  }

  lemma EmptyDepth(chars: seq<int>, left: int, right: int, a: int)
    requires 0 <= a <= |chars|
    ensures Depth(chars, left, right, a, a) == 0 && NeverBelow(chars, left, right, a, a)
      && NeverAbove(chars, left, right, a, a)
  {
  }

  /** So does the left scan behind a bracket. */
  lemma LeftMatchIsPair(chars: seq<int>, i: nat, j: nat)
    requires j < |chars|
    ensures LeftMatch(chars, j + 1) == At(i) <==> Pair(chars, i, j)
  {
    hide Depth, ScanLeft, MirrorRight, MirrorLeft;
    MirrorsInvert(chars[j]);
    if i < |chars| {
      MirrorsInvert(chars[i]);
    }
    if j >= 1 && MirrorLeft(chars[j]) != 0 {
      EmptyDepth(chars, MirrorLeft(chars[j]), chars[j], j);
      ScanLeftFinds(chars, MirrorLeft(chars[j]), chars[j], j, j, 0);
    }
  }

  /** The two scans agree: going right from a bracket finds `j` if and only if going left from behind `j` finds the
      bracket. */
  lemma ScansAgree(chars: seq<int>, i: nat, j: nat)
    requires j < |chars|
    ensures RightMatch(chars, i) == At(j) <==> LeftMatch(chars, j + 1) == At(i)
  {
    hide *;
    RightMatchIsPair(chars, i, j);
    LeftMatchIsPair(chars, i, j);
  }

  // ----- the scans over the bytes of the line -----

  /** `bestlineEditMirrorRight`: the byte positions of the pair. The cursor is before character `k`. */
  method FindRight(buf: Bytes, pos0: nat, len: nat, ghost chars: seq<int>, ghost k: nat)
    returns (found: bool, res: (nat, nat))
    requires Text(chars) && Enc(chars) <= buf && len == |Enc(chars)| && k <= |chars| && pos0 == LineText.Off(chars, k)
    ensures found <==> RightMatch(chars, k).At?
    ensures found ==> res == (pos0, LineText.Off(chars, RightMatch(chars, k).pos))
  {
    hide Enc, Encode, GetUtf8, MirrorRight, LineText.Off;
    res := (0, 0);
    ReadsAt(buf, chars, k);
    MirrorsInvert(0);
    var pos := pos0;
    var rune := ReadRune(buf, pos, len);
    var left := rune.c;
    var right := MirrorRightOf(left);
    MirrorsInvert(left);
    if right == 0 {
      return false, res;
    }
    var depth: nat := 0;
    ghost var m := k;
    while true
      invariant k <= m < |chars| && pos == LineText.Off(chars, m) && rune == Rune(chars[m], |Encode(chars[m])|)
      invariant LineText.Off(chars, m) + rune.n == LineText.Off(chars, m + 1)
      invariant RightMatch(chars, k) == ScanRight(chars, left, right, m + 1, depth)
      decreases |chars| - m
    {
      OffNext(chars, m);
      pos := pos + rune.n;
      m := m + 1;
      ReadsAt(buf, chars, m);
      rune := ReadRune(buf, pos, len);
      if rune.c == left {
        depth := depth + 1;
      } else if rune.c == right {
        if depth != 0 {
          depth := depth - 1;
        } else {
          return true, (pos0, pos);
        }
      }
      if pos + rune.n >= len {
        break;
      }
    }
    return false, res;
  }

  /** What is read at the boundary before character `m`, the end of the line included. */
  lemma ReadsAt(buf: Bytes, chars: seq<int>, m: nat)
    requires Text(chars) && Enc(chars) <= buf && m <= |chars|
    ensures LineText.Off(chars, m) <= |Enc(chars)| <= |buf|
    ensures LineText.Off(chars, m) == |Enc(chars)| <==> m == |chars|
    ensures var r := GetUtf8(buf, LineText.Off(chars, m), |Enc(chars)|);
      if m < |chars| then r == Rune(chars[m], |Encode(chars[m])|) && r.n > 0 && chars[m] != 0
        && LineText.Off(chars, m) + r.n == LineText.Off(chars, m + 1)
        && (LineText.Off(chars, m + 1) >= |Enc(chars)| <==> m + 1 == |chars|)
      else r == Rune(0, 0) && LineText.Off(chars, m) == |Enc(chars)|
  {
    hide Enc, Encode, GetUtf8, LineText.Off;
    OffEnds(chars);
    OffOrdered(chars, m, |chars|);
    if m < |chars| {
      ReadsChar(buf, chars, m);
      OffNext(chars, m);
      EncodeShape(chars[m]);
      OffOrdered(chars, m + 1, |chars|);
    } else {
      ReadsEnd(buf, |Enc(chars)|);
    }
  }

  /** `bestlineEditMirrorLeft`. */
  method FindLeft(buf: Bytes, pos0: nat, len: nat, ghost chars: seq<int>, ghost k: nat)
    returns (found: bool, res: (nat, nat))
    requires Text(chars) && Enc(chars) <= buf && len == |Enc(chars)| && k <= |chars| && pos0 == LineText.Off(chars, k)
    ensures found <==> LeftMatch(chars, k).At?
    ensures found ==> k > 0 && res == (LineText.Off(chars, LeftMatch(chars, k).pos), LineText.Off(chars, k - 1))
  {
    hide Enc, Encode, GetUtf8, MirrorRight, MirrorLeft, LineText.Off, Backward;
    res := (0, 0);
    BackAt(buf, chars, k);
    var pos := StepBack(buf, pos0);
    if pos == 0 {
      return false, res;
    }
    ReadsAt(buf, chars, k - 1);
    var rune := ReadRune(buf, pos, len);
    var right := rune.c;
    var left := MirrorLeftOf(right);
    MirrorsInvert(right);
    if left == 0 {
      return false, res;
    }
    var depth: nat, index := 0, pos;
    ghost var m := k - 1;
    while true
      invariant 0 < m < k <= |chars| && pos == LineText.Off(chars, m)
      invariant LeftMatch(chars, k) == ScanLeft(chars, left, right, m, depth)
      decreases m
    {
      BackAt(buf, chars, m);
      pos := StepBack(buf, pos);
      m := m - 1;
      ReadsAt(buf, chars, m);
      rune := ReadRune(buf, pos, len);
      if rune.c == right {
        depth := depth + 1;
      } else if rune.c == left {
        if depth != 0 {
          depth := depth - 1;
        } else {
          return true, (pos, index);
        }
      }
      if pos == 0 {
        break;
      }
    }
    return false, res;
  }

  lemma BackAt(buf: Bytes, chars: seq<int>, m: nat)
    requires Text(chars) && Enc(chars) <= buf && m <= |chars|
    ensures LineText.Off(chars, m) <= |Enc(chars)| <= |buf|
    ensures Backward(buf, LineText.Off(chars, m)) == LineText.Off(chars, if m > 0 then m - 1 else 0)
    ensures LineText.Off(chars, if m > 0 then m - 1 else 0) == 0 <==> m <= 1
  {
    hide Enc, Encode, LineText.Off;
    OffEnds(chars);
    OffOrdered(chars, m, |chars|);
    if m > 0 {
      StepsBack(buf, chars, m - 1);
      OffOrdered(chars, 0, m - 1);
    }
  }
}
