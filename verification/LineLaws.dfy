/** What the editing commands choose and undo: words, gaps, brackets and items (llamafile/bestline.c:2810-3333). */
module LineLaws {
  import opened LineText
  import opened Mirror
  import opened LineEdits

  // ----- runs -----

  /** `Forwards` ends at the first character that is not of the kind. */
  lemma {:induction false} SkipRightIs(chars: seq<int>, m: nat, p: Class)
    requires m <= |chars|
    ensures var r := SkipRight(chars, m, p);
      && (forall k :: m <= k < r ==> p(chars[k])) && (r < |chars| ==> !p(chars[r]))
    decreases |chars| - m
  {
    if m < |chars| && p(chars[m]) {
      SkipRightIs(chars, m + 1, p);
    }
  }

  /** So does `Backwards`. */
  lemma {:induction false} SkipLeftIs(chars: seq<int>, m: nat, p: Class)
    requires m <= |chars|
    ensures var r := SkipLeft(chars, m, p);
      && (forall k :: r <= k < m ==> p(chars[k])) && (r > 0 ==> !p(chars[r - 1]))
  {
    if m > 0 && p(chars[m - 1]) {
      SkipLeftIs(chars, m - 1, p);
    }
  }

  lemma {:induction false} SkipRightTo(chars: seq<int>, m: nat, r: nat, p: Class)
    requires m <= r <= |chars| && (forall k :: m <= k < r ==> p(chars[k])) && (r < |chars| ==> !p(chars[r]))
    ensures SkipRight(chars, m, p) == r
    decreases r - m
  {
    if m < r {
      SkipRightTo(chars, m + 1, r, p);
    }
  }

  lemma {:induction false} SkipLeftTo(chars: seq<int>, m: nat, r: nat, p: Class)
    requires r <= m <= |chars| && (forall k :: r <= k < m ==> p(chars[k])) && (r > 0 ==> !p(chars[r - 1]))
    ensures SkipLeft(chars, m, p) == r
  {
    if r < m {
      SkipLeftTo(chars, m - 1, r, p);
    }
  }

  // ----- words and gaps -----

  /** A word from `i` to `j`, whole: no separators inside, none missing. */
  predicate WholeWord(chars: seq<int>, i: nat, j: nat, sep: Class)
    requires i <= j <= |chars|
  {
    && (forall k :: i <= k < j ==> !sep(chars[k]))
    && (j < |chars| ==> sep(chars[j])) && (i > 0 ==> sep(chars[i - 1]))
  }

  predicate AllOf(chars: seq<int>, i: nat, j: nat, p: Class)
    requires i <= j <= |chars|
  {
    forall k :: i <= k < j ==> p(chars[k])
  }

  /** Right by a word ends behind the next word: only separators in between, then the word to its end. */
  lemma WordRightEnds(chars: seq<int>, m: nat, sep: Class) returns (i: nat)
    requires m <= |chars|
    ensures var r := WordRight(chars, m, sep);
      && m <= i <= r && AllOf(chars, m, i, sep) && AllOf(chars, i, r, Not(sep))
      && (r < |chars| ==> sep(chars[r])) && (r == i ==> r == |chars|)
      && (m < i ==> WholeWord(chars, i, r, sep))
  {
    i := SkipRight(chars, m, sep);
    SkipRightIs(chars, m, sep);
    SkipRightIs(chars, i, Not(sep));
  }

  /** Left by a word ends in front of the word before. */
  lemma WordLeftEnds(chars: seq<int>, m: nat, sep: Class) returns (j: nat)
    requires m <= |chars|
    ensures var r := WordLeft(chars, m, sep);
      && r <= j <= m && AllOf(chars, j, m, sep) && AllOf(chars, r, j, Not(sep))
      && (r > 0 ==> sep(chars[r - 1])) && (r == j ==> r == 0)
      && (j < m ==> WholeWord(chars, r, j, sep))
  {
    j := SkipLeft(chars, m, sep);
    SkipLeftIs(chars, m, sep);
    SkipLeftIs(chars, j, Not(sep));
  }

  /** Squeezing takes out the whole gap around the cursor, and nothing but separators. */
  lemma SqueezeTakesGap(l: Line, sep: Class) returns (i: nat, j: nat)
    requires l.k <= |l.chars|
    ensures i <= l.k <= j <= |l.chars| && AllOf(l.chars, i, j, sep) && Squeezed(l, sep) == Without(l.chars, i, j)
    ensures (i > 0 ==> !sep(l.chars[i - 1])) && (j < |l.chars| ==> !sep(l.chars[j]))
  {
    i, j := SkipLeft(l.chars, l.k, sep), SkipRight(l.chars, l.k, sep);
    SkipLeftIs(l.chars, l.k, sep);
    SkipRightIs(l.chars, l.k, sep);
  }

  /** Taking out what was just inserted gives back the line and the cursor. */
  lemma RemoveUndoesInsert(l: Line, t: seq<int>)
    requires l.k <= |l.chars|
    ensures var m := Inserted(l, t); m.k <= |m.chars| && Without(m.chars, l.k, m.k) == l
  {
    var m := Inserted(l, t);
    assert m.chars[..l.k] == l.chars[..l.k] && m.chars[m.k..] == l.chars[l.k..];
    assert l.chars[..l.k] + l.chars[l.k..] == l.chars;
  }

  /** Transposing exchanges just the two characters around the cursor, or the last two at the end. */
  lemma TransposesTwo(l: Line, i: nat)
    requires l.k <= |l.chars| && l.chars != [] && i < |l.chars|
    ensures var b := if l.k == |l.chars| then l.k - 1 else l.k;
      var x := Transposed(l);
      && |x.chars| == |l.chars|
      && x.chars[i]
         == (if b > 0 && i == b then l.chars[b - 1] else if b > 0 && i == b - 1 then l.chars[b] else l.chars[i])
      && x.k == if b > 0 then b + 1 else l.k
  {
  }

  // ----- no bracket opens and closes -----

  /** The two tables' characters are different, and within bounds. */
  predicate Apart(a: Table, b: Table, low: int, high: int) {
    && (forall i :: 0 <= i < |a| ==> low <= a[i].0 <= high)
    && (forall i :: 0 <= i < |b| ==> low <= b[i].0 <= high)
    && forall i, j :: 0 <= i < |a| && 0 <= j < |b| ==> a[i].0 != b[j].0
  }

  lemma ApartJoin(a: Table, b: Table, low: int, mid: int, c: Table, d: Table, next: int, high: int)
    requires Apart(a, b, low, mid) && Apart(c, d, next, high) && low <= mid < next <= high
    ensures Apart(a + c, b + d, low, high)
  {
  }

  lemma Apart0()
    ensures Apart(L0, R0, 0x28, 0x2309)
  {
  }

  lemma Apart1()
    ensures Apart(L1, R1, 0x230A, 0x2771)
  {
  }

  lemma Apart2()
    ensures Apart(L2, R2, 0x2772, 0x27ED)
  {
  }

  lemma Apart3()
    ensures Apart(L3, R3, 0x27EE, 0x298C)
  {
  }

  lemma Apart4()
    ensures Apart(L4, R4, 0x298D, 0x2990)
  {
  }

  lemma Apart5()
    ensures Apart(L5, R5, 0x2991, 0xFE5A)
  {
  }

  lemma Apart6()
    ensures Apart(L6, R6, 0xFE5B, 0xFF63)
  {
  }

  lemma TablesApart()
    ensures Apart(LEFTS, RIGHTS, 0x28, 0xFF63)
  {
    Apart0();
    Apart1();
    Apart2();
    Apart3();
    Apart4();
    Apart5();
    Apart6();
    hide Apart;
    ApartJoin(L0, R0, 0x28, 0x2309, L1, R1, 0x230A, 0x2771);
    ApartJoin(L0 + L1, R0 + R1, 0x28, 0x2771, L2, R2, 0x2772, 0x27ED);
    ApartJoin(L0 + L1 + L2, R0 + R1 + R2, 0x28, 0x27ED, L3, R3, 0x27EE, 0x298C);
    ApartJoin(L0 + L1 + L2 + L3, R0 + R1 + R2 + R3, 0x28, 0x298C, L4, R4, 0x298D, 0x2990);
    ApartJoin(L0 + L1 + L2 + L3 + L4, R0 + R1 + R2 + R3 + R4, 0x28, 0x2990, L5, R5, 0x2991, 0xFE5A);
    ApartJoin(L0 + L1 + L2 + L3 + L4 + L5, R0 + R1 + R2 + R3 + R4 + R5, 0x28, 0xFE5A, L6, R6, 0xFE5B, 0xFF63);
  }

  lemma NotBoth(c: int)
    ensures MirrorRight(c) == 0 || MirrorLeft(c) == 0
  {
    if MirrorRight(c) != 0 && MirrorLeft(c) != 0 {
      TablesApart();
      hide Lookup;
      var i := LookupFound(LEFTS, c);
      var j := LookupFound(RIGHTS, c);
    }
  }

  // ----- the enclosing bracket -----

  /** The bracket that closes what is open around `m`: brackets opened on the way are closed in turn. */
  function Enclosing(chars: seq<int>, m: nat, open: seq<int>): (f: Found)
    ensures f.At? ==> m <= f.pos < |chars| && (open != [] ==> m < f.pos)
    decreases |chars| - m
  {
    if m >= |chars| then Nothing
    else if MirrorRight(chars[m]) != 0 then Enclosing(chars, m + 1, open + [MirrorRight(chars[m])])
    else if MirrorLeft(chars[m]) != 0 then
      if open == [] then At(m)
      else if chars[m] == open[|open| - 1] then Enclosing(chars, m + 1, open[..|open| - 1])
      else Nothing
    else Enclosing(chars, m + 1, open)
  }

  /** No bracket stands, at any depth, inside another of its own kind that is outermost. */
  predicate Flat(chars: seq<int>, m: nat, open: seq<int>)
    decreases |chars| - m
  {
    if m >= |chars| then true
    else if MirrorRight(chars[m]) != 0 then
      (open == [] || MirrorRight(chars[m]) != open[0]) && Flat(chars, m + 1, open + [MirrorRight(chars[m])])
    else if MirrorLeft(chars[m]) != 0 then
      open == [] || chars[m] != open[|open| - 1] || Flat(chars, m + 1, open[..|open| - 1])
    else Flat(chars, m + 1, open)
  }

  /** The code's stack never gets deeper than one. */
  function Outermost(open: seq<int>): seq<int> {
    if open == [] then [] else [open[0]]
  }

  /** The outermost bracket's kind is open once. */
  predicate OnceOpen(open: seq<int>) {
    forall k :: 1 <= k < |open| ==> open[k] != open[0]
  }

  /** A closing bracket is never an opening one. */
  lemma ClosesOnly(c: int, r: int)
    requires MirrorRight(c) == r != 0
    ensures MirrorRight(r) == 0 && MirrorLeft(r) == c && c != r
  {
    MirrorsInvert(c);
    NotBoth(r);
    hide MirrorRight, MirrorLeft;
  }

  /** An outermost bracket of a kind that is still open once more below is taken for closed too early: with the code's
      one-deep stack at `r`, some bracket before the enclosing one is found. */
  lemma {:induction false} EarlyInside(chars: seq<int>, m: nat, open: seq<int>, r: int)
    requires Enclosing(chars, m, open).At? && |open| >= 2 && (exists k :: 1 <= k < |open| && open[k] == r)
    requires exists c :: MirrorRight(c) == r != 0
    ensures var f := OutRight(chars, m, [r]); f.At? && f.pos < Enclosing(chars, m, open).pos
    decreases |chars| - m
  {
    var i :| 1 <= i < |open| && open[i] == r;
    var c := chars[m];
    if MirrorRight(c) != 0 {
      var o :| MirrorRight(o) == r != 0;
      ClosesOnly(o, r);
      assert (open + [MirrorRight(c)])[i] == r;
      EarlyInside(chars, m + 1, open + [MirrorRight(c)], r);
    } else if MirrorLeft(c) != 0 {
      if c == r {
        EarlyOutside(chars, m + 1, open[..|open| - 1]);
      } else {
        assert i < |open| - 1;
        assert open[..|open| - 1][i] == r;
        EarlyInside(chars, m + 1, open[..|open| - 1], r);
      }
    } else {
      var o :| MirrorRight(o) == r != 0;
      NoBracketIsNoCloser(c, o, r);
      EarlyInside(chars, m + 1, open, r);
    }
  }

  lemma NoBracketIsNoCloser(c: int, o: int, r: int)
    requires MirrorRight(o) == r != 0 && MirrorLeft(c) == 0
    ensures c != r
  {
    ClosesOnly(o, r);
    MirrorsInvert(o);
  }

  lemma {:induction false} EarlyOutside(chars: seq<int>, m: nat, open: seq<int>)
    requires Enclosing(chars, m, open).At? && open != []
    ensures var f := OutRight(chars, m, []); f.At? && f.pos < Enclosing(chars, m, open).pos
    decreases |chars| - m
  {
    var c := chars[m];
    if MirrorRight(c) != 0 {
      var more := open + [MirrorRight(c)];
      assert more[|open|] == MirrorRight(c);
      assert [] + [MirrorRight(c)] == [MirrorRight(c)];
      EarlyInside(chars, m + 1, more, MirrorRight(c));
    } else if MirrorLeft(c) == 0 {
      EarlyOutside(chars, m + 1, open);
    }
  }

  /** Where brackets nest flat, the code finds the enclosing one; where they do not, it stops short of it. */
  lemma {:induction false} FlatDecides(chars: seq<int>, m: nat, open: seq<int>)
    requires Enclosing(chars, m, open).At? && OnceOpen(open)
    requires forall k :: 0 <= k < |open| ==> Closer(open[k])
    ensures var e, f := Enclosing(chars, m, open), OutRight(chars, m, Outermost(open));
      && f.At? && f.pos <= e.pos && (f == e <==> Flat(chars, m, open))
    decreases |chars| - m
  {
    var c := chars[m];
    if MirrorRight(c) != 0 {
      var more := open + [MirrorRight(c)];
      if open != [] {
        CloserIsNoOpener(open[0], c);
        assert more[|open|] == MirrorRight(c) && Closer(more[0]);
        if MirrorRight(c) == open[0] {
          EarlyInside(chars, m + 1, more, open[0]);
        } else {
          FlatDecides(chars, m + 1, more);
        }
      } else {
        assert [] + [MirrorRight(c)] == [MirrorRight(c)];
        FlatDecides(chars, m + 1, more);
      }
    } else if MirrorLeft(c) != 0 {
      if open != [] {
        FlatDecides(chars, m + 1, open[..|open| - 1]);
      }
    } else {
      if open != [] {
        CloserHasMirror(open[0]);
      }
      FlatDecides(chars, m + 1, open);
    }
  }

  ghost predicate Closer(r: int) {
    exists c :: MirrorRight(c) == r != 0
  }

  lemma CloserIsNoOpener(r: int, c: int)
    requires Closer(r) && MirrorRight(c) != 0
    ensures c != r
  {
    var o :| MirrorRight(o) == r != 0;
    ClosesOnly(o, r);
  }

  lemma CloserHasMirror(r: int)
    requires Closer(r)
    ensures MirrorLeft(r) != 0
  {
    var o :| MirrorRight(o) == r != 0;
    ClosesOnly(o, r);
    MirrorsInvert(o);
  }

  /** Exactly when slurp and barf work on the expression around the cursor: they take its closing bracket if and only
      if, up to there, no bracket stands inside an outermost one of the same kind. Otherwise they take one before it. */
  lemma TakesEnclosing(l: Line)
    requires l.k <= |l.chars| && Enclosing(l.chars, l.k, []).At?
    ensures OutRight(l.chars, l.k, []) == Enclosing(l.chars, l.k, []) <==> Flat(l.chars, l.k, [])
  {
    FlatDecides(l.chars, l.k, []);
  }

  /** Two nested brackets: in "(a((b)))", with the cursor on "a", the last bracket encloses it, and the code takes the
      one before. */
  lemma NestedIsLost()
    ensures var l := Line([40, 97, 40, 40, 98, 41, 41, 41], 1);
      Enclosing(l.chars, l.k, []) == At(7) && OutRight(l.chars, l.k, []) == At(6)
  {
    Parens();
    hide MirrorRight, MirrorLeft;
    var s := [40, 97, 40, 40, 98, 41, 41, 41];
    assert [] + [41] == [41] && [41] + [41] == [41, 41] && [41, 41][..1] == [41] && [41][..0] == [];
    assert Enclosing(s, 7, []) == At(7);
    assert Enclosing(s, 6, [41]) == At(7);
    assert Enclosing(s, 5, [41, 41]) == At(7);
    assert Enclosing(s, 4, [41, 41]) == At(7);
    assert Enclosing(s, 3, [41]) == At(7);
    assert Enclosing(s, 2, []) == At(7);
    assert OutRight(s, 6, []) == At(6);
    assert OutRight(s, 5, [41]) == At(6);
    assert OutRight(s, 4, [41]) == At(6);
    assert OutRight(s, 3, [41]) == At(6);
    assert OutRight(s, 2, []) == At(6);
  }

  lemma Parens()
    ensures MirrorRight(40) == 41 && MirrorLeft(40) == 0 && MirrorLeft(41) == 40 && MirrorRight(41) == 0
    ensures MirrorRight(97) == MirrorLeft(97) == MirrorRight(98) == MirrorLeft(98) == 0
  {
    TablesAreSorted();
    TablesApart();
    assert LEFTS[0] == (40, 41) && RIGHTS[0] == (41, 40);
    LookupFinds(LEFTS, 0);
    LookupFinds(RIGHTS, 0);
    NotBoth(40);
    NotBoth(41);
    assert LEFTS[1].0 == 0x5B && LEFTS[2].0 == 0x7B && RIGHTS[1].0 == 0x5D && RIGHTS[2].0 == 0x7D;
    LookupMisses(LEFTS, 97);
    LookupMisses(RIGHTS, 97);
    LookupMisses(LEFTS, 98);
    LookupMisses(RIGHTS, 98);
  }

  // ----- barfing undoes slurping -----

  predicate NoBracket(c: int) {
    MirrorLeft(c) == 0 && MirrorRight(c) == 0
  }

  /** Characters that belong to an item: no brackets and no separators. */
  predicate Word(chars: seq<int>, i: nat, j: nat, sep: Class)
    requires i <= j <= |chars|
  {
    forall k :: i <= k < j ==> NoBracket(chars[k]) && !sep(chars[k])
  }

  /** Separators that are no brackets. */
  predicate Blank(chars: seq<int>, i: nat, j: nat, sep: Class)
    requires i <= j <= |chars|
  {
    forall k :: i <= k < j ==> Outer(sep)(chars[k])
  }

  lemma {:induction false} ItemRightTo(chars: seq<int>, m: nat, q: nat, sep: Class)
    requires m <= q <= |chars| && Word(chars, m, q, sep)
    requires q < |chars| ==> sep(chars[q]) && MirrorRight(chars[q]) == 0
    ensures ItemRight(chars, m, [], sep) == q
    decreases q - m
  {
    hide MirrorLeft, MirrorRight;
    if m < q {
      ItemRightTo(chars, m + 1, q, sep);
    }
  }

  lemma {:induction false} ItemLeftTo(chars: seq<int>, m: nat, q: nat, sep: Class)
    requires 0 < q <= m <= |chars| && Word(chars, q, m, sep) && sep(chars[q - 1]) && NoBracket(chars[q - 1])
    ensures ItemLeft(chars, m, [], sep) == At(q)
  {
    hide MirrorLeft, MirrorRight;
    if q < m {
      ItemLeftTo(chars, m - 1, q, sep);
    }
  }

  /** The way to the closing bracket looks at the characters up to it. */
  lemma {:induction false} OutRightPrefix(a: seq<int>, b: seq<int>, m: nat, open: seq<int>, e: nat)
    requires m <= e < |a| && e <= |b| && a[..e] == b[..e] && OutRight(a, m, open) == At(e)
    ensures OutRight(b, m, open) == OutRight(b, e, [])
    decreases e - m
  {
    hide MirrorLeft, MirrorRight;
    if m < e {
      assert a[m] == a[..e][m] == b[m];
      if open != [] {
        OutRightPrefix(a, b, m + 1, if a[m] == open[|open| - 1] then open[..|open| - 1] else open, e);
      } else if MirrorRight(a[m]) != 0 {
        OutRightPrefix(a, b, m + 1, open + [MirrorRight(a[m])], e);
      } else {
        OutRightPrefix(a, b, m + 1, open, e);
      }
    }
  }

  lemma {:induction false} OutRightOver(chars: seq<int>, m: nat, q: nat)
    requires m <= q < |chars| && (forall k :: m <= k < q ==> NoBracket(chars[k]))
    requires MirrorRight(chars[q]) == 0 && MirrorLeft(chars[q]) != 0
    ensures OutRight(chars, m, []) == At(q)
    decreases q - m
  {
    hide MirrorLeft, MirrorRight;
    if m < q {
      OutRightOver(chars, m + 1, q);
    }
  }

  lemma {:induction false} FoundCloses(chars: seq<int>, m: nat, open: seq<int>, e: nat)
    requires OutRight(chars, m, open) == At(e) && forall k :: 0 <= k < |open| ==> Closer(open[k])
    ensures MirrorLeft(chars[e]) != 0 && MirrorRight(chars[e]) == 0
    decreases |chars| - m
  {
    if open != [] {
      FoundCloses(chars, m + 1, if chars[m] == open[|open| - 1] then open[..|open| - 1] else open, e);
    } else if MirrorRight(chars[m]) != 0 {
      assert Closer(MirrorRight(chars[m]));
      FoundCloses(chars, m + 1, open + [MirrorRight(chars[m])], e);
    } else if MirrorLeft(chars[m]) == 0 {
      FoundCloses(chars, m + 1, open, e);
    }
  }

  /** The bracket at `e`, blanks up to `g`, a word up to `q`: that is what slurping moves the bracket over. */
  predicate Slurpable(l: Line, sep: Class, e: nat, g: nat, q: nat)
    requires l.k <= |l.chars|
  {
    && OutRight(l.chars, l.k, []) == At(e) && e + 1 < g < q <= |l.chars|
    && Blank(l.chars, e + 1, g, sep) && Word(l.chars, g, q, sep)
    && (q < |l.chars| ==> sep(l.chars[q]) && MirrorRight(l.chars[q]) == 0)
    && (e > 0 ==> !Outer(sep)(l.chars[e - 1]))
  }

  lemma SlurpMoves(l: Line, sep: Class, e: nat, g: nat, q: nat)
    requires l.k <= |l.chars| && Slurpable(l, sep, e, g, q)
    ensures l.k <= e && Slurped(l, sep) == Line(Exchanged(l.chars, e, e + 1, e + 1, q), l.k)
  {
    hide MirrorLeft, MirrorRight;
    SkipRightTo(l.chars, e + 1, g, Outer(sep));
    ItemRightTo(l.chars, g, q, sep);
  }

  /** The characters behind `e` have moved one to the left. */
  predicate Shifted(chars: seq<int>, e: nat, q: nat, x: seq<int>)
    requires e < q <= |chars| == |x|
  {
    forall k :: e <= k < q - 1 ==> x[k] == chars[k + 1]
  }

  lemma MovedChars(chars: seq<int>, e: nat, q: nat)
    requires e + 1 <= q <= |chars|
    ensures var x := Exchanged(chars, e, e + 1, e + 1, q);
      && |x| == |chars| && x[..e] == chars[..e] && x[q - 1] == chars[e] && Shifted(chars, e, q, x)
      && Exchanged(x, e, q - 1, q - 1, q) == chars
  {
    var x := Exchanged(chars, e, e + 1, e + 1, q);
    assert x == chars[..e] + chars[e + 1..q] + [chars[e]] + chars[q..];
    assert x[..e] == chars[..e] && x[e..q - 1] == chars[e + 1..q] && x[q - 1..q] == [chars[e]] && x[q..] == chars[q..];
    assert Exchanged(x, e, q - 1, q - 1, q) == chars[..e] + [chars[e]] + chars[e + 1..q] + chars[q..];
  }

  /** The slurped line: the blanks and the word have moved one to the left, the bracket is behind them. */
  lemma SlurpedParts(chars: seq<int>, sep: Class, e: nat, g: nat, q: nat, x: seq<int>)
    requires e + 1 < g < q <= |chars| == |x| && Blank(chars, e + 1, g, sep) && Word(chars, g, q, sep)
    requires e > 0 ==> !Outer(sep)(chars[e - 1])
    requires x[..e] == chars[..e] && Shifted(chars, e, q, x)
    ensures Blank(x, e, g - 1, sep) && Word(x, g - 1, q - 1, sep) && (e > 0 ==> !Outer(sep)(x[e - 1]))
  {
    hide MirrorLeft, MirrorRight;
    assert e > 0 ==> x[e - 1] == x[..e][e - 1] == chars[..e][e - 1];
    forall k | e <= k < g - 1
      ensures Outer(sep)(x[k])
    {
      assert x[k] == chars[k + 1];
    }
    forall k | g - 1 <= k < q - 1
      ensures NoBracket(x[k]) && !sep(x[k])
    {
      assert x[k] == chars[k + 1];
    }
  }

  lemma BlankAndWord(x: seq<int>, e: nat, m: nat, q: nat, sep: Class)
    requires e < m < q <= |x| && Blank(x, e, m, sep) && Word(x, m, q, sep)
    ensures forall k :: e <= k < q ==> NoBracket(x[k])
    ensures sep(x[m - 1]) && NoBracket(x[m - 1]) && !Outer(sep)(x[q - 1])
    ensures forall k :: e <= k < m ==> Outer(sep)(x[k])
  {
    hide MirrorLeft, MirrorRight;
    assert Outer(sep)(x[m - 1]) && !sep(x[q - 1]);
  }

  /** Barfing a line whose expression ends in blanks and a word. */
  lemma BarfMoves(x: seq<int>, k: nat, sep: Class, e: nat, m: nat, q: nat)
    requires k <= e < m < q < |x| && Blank(x, e, m, sep) && Word(x, m, q, sep) && OutRight(x, k, []) == At(q)
    requires e > 0 ==> !Outer(sep)(x[e - 1])
    ensures Barfed(Line(x, k), sep) == Line(Exchanged(x, e, q, q, q + 1), k)
  {
    hide *;
    BlankAndWord(x, e, m, q, sep);
    SkipLeftTo(x, q, q, Outer(sep));
    ItemLeftTo(x, q, m, sep);
    SkipLeftTo(x, m, e, Outer(sep));
    BarfedIs(Line(x, k), sep, q, m, e);
  }

  lemma ClosesBehind(chars: seq<int>, x: seq<int>, k: nat, sep: Class, e: nat, m: nat, q: nat)
    requires k <= |chars| && OutRight(chars, k, []) == At(e) && e < m < q < |x| == |chars| && x[..e] == chars[..e]
    requires x[q] == chars[e] && Blank(x, e, m, sep) && Word(x, m, q, sep)
    ensures k <= e && OutRight(x, k, []) == At(q)
  {
    hide *;
    FoundCloses(chars, k, [], e);
    BlankAndWord(x, e, m, q, sep);
    OutRightPrefix(chars, x, k, [], e);
    OutRightOver(x, e, q);
  }

  lemma SlurpableMeans(l: Line, sep: Class, e: nat, g: nat, q: nat)
    requires l.k <= |l.chars| && Slurpable(l, sep, e, g, q)
    ensures OutRight(l.chars, l.k, []) == At(e) && e + 1 < g < q <= |l.chars|
    ensures Blank(l.chars, e + 1, g, sep) && Word(l.chars, g, q, sep) && (e > 0 ==> !Outer(sep)(l.chars[e - 1]))
  {
    hide OutRight, Blank, Word, Outer;
  }

  /** Slurping a word and barfing at once gives back the line and the cursor. */
  lemma BarfUndoesSlurp(l: Line, sep: Class, e: nat, g: nat, q: nat)
    requires l.k <= |l.chars| && Slurpable(l, sep, e, g, q)
    ensures Slurped(l, sep).k <= |Slurped(l, sep).chars| && Barfed(Slurped(l, sep), sep) == l
  {
    hide *;
    SlurpableMeans(l, sep, e, g, q);
    SlurpMoves(l, sep, e, g, q);
    var x := Exchanged(l.chars, e, e + 1, e + 1, q);
    MovedChars(l.chars, e, q);
    SlurpedParts(l.chars, sep, e, g, q, x);
    ClosesBehind(l.chars, x, l.k, sep, e, g - 1, q - 1);
    BarfMoves(x, l.k, sep, e, g - 1, q - 1);
  }

  lemma BarfedIs(l: Line, sep: Class, e: nat, m: nat, p: nat)
    requires l.k <= |l.chars| && OutRight(l.chars, l.k, []) == At(e) && m <= |l.chars|
    requires SkipLeft(l.chars, e, Outer(sep)) == e && ItemLeft(l.chars, e, [], sep) == At(m)
    requires SkipLeft(l.chars, m, Outer(sep)) == p && p <= e && l.k <= p
    ensures Barfed(l, sep) == Line(Exchanged(l.chars, p, e, e, e + 1), l.k)
  {
  }
}
