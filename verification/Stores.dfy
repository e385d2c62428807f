/** Logs of stores into the output matrix, and what any interleaving of them leaves behind. */
module Stores {
  import opened DotProduct
  import opened Tiling

  /** One store of `val` into cell `(i, j)`. */
  datatype Store = Store(i: nat, j: nat, val: real)

  function Addr(ldc: nat, i: nat, j: nat): nat {
    ldc * j + i
  }

  /** The output buffer after a log of stores. */
  ghost function Apply(ldc: nat, c: seq<real>, log: seq<Store>): (r: seq<real>)
    ensures |r| == |c|
  {
    if log == [] then c
    else
      var last := log[|log| - 1];
      var before := Apply(ldc, c, log[..|log| - 1]);
      var x := Addr(ldc, last.i, last.j);
      if x < |c| then before[x := last.val] else before
  }

  /** `log` stores the dot product of each of `cells` exactly once, and nothing else. */
  ghost predicate WritesOnce(o: Operands, log: seq<Store>, cells: set<(int, int)>) {
    forall s: Store :: multiset(log)[s]
      == if (s.i, s.j) in cells && s.val == o.Dot(s.i, s.j, 0, o.k) then 1 else 0
  }

  lemma {:induction false} ApplyConcat(ldc: nat, c: seq<real>, a: seq<Store>, b: seq<Store>)
    ensures Apply(ldc, c, a + b) == Apply(ldc, Apply(ldc, c, a), b)
  {
    if b == [] {
      assert a + b == a;
    } else {
      assert (a + b)[..|a + b| - 1] == a + b[..|b| - 1];
      ApplyConcat(ldc, c, a, b[..|b| - 1]);
    }
  }

  lemma ApplyOne(ldc: nat, c: seq<real>, log: seq<Store>, s: Store)
    requires Addr(ldc, s.i, s.j) < |c|
    ensures Apply(ldc, c, log + [s]) == Apply(ldc, c, log)[Addr(ldc, s.i, s.j) := s.val]
  {
    assert (log + [s])[..|log|] == log;
  }

  lemma WritesNone(o: Operands)
    ensures WritesOnce(o, [], {})
  {
  }

  lemma WritesJoin(o: Operands, a: seq<Store>, x: set<(int, int)>, b: seq<Store>, y: set<(int, int)>)
    requires WritesOnce(o, a, x) && WritesOnce(o, b, y) && x !! y
    ensures WritesOnce(o, a + b, x + y)
  {
    assert multiset(a + b) == multiset(a) + multiset(b);
  }

  lemma WritesCell(o: Operands, s: Store)
    requires s.val == o.Dot(s.i, s.j, 0, o.k)
    ensures WritesOnce(o, [s], {(s.i, s.j)})
  {
    assert multiset([s]) == multiset{s};
  }

  /** Buffer `c` is what `c0` becomes under `log`, and `log` fills `cells` once each. */
  ghost predicate Filled(o: Operands, ldc: nat, c0: seq<real>, c: seq<real>, log: seq<Store>, cells: set<(int, int)>) {
    c == Apply(ldc, c0, log) && WritesOnce(o, log, cells)
  }

  lemma FilledNone(o: Operands, ldc: nat, c: seq<real>)
    ensures Filled(o, ldc, c, c, [], {})
  {
    WritesNone(o);
  }

  lemma FilledCell(o: Operands, ldc: nat, c0: seq<real>, c: seq<real>, log: seq<Store>, cells: set<(int, int)>,
                   s: Store)
    requires Filled(o, ldc, c0, c, log, cells)
    requires Addr(ldc, s.i, s.j) < |c| && (s.i, s.j) !in cells && s.val == o.Dot(s.i, s.j, 0, o.k)
    ensures Filled(o, ldc, c0, c[Addr(ldc, s.i, s.j) := s.val], log + [s], cells + {(s.i, s.j)})
  {
    ApplyOne(ldc, c0, log, s);
    WritesCell(o, s);
    WritesJoin(o, log, cells, [s], {(s.i, s.j)});
  }

  lemma FilledJoin(o: Operands, ldc: nat, c0: seq<real>, c1: seq<real>, c2: seq<real>,
                   a: seq<Store>, x: set<(int, int)>, b: seq<Store>, y: set<(int, int)>)
    requires Filled(o, ldc, c0, c1, a, x) && Filled(o, ldc, c1, c2, b, y) && x !! y
    ensures Filled(o, ldc, c0, c2, a + b, x + y)
  {
    ApplyConcat(ldc, c0, a, b);
    WritesJoin(o, a, x, b, y);
  }
}
