/** Intrusive circular doubly linked lists on the heap (llamafile/dll3.c, llamafile/dll3.h). */
module Dll3 {

  class Node {
    var next: Node
    var prev: Node
    var container: int

    /** `dll3_init`. */
    constructor (c: int)
      ensures next == this && prev == this && container == c && Ring([this])
    {
      next, prev, container := this, this, c;
    }
  }

  predicate Distinct(r: seq<Node>) {
    forall i, j :: 0 <= i < j < |r| ==> r[i] != r[j]
  }

  /** `next` leads from each node to the one behind it, and `prev` back. */
  ghost predicate Chained(r: seq<Node>)
    reads r
  {
    forall i, j :: 0 <= i < |r| && 0 <= j < |r| && j == i + 1 ==> r[i].next == r[j] && r[j].prev == r[i]
  }

  /** The nodes of `r`, in this order, form one circle. */
  ghost predicate Ring(r: seq<Node>)
    reads r
  {
    r != [] && Distinct(r) && Chained(r) && r[|r| - 1].next == r[0] && r[0].prev == r[|r| - 1]
  }

  /** A list is a pointer to its last node, or null; `s` are its nodes from first to last. */
  ghost predicate IsList(list: Node?, s: seq<Node>)
    reads s
  {
    if s == [] then list == null else list == s[|s| - 1] && Ring(s)
  }

  // ----- reading a list -----

  function First(list: Node?): Node?
    reads list
  {
    if list == null then null else list.next
  }

  function Next(list: Node?, e: Node): Node?
    reads e
  {
    if e != list then e.next else null
  }

  function Prev(list: Node, e: Node): Node?
    reads list, e
  {
    if e != list.next then e.prev else null
  }

  /** The accessors walk the list from first to last, and back. */
  lemma Walk(list: Node, s: seq<Node>, i: nat)
    requires IsList(list, s) && i < |s|
    ensures First(list) == s[0]
    ensures Next(list, s[i]) == if i + 1 < |s| then s[i + 1] else null
    ensures Prev(list, s[i]) == if i > 0 then s[i - 1] else null
  {
  }

  /** In a ring the two pointers undo each other and stay inside. */
  lemma Inverse(r: seq<Node>, i: nat)
    requires Ring(r) && i < |r|
    ensures r[i].next in r && r[i].prev in r && r[i].next.prev == r[i] && r[i].prev.next == r[i]
  {
    if i + 1 < |r| {
      assert r[i].next == r[i + 1];
    }
    if i > 0 {
      assert r[i].prev == r[i - 1];
    }
  }

  // ----- joining and cutting -----

  lemma DistinctJoin(r: seq<Node>, q: seq<Node>)
    requires Distinct(r) && Distinct(q) && forall e :: e in r ==> e !in q
    ensures Distinct(r + q)
  {
    forall i, j | 0 <= i < j < |r + q|
      ensures (r + q)[i] != (r + q)[j]
    {
      if i < |r| <= j {
        assert r[i] in r && q[j - |r|] in q;
      }
    }
  }

  lemma ChainJoin(r: seq<Node>, q: seq<Node>)
    requires r != [] && q != [] && Chained(r) && Chained(q) && r[|r| - 1].next == q[0] && q[0].prev == r[|r| - 1]
    ensures Chained(r + q)
  {
    forall i, j | 0 <= i < |r + q| && 0 <= j < |r + q| && j == i + 1
      ensures (r + q)[i].next == (r + q)[j] && (r + q)[j].prev == (r + q)[i]
    {
      if j < |r| {
        assert r[i].next == r[j];
      } else if i >= |r| {
        assert q[i - |r|].next == q[j - |r|];
      }
    }
  }

  lemma ChainPart(r: seq<Node>, a: nat, b: nat)
    requires a <= b <= |r| && Chained(r) && Distinct(r)
    ensures Chained(r[a..b]) && Distinct(r[a..b])
  {
  }

  /** A ring may be read from any of its nodes. */
  lemma Rotate(r: seq<Node>, k: nat)
    requires Ring(r) && k < |r|
    ensures Ring(r[k..] + r[..k])
  {
    ChainPart(r, k, |r|);
    ChainPart(r, 0, k);
    if k > 0 {
      assert r[k - 1].next == r[k];
      DistinctJoin(r[k..], r[..k]);
      ChainJoin(r[k..], r[..k]);
    } else {
      assert r[k..] + r[..k] == r;
    }
  }

  lemma Swap(s: seq<Node>, q: seq<Node>)
    requires Ring(s + q) && q != []
    ensures Ring(q + s)
  {
    hide Ring;
    Rotate(s + q, |s|);
    assert (s + q)[|s|..] + (s + q)[..|s|] == q + s;
  }

  /** `dll3_splice_after`: two rings become one, `succ` and what follows it coming right after `elem`. */
  method SpliceAfter(elem: Node, succ: Node, ghost r: seq<Node>, ghost q: seq<Node>)
    requires Ring(r) && Ring(q) && r[|r| - 1] == elem && q[0] == succ
    requires forall e :: e in r ==> e !in q
    modifies elem`next, succ`prev, succ.prev`next, elem.next`prev
    ensures Ring(r + q)
  {
    var tmp1, tmp2 := elem.next, succ.prev;
    elem.next := succ;
    succ.prev := elem;
    tmp2.next := tmp1;
    tmp1.prev := tmp2;
    forall i, j | 0 <= i < |r| && 0 <= j < |r| && j == i + 1
      ensures r[i].next == r[j] && r[j].prev == r[i]
    {
      assert old(r[i].next == r[j] && r[j].prev == r[i]);
      assert r[i] in r && r[j] in r && q[0] in q && q[|q| - 1] in q;
    }
    forall i, j | 0 <= i < |q| && 0 <= j < |q| && j == i + 1
      ensures q[i].next == q[j] && q[j].prev == q[i]
    {
      assert old(q[i].next == q[j] && q[j].prev == q[i]);
      assert q[i] in q && q[j] in q && r[0] in r && r[|r| - 1] in r;
    }
    DistinctJoin(r, q);
    ChainJoin(r, q);
  }

  /** `dll3_remove`: the list loses that one node, which is left alone in its own ring. */
  method Remove(list: Node, elem: Node, ghost s: seq<Node>, ghost k: nat) returns (r: Node?)
    requires IsList(list, s) && k < |s| && s[k] == elem
    modifies elem`next, elem`prev, elem.next`prev, elem.prev`next
    ensures IsList(r, s[..k] + s[k + 1..]) && Ring([elem])
  {
    r := list;
    if list == elem {
      if list.prev == list {
        r := null;
      } else {
        r := list.prev;
      }
    }
    ghost var a, b := s[..k], s[k + 1..];
    Inverse(s, k);
    elem.next.prev := elem.prev;
    elem.prev.next := elem.next;
    elem.next := elem;
    elem.prev := elem;
  }

  /** `dll3_make_first`: the ring starting at `elem` goes before the list. */
  method MakeFirst(list: Node?, elem: Node?, ghost s: seq<Node>, ghost q: seq<Node>) returns (r: Node?)
    requires IsList(list, s) && (if elem == null then q == [] else Ring(q) && q[0] == elem)
    requires forall e :: e in s ==> e !in q
    modifies s, q
    ensures IsList(r, q + s)
  {
    hide Chained, Distinct;
    assert [] + s == s && q + [] == q;
    r := list;
    if elem != null {
      if list == null {
        r := elem.prev;
      } else {
        SpliceAfter(list, elem, s, q);
        Swap(s, q);
      }
    }
  }

  /** `dll3_make_last`: the ring ending with `elem` goes behind the list. */
  method MakeLast(list: Node?, elem: Node?, ghost s: seq<Node>, ghost q: seq<Node>) returns (r: Node?)
    requires IsList(list, s) && (if elem == null then q == [] else Ring(q) && q[|q| - 1] == elem)
    requires forall e :: e in s ==> e !in q
    modifies s, q
    ensures IsList(r, s + q)
  {
    r := list;
    if elem != null {
      r := MakeFirst(list, elem.next, s, q);
      r := elem;
      if s != [] {
        Rotate(q + s, |q|);
        assert (q + s)[|q|..] + (q + s)[..|q|] == s + q;
      } else {
        assert q + s == q && s + q == q;
      }
    }
  }
}
