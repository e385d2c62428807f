/** The kill ring (llamafile/bestline.c:2451-2470). */
module KillRing {
  import opened ByteSeq

  datatype Entry = Null | Killed(text: Bytes)

  /** Eight slots and the index of the current one. */
  datatype Ring = Ring(i: nat, p: seq<Entry>)

  const MAX_RING: nat := 8

  predicate WellMade(r: Ring) {
    r.i < 8 && |r.p| == 8 && forall j :: 0 <= j < 8 && r.p[j].Killed? ==> r.p[j].text != []
  }

  function Push(r: Ring, text: Bytes): (s: Ring)
    requires WellMade(r)
    ensures WellMade(s)
  {
    if text == [] then r else var i := (r.i + 1) % 8; Ring(i, r.p[i := Killed(text)])
  }

  /** `(i - 1) % 8` on a 32-bit unsigned index. */
  function Previous(i: nat): (j: nat)
    requires i < 8
    ensures j == if i == 0 then 7 else i - 1
  {
    (i + 0xFFFF_FFFF) % 0x1_0000_0000 % 8
  }

  /** Back to the next slot in use, trying at most `left` of them. */
  function Turn(p: seq<Entry>, i: nat, left: nat): (j: nat)
    requires |p| == 8 && i < 8
    ensures j < 8
    decreases left
  {
    if left == 0 then i
    else if p[Previous(i)].Killed? then Previous(i)
    else Turn(p, Previous(i), left - 1)
  }

  function Rotate(r: Ring): (s: Ring)
    requires WellMade(r)
    ensures WellMade(s)
  {
    r.(i := Turn(r.p, r.i, 8))
  }

  class Slots {
    var i: nat
    var p: array<Entry>

    ghost predicate Valid()
      reads this, p
    {
      p.Length == 8 && WellMade(Contents())
    }

    ghost function Contents(): Ring
      reads this, p
    {
      Ring(i, p[..])
    }

    constructor ()
      ensures Valid() && fresh(p) && Contents() == Ring(0, [Null, Null, Null, Null, Null, Null, Null, Null])
    {
      i := 0;
      p := new Entry[8](_ => Null);
    }

    method RingPush(text: Bytes)
      requires Valid()
      modifies this, p
      ensures Valid() && p == old(p) && Contents() == Push(old(Contents()), text)
    {
      if text == [] {
        return;
      }
      i := (i + 1) % 8;
      p[i] := Killed(text);
    }

    method RingRotate()
      requires Valid()
      modifies this
      ensures Valid() && p == old(p) && Contents() == Rotate(old(Contents()))
    {
      for n := 0 to 8
        invariant p == old(p) && i < 8 && Turn(p[..], i, 8 - n) == Turn(p[..], old(i), 8)
      {
        i := (i + 0xFFFF_FFFF) % 0x1_0000_0000 % 8;
        if p[i].Killed? {
          break;
        }
      }
    }
  }

  // ----- what a push is for -----

  /** The text killed last is the current entry, in a slot of its own; one rotation shows the entry current before. */
  lemma PushShows(r: Ring, text: Bytes)
    requires WellMade(r) && text != []
    ensures var s := Push(r, text);
      && s.i < 8 && |s.p| == |r.p| == 8 && s.p[s.i] == Killed(text)
      && s.i != r.i && (forall j :: 0 <= j < 8 && j != s.i ==> s.p[j] == r.p[j])
      && (r.p[r.i].Killed? ==> Rotate(s) == Ring(r.i, s.p))
  {
    var s := Push(r, text);
    assert Previous(s.i) == r.i;
    assert Turn(s.p, s.i, 8) == if s.p[r.i].Killed? then r.i else Turn(s.p, r.i, 7);
  }

  lemma PushNothing(r: Ring)
    requires WellMade(r)
    ensures Push(r, []) == r
  {
  }

  /** The texts killed one after the other. */
  function PushAll(r: Ring, texts: seq<Bytes>): (s: Ring)
    requires WellMade(r)
    ensures WellMade(s)
  {
    if texts == [] then r else Push(PushAll(r, texts[..|texts| - 1]), texts[|texts| - 1])
  }

  /** The last eight of them are still there, the latest first, going back from the current slot. */
  lemma {:induction false} LastEight(r: Ring, texts: seq<Bytes>, d: nat)
    requires WellMade(r) && (forall t :: t in texts ==> t != []) && d < |texts| && d < 8
    ensures var s := PushAll(r, texts);
      s.i < 8 && |s.p| == 8 && s.p[Behind(s.i, d)] == Killed(texts[|texts| - 1 - d])
  {
    hide WellMade;
    var n := |texts| - 1;
    var before := PushAll(r, texts[..n]);
    assert texts[n] in texts && forall t :: t in texts[..n] ==> t in texts;
    PushShows(before, texts[n]);
    if d > 0 {
      LastEight(r, texts[..n], d - 1);
      PushMoves(before, texts[n]);
    }
  }

  lemma PushMoves(r: Ring, text: Bytes)
    requires WellMade(r) && text != []
    ensures Push(r, text).i == if r.i == 7 then 0 else r.i + 1
  {
  }

  /** The user's law: after killing some texts, rotating `d` times shows the one killed `d` before the last. */
  lemma {:induction false} RotateRecalls(r: Ring, texts: seq<Bytes>, d: nat)
    requires WellMade(r) && (forall t :: t in texts ==> t != []) && d < |texts| && d < 8
    ensures var s := PushAll(r, texts);
      && s.i < 8 && |s.p| == 8 && RotateTimes(s, d) == Ring(Behind(s.i, d), s.p)
      && s.p[Behind(s.i, d)] == Killed(texts[|texts| - 1 - d])
  {
    hide WellMade, Turn, Rotate, PushAll;
    LastEight(r, texts, d);
    var s := PushAll(r, texts);
    if d == 0 {
      RotatesNone(s);
    } else {
      RotateRecalls(r, texts, d - 1);
      RotatesOnce(s, d - 1);
      RotateIs(RotateTimes(s, d - 1));
      TurnOnce(s.p, Behind(s.i, d - 1));
      assert Previous(Behind(s.i, d - 1)) == Behind(s.i, d);
    }
  }

  lemma TurnOnce(p: seq<Entry>, i: nat)
    requires |p| == 8 && i < 8 && p[Previous(i)].Killed?
    ensures Turn(p, i, 8) == Previous(i)
  {
  }

  // ----- once round -----

  function RotateTimes(r: Ring, n: nat): (s: Ring)
    requires WellMade(r)
    ensures WellMade(s)
  {
    if n == 0 then r else Rotate(RotateTimes(r, n - 1))
  }

  /** How many of the first `n` slots are in use. */
  function InUse(p: seq<Entry>, n: nat): nat
    requires n <= |p|
  {
    if n == 0 then 0 else InUse(p, n - 1) + if p[n - 1].Killed? then 1 else 0
  }

  /** The slot `d` steps back. */
  function Behind(i: nat, d: nat): (j: nat)
    requires i < 8 && d <= 8
    ensures j < 8
  {
    if d <= i then i - d else i + 8 - d
  }

  /** How many of the `d` slots behind slot `i` are in use. */
  function UsedBehind(p: seq<Entry>, i: nat, d: nat): nat
    requires |p| == 8 && i < 8 && d <= 8
  {
    if d == 0 then 0 else UsedBehind(p, i, d - 1) + if p[Behind(i, d)].Killed? then 1 else 0
  }

  /** A turn from `d` steps behind a slot in use goes on to the next slot in use, at the latest that one. */
  lemma {:induction false} TurnGoesTo(p: seq<Entry>, i: nat, d: nat, left: nat) returns (e: nat)
    requires |p| == 8 && i < 8 && p[i].Killed? && d < 8 && d + left >= 8
    ensures d < e <= 8 && Turn(p, Behind(i, d), left) == Behind(i, e) && p[Behind(i, e)].Killed?
    ensures UsedBehind(p, i, e) == UsedBehind(p, i, d) + 1
    decreases left
  {
    assert Previous(Behind(i, d)) == Behind(i, d + 1);
    if p[Behind(i, d + 1)].Killed? {
      e := d + 1;
    } else {
      e := TurnGoesTo(p, i, d + 1, left - 1);
    }
  }

  lemma {:induction false} UsedGrows(p: seq<Entry>, i: nat, d: nat, e: nat)
    requires |p| == 8 && i < 8 && d <= e <= 8
    ensures UsedBehind(p, i, d) <= UsedBehind(p, i, e)
    decreases e
  {
    if d < e {
      UsedGrows(p, i, d, e - 1);
    }
  }

  /** Counting back from slot `i` counts the slots below it, then those at the top. */
  lemma {:induction false} UsedIs(p: seq<Entry>, i: nat, d: nat)
    requires |p| == 8 && i < 8 && d <= 8
    ensures UsedBehind(p, i, d)
         == if d <= i then InUse(p, i) - InUse(p, i - d) else InUse(p, i) + InUse(p, 8) - InUse(p, i + 8 - d)
  {
    if d > 0 {
      UsedIs(p, i, d - 1);
    }
  }

  lemma UsedAll(p: seq<Entry>, i: nat)
    requires |p| == 8 && i < 8
    ensures UsedBehind(p, i, 8) == InUse(p, 8)
  {
    UsedIs(p, i, 8);
  }

  lemma RotateIs(r: Ring)
    requires WellMade(r)
    ensures Rotate(r) == Ring(Turn(r.p, r.i, 8), r.p)
  {
  }

  /** After `n` rotations the ring is at the `n`-th slot in use, counting back. */
  lemma {:induction false} RotatesTo(r: Ring, n: nat) returns (e: nat)
    requires WellMade(r) && r.i < 8 && |r.p| == 8 && r.p[r.i].Killed? && n <= InUse(r.p, 8)
    ensures e <= 8 && RotateTimes(r, n) == Ring(Behind(r.i, e), r.p) && UsedBehind(r.p, r.i, e) == n
  {
    hide WellMade, Turn, InUse, Rotate;
    if n == 0 {
      e := 0;
    } else {
      var d := RotatesTo(r, n - 1);
      UsedAll(r.p, r.i);
      RotateIs(RotateTimes(r, n - 1));
      e := TurnGoesTo(r.p, r.i, d, 8);
    }
  }

  /** Rotating as often as there are slots in use comes back to where it started; every entry shown is in use. */
  lemma OnceRound(r: Ring)
    requires WellMade(r) && r.p[r.i].Killed?
    ensures RotateTimes(r, InUse(r.p, 8)) == r
  {
    var n := InUse(r.p, 8);
    var e := RotatesTo(r, n);
    UsedAll(r.p, r.i);
    if e < 8 {
      UsedGrows(r.p, r.i, e, 7);
    }
  }

  lemma {:induction false} RotationShows(r: Ring, n: nat)
    requires WellMade(r) && r.i < 8 && |r.p| == 8 && r.p[r.i].Killed?
    ensures var s := RotateTimes(r, n); s.p == r.p && s.i < 8 && s.p[s.i].Killed?
  {
    hide WellMade, Turn, Rotate;
    if n > 0 {
      RotationShows(r, n - 1);
      var s := RotateTimes(r, n - 1);
      RotateIs(s);
      var e := TurnGoesTo(s.p, s.i, 0, 8);
    }
  }

  lemma RotatesNone(r: Ring)
    requires WellMade(r)
    ensures RotateTimes(r, 0) == r
  {
  }

  lemma RotatesOnce(r: Ring, n: nat)
    requires WellMade(r)
    ensures RotateTimes(r, n + 1) == Rotate(RotateTimes(r, n))
  {
  }
}
