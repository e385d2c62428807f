/** The line editor's buffer and its editing commands (llamafile/bestline.c:2238-2258, 2764-3333). */
module LineEditor {
  import opened ByteSeq
  import opened Utf8
  import opened LineText
  import opened Mirror
  import opened LineEdits
  import KillRing

  /** Bytes that are the text of some characters. */
  ghost predicate IsText(b: Bytes) {
    exists t :: Text(t) && Enc(t) == b
  }

  ghost predicate RingOfText(r: KillRing.Ring) {
    forall e :: e in r.p && e.Killed? ==> IsText(e.text)
  }

  /** The keys that kill. */
  datatype Kill = ToStart | ToEnd | NextWord | WordBefore

  /** The characters a key kills. */
  function KillRange(l: Line, key: Kill, sep: Class): (nat, nat)
    requires l.k <= |l.chars|
  {
    match key
    case ToStart => (0, l.k)
    case ToEnd => (l.k, |l.chars|)
    case NextWord => (l.k, WordRight(l.chars, l.k, sep))
    case WordBefore => (WordLeft(l.chars, l.k, sep), l.k)
  }

  lemma RangeInside(l: Line, key: Kill, sep: Class)
    requires Fits(l)
    ensures l.k <= |l.chars| && Text(l.chars)
    ensures var (a, b) := KillRange(l, key, sep); a <= b <= |l.chars| && Text(l.chars[a..b])
  {
    hide WordRight, WordLeft;
    var (a, b) := KillRange(l, key, sep);
    TextParts(l.chars, a, b);
  }

  /** What the four keys leave of the line. */
  lemma KilledLine(l: Line, key: Kill, sep: Class)
    requires Fits(l)
    ensures l.k <= |l.chars|
    ensures l.chars[0..l.k] == l.chars[..l.k] && l.chars[l.k..|l.chars|] == l.chars[l.k..]
    ensures Without(l.chars, 0, l.k) == Line(l.chars[l.k..], 0)
    ensures Without(l.chars, l.k, |l.chars|) == Line(l.chars[..l.k], l.k)
    ensures var (a, b) := KillRange(l, key, sep); a <= b <= |l.chars| && Without(l.chars, a, b).k == a
    ensures var (a, b) := KillRange(l, key, sep);
      match key
      case ToStart => a == 0 && b == l.k
      case ToEnd => a == l.k && b == |l.chars|
      case NextWord => a == l.k && b == WordRight(l.chars, l.k, sep)
      case WordBefore => a == WordLeft(l.chars, l.k, sep) && b == l.k
  {
    hide WordRight, WordLeft;
  }

  /** After the kill the ring shows it. */
  lemma KilledIsShown(r: KillRing.Ring, chars: seq<int>, a: nat, b: nat)
    requires KillRing.WellMade(r) && a < b <= |chars| && Text(chars) && Text(chars[a..b])
    ensures var s := KillRing.Push(r, Enc(chars[a..b]));
      s.i < |s.p| && s.p[s.i] == KillRing.Killed(Enc(chars[a..b]))
  {
    OffEnds(chars[a..b]);
    OffOrdered(chars[a..b], 0, b - a);
    KillRing.PushShows(r, Enc(chars[a..b]));
  }

  /** The bytes of the line with a piece cut out, and the piece put back. */
  lemma PutBack(chars: seq<int>, a: nat, b: nat, less: seq<int>, p: nat, cut: Bytes, n: nat, t: Bytes)
    requires Text(chars) && a <= b <= |chars| && Text(chars[a..b]) && t == Enc(chars[a..b])
    requires Line(less, a) == Without(chars, a, b) && Text(less) && a <= |less| && p == Off(less, a)
    requires Shows(cut, n, less)
    ensures p <= n < |cut| && cut[..p] + t + cut[p..n] == Enc(chars) && p == Off(chars, a)
  {
    Rejoined(chars, a, b);
    EncInserted(less, a, chars[a..b]);
    EncWithout(chars, a, b);
    ShowsThat(cut, n, less);
    hide *;
    CutSlices(cut, n, p);
  }

  lemma Rejoined(chars: seq<int>, a: nat, b: nat)
    requires a <= b <= |chars|
    ensures var less := Without(chars, a, b).chars; |less| >= a && less[..a] + chars[a..b] + less[a..] == chars
  {
    var less := Without(chars, a, b).chars;
    assert less[..a] == chars[..a] && less[a..] == chars[b..];
  }

  lemma CutSlices(cut: Bytes, n: nat, p: nat)
    requires p <= n <= |cut|
    ensures cut[..n][..p] == cut[..p] && cut[..n][p..] == cut[p..n]
  {
  }

  lemma SameOff(chars: seq<int>, i: nat, j: nat)
    requires Text(chars) && i <= |chars| && j <= |chars| && Off(chars, i) == Off(chars, j)
    ensures i == j
  {
    hide Off;
    if i < j {
      OffOrdered(chars, i, j);
    } else if j < i {
      OffOrdered(chars, j, i);
    }
  }

  lemma PutBackCursor(chars: seq<int>, a: nat, b: nat, buf: Bytes, i: nat, pos: nat, t: Bytes)
    requires Text(chars) && a <= b <= |chars| && Text(chars[a..b]) && t == Enc(chars[a..b])
    requires i == Off(chars, a) && i <= pos <= |buf| && buf[i..pos] == t
    ensures pos == Off(chars, b)
  {
    hide Enc, Off;
    EncSlice(chars, a, b);
    OffOrdered(chars, a, b);
  }

  class Editor {
    var buf: Bytes
    var pos: nat
    var len: nat
    var yi: nat
    var yj: nat
    const ring: KillRing.Slots
    const sep: Class
    ghost var chars: seq<int>
    ghost var k: nat
    ghost var at: nat

    /** The line is well-formed UTF-8 and NUL-terminated, with room for the NUL, and the cursor is between two
        characters. */
    ghost predicate Valid()
      reads this, ring, ring.p
    {
      && Shows(buf, len, chars) && k <= |chars| && pos == Off(chars, k) && |buf| >= 2
      && ring.Valid() && RingOfText(ring.Contents())
    }

    ghost function L(): Line
      reads this
    {
      Line(chars, k)
    }

    constructor (size: nat, r: KillRing.Slots, separators: Class)
      requires size >= 2 && r.Valid() && RingOfText(r.Contents())
      ensures Valid() && L() == Line([], 0) && ring == r && sep == separators && yi == yj == 0
    {
      buf := Zeros(size);
      pos, len, yi, yj := 0, 0, 0, 0;
      ring, sep := r, separators;
      chars, k, at := [], 0, 0;
    }

    /** `bestlineGrow`: room for `n` bytes; what a reallocation adds is arbitrary. */
    method Grow(n: nat)
      requires Valid()
      modifies this`buf
      ensures Valid() && |buf| >= n
    {
      hide Off, Enc;
      var m := |buf|;
      if m >= n {
        return;
      }
      while m < n
        invariant m >= |buf|
        decreases n - m
      {
        m := m + m / 2;
      }
      var grown := Reallocated(buf, m);
      ShowsLonger(buf, grown, len, chars);
      buf := grown;
    }

    // ----- motion over the bytes -----

    method Forwards(at: nat, p: Class) returns (r: nat)
      requires at <= len <= |buf|
      ensures r == ForwardsFrom(buf, at, len, p)
    {
      hide GetUtf8;
      r := at;
      while r < len
        invariant r <= len && ForwardsFrom(buf, r, len, p) == ForwardsFrom(buf, at, len, p)
      {
        var rune := ReadRune(buf, r, len);
        if !p(rune.c) {
          return;
        }
        r := r + rune.n;
      }
    }

    method Backwards(at: nat, p: Class) returns (r: nat)
      requires at <= len <= |buf|
      ensures r == BackwardsFrom(buf, at, len, p)
    {
      hide GetUtf8, Backward;
      r := at;
      while r > 0
        invariant r <= at && BackwardsFrom(buf, r, len, p) == BackwardsFrom(buf, at, len, p)
      {
        var i := StepBack(buf, r);
        var rune := ReadRune(buf, i, len);
        if !p(rune.c) {
          return;
        }
        r := i;
      }
    }

    method EditLeft()
      requires Valid()
      modifies this`pos, this`k
      ensures Valid() && L() == Line(old(chars), if old(k) > 0 then old(k) - 1 else 0)
    {
      BackAt(buf, chars, k);
      hide Enc, Off, Encode;
      pos := StepBack(buf, pos);
      k := if k > 0 then k - 1 else 0;
    }

    method EditLeftWord()
      requires Valid()
      modifies this`pos, this`k
      ensures Valid() && L() == Line(old(chars), WordLeft(old(chars), old(k), sep))
    {
      hide *;
      Parts();
      WordLeftIs(buf, len, chars, k, sep);
      var i := Backwards(pos, sep);
      pos := Backwards(i, Not(sep));
      k := WordLeft(chars, k, sep);
      Assemble();
    }

    method EditRightWord()
      requires Valid()
      modifies this`pos, this`k
      ensures Valid() && L() == Line(old(chars), WordRight(old(chars), old(k), sep))
    {
      hide *;
      Parts();
      WordRightIs(buf, len, chars, k, sep);
      var i := Forwards(pos, sep);
      pos := Forwards(i, Not(sep));
      k := WordRight(chars, k, sep);
      Assemble();
    }

    method EditLeftExpr()
      requires Valid()
      modifies this`pos, this`k
      ensures Valid() && L() == Line(old(chars), ExprLeft(old(chars), old(k), sep))
    {
      hide Enc, Off, SkipLeft, LeftMatch, Outer, BackwardsFrom;
      ghost var m := SkipLeft(chars, k, Outer(sep));
      Parts();
      BackwardsIs(buf, len, chars, k, Outer(sep));
      BackwardsIs(buf, len, chars, m, Not(sep));
      pos := Backwards(pos, Outer(sep));
      var found, mark := FindLeft(buf, pos, len, chars, m);
      if found {
        pos := mark.0;
      } else {
        pos := Backwards(pos, Not(sep));
      }
      k := ExprLeft(chars, k, sep);
    }

    method EditRightExpr()
      requires Valid()
      modifies this`pos, this`k
      ensures Valid() && L() == Line(old(chars), ExprRight(old(chars), old(k), sep))
    {
      hide Enc, Off, SkipRight, RightMatch, Outer, ForwardsFrom;
      ghost var m := SkipRight(chars, k, Outer(sep));
      Parts();
      ForwardsIs(buf, len, chars, k, Outer(sep));
      ForwardsIs(buf, len, chars, m, Not(sep));
      pos := Forwards(pos, Outer(sep));
      var found, mark := FindRight(buf, pos, len, chars, m);
      if found {
        ReadsAt(buf, chars, RightMatch(chars, m).pos);
        pos := Forward(buf, mark.1, len);
      } else {
        pos := Forwards(pos, Not(sep));
      }
      k := ExprRight(chars, k, sep);
    }

    // ----- insertion and deletion -----

    lemma Parts()
      requires Valid()
      ensures Shows(buf, len, chars) && k <= |chars| && Text(chars) && pos == Off(chars, k) <= len < |buf| && |buf| >= 2
      ensures len == |Enc(chars)| && Enc(chars) <= buf && L() == Line(chars, k) && ring.Valid()
        && RingOfText(ring.Contents())
    {
      EncSplit(chars, k);
    }

    /** The new buffer, length and cursor of a changed line. */
    method Update(b: Bytes, n: nat, p: nat, ghost l: Line)
      requires ring.Valid() && RingOfText(ring.Contents()) && |b| >= 2
      requires Shows(b, n, l.chars) && l.k <= |l.chars| && p == Off(l.chars, l.k)
      modifies this`buf, this`pos, this`len, this`chars, this`k
      ensures Valid() && L() == l && buf == b && len == n && pos == p
    {
      hide Off, Shows;
      buf, len, pos := b, n, p;
      chars, k := l.chars, l.k;
    }

    method EditInsert(p: Bytes, ghost t: seq<int>)
      requires Valid() && Text(t) && p == Enc(t)
      modifies this`buf, this`pos, this`len, this`chars, this`k
      ensures Valid() && L() == Inserted(old(L()), t)
    {
      hide *;
      Parts();
      InsertedFits(Line(chars, k), t);
      var n := |p|;
      Grow(len + n + 1);
      Parts();
      PutInserted(buf, len, Line(chars, k), t, pos, p);
      var room := Put(buf, pos + n, buf[pos..len]);
      room := Put(room, pos, p);
      room := room[len + n := 0];
      RoomIs(buf, len, pos, p);
      Update(room, len + n, pos + n, Inserted(Line(chars, k), t));
    }

    /** The `memmove` that closes a gap, and what it does to the length. */
    method Remove(i: nat, j: nat, ghost a: nat, ghost b: nat)
      requires Valid() && a <= b <= |chars| && i == Off(chars, a) && j == Off(chars, b)
      modifies this`buf, this`pos, this`len, this`chars, this`k
      ensures Valid() && L() == Without(old(chars), a, b) && pos == i
      ensures i <= j <= old(len) < |old(buf)| && len == old(len) - (j - i)
      ensures buf == Put(old(buf), i, old(buf)[j..old(len) + 1])
    {
      hide *;
      Parts();
      PutWithout(buf, len, chars, a, b);
      Update(Put(buf, i, buf[j..len + 1]), len - (j - i), i, Without(chars, a, b));
    }

    lemma Assemble()
      requires Shows(buf, len, chars) && k <= |chars| && pos == Off(chars, k) && |buf| >= 2
      requires ring.Valid() && RingOfText(ring.Contents())
      ensures Valid() && L() == Line(chars, k)
    {
    }

    /** `bestlineRingPush` of a piece of the line. */
    method PushPiece(i: nat, j: nat, ghost a: nat, ghost b: nat)
      requires Valid() && a <= b <= |chars| && i == Off(chars, a) && j == Off(chars, b)
      modifies ring, ring.p
      ensures Valid() && ring.p == old(ring.p)
      ensures Text(chars[a..b]) && ring.Contents() == KillRing.Push(old(ring.Contents()), Enc(chars[a..b]))
    {
      hide *;
      Parts();
      PieceIs(buf, len, chars, a, b);
      PushedText(ring.Contents(), chars[a..b]);
      ring.RingPush(buf[i..j]);
      Assemble();
    }

    method EditDelete()
      requires Valid()
      modifies this`buf, this`pos, this`len, this`chars, this`k
      ensures Valid() && L() == if old(k) == |old(chars)| then old(L()) else Without(old(chars), old(k), old(k) + 1)
    {
      hide *;
      Parts();
      ReadsAt(buf, chars, k);
      if pos == len {
        return;
      }
      ForwardAt(buf, pos, len);
      Remove(pos, Forward(buf, pos, len), k, k + 1);
    }

    method EditRubout()
      requires Valid()
      modifies this`buf, this`pos, this`len, this`chars, this`k
      ensures Valid() && L() == if old(k) == 0 then old(L()) else Without(old(chars), old(k) - 1, old(k))
    {
      hide *;
      Parts();
      StartIs(chars, k);
      if pos == 0 {
        return;
      }
      BackAt(buf, chars, k);
      var i := StepBack(buf, pos);
      Remove(i, pos, k - 1, k);
    }

    /** The word kills: the piece goes to the ring, then out of the line. */
    method EditDeleteWord()
      requires Valid()
      modifies this`buf, this`pos, this`len, this`chars, this`k, ring, ring.p
      ensures Valid() && ring.p == old(ring.p)
      ensures var w := WordRight(old(chars), old(k), sep);
        && L() == Without(old(chars), old(k), w)
        && Text(old(chars)[old(k)..w])
        && ring.Contents() == KillRing.Push(old(ring.Contents()), Enc(old(chars)[old(k)..w]))
    {
      hide *;
      Parts();
      WordRightIs(buf, len, chars, k, sep);
      var i := Forwards(pos, sep);
      i := Forwards(i, Not(sep));
      PushPiece(pos, i, k, WordRight(chars, k, sep));
      Remove(pos, i, k, WordRight(chars, k, sep));
    }

    method EditRuboutWord()
      requires Valid()
      modifies this`buf, this`pos, this`len, this`chars, this`k, ring, ring.p
      ensures Valid() && ring.p == old(ring.p)
      ensures var w := WordLeft(old(chars), old(k), sep);
        && L() == Without(old(chars), w, old(k))
        && Text(old(chars)[w..old(k)])
        && ring.Contents() == KillRing.Push(old(ring.Contents()), Enc(old(chars)[w..old(k)]))
    {
      hide *;
      Parts();
      WordLeftIs(buf, len, chars, k, sep);
      var i := Backwards(pos, sep);
      i := Backwards(i, Not(sep));
      PushPiece(i, pos, WordLeft(chars, k, sep), k);
      Remove(i, pos, WordLeft(chars, k, sep), k);
    }

    method EditKillLeft()
      requires Valid()
      modifies this`buf, this`pos, this`len, this`chars, this`k, ring, ring.p
      ensures Valid() && ring.p == old(ring.p) && L() == Line(old(chars)[old(k)..], 0)
      ensures Text(old(chars)[..old(k)]) && ring.Contents()
        == KillRing.Push(old(ring.Contents()), Enc(old(chars)[..old(k)]))
    {
      hide *;
      Parts();
      OffEnds(chars);
      EdgeSlices(chars, k);
      PushPiece(0, pos, 0, k);
      Remove(0, pos, 0, k);
    }

    method EditKillRight()
      requires Valid()
      modifies this`buf, this`pos, this`len, this`chars, this`k, ring, ring.p
      ensures Valid() && ring.p == old(ring.p) && L() == Line(old(chars)[..old(k)], old(k))
      ensures Text(old(chars)[old(k)..]) && ring.Contents()
        == KillRing.Push(old(ring.Contents()), Enc(old(chars)[old(k)..]))
    {
      hide *;
      Parts();
      OffEnds(chars);
      EdgeSlices(chars, k);
      PushPiece(pos, len, k, |chars|);
      Parts();
      PutEnd(buf, len, chars, k);
      Update(buf[pos := 0], pos, pos, Line(chars[..k], k));
    }

    method EditSqueeze()
      requires Valid()
      modifies this`buf, this`pos, this`len, this`chars, this`k
      ensures Valid() && L() == Squeezed(old(L()), sep)
    {
      hide *;
      Parts();
      SqueezedIs(chars, k, sep);
      BackwardsIs(buf, len, chars, k, sep);
      ForwardsIs(buf, len, chars, k, sep);
      var i := Backwards(pos, sep);
      var j := Forwards(pos, sep);
      OffOrdered(chars, SkipLeft(chars, k, sep), SkipRight(chars, k, sep));
      if !(i < j) {
        return;
      }
      Remove(i, j, SkipLeft(chars, k, sep), SkipRight(chars, k, sep));
    }

    // ----- yanking -----

    /** The text just yanked stands between `yi` and the cursor, and is the ring's current entry. */
    ghost predicate AfterYank()
      requires ring.Valid()
      reads this, ring, ring.p
    {
      && Text(chars) && at <= k <= |chars| && yi == Off(chars, at) && yj == pos
      && var e := ring.p[ring.i];
         e.Killed? && yi <= pos <= |buf| && buf[yi..pos] == e.text
    }

    method EditYank()
      requires Valid()
      modifies this`buf, this`pos, this`len, this`chars, this`k, this`yi, this`yj, this`at
      ensures Valid() && ring.p[ring.i] == old(ring.p[ring.i])
      ensures ring.p[ring.i].Null? ==> L() == old(L()) && buf == old(buf) && len == old(len)
      ensures ring.p[ring.i].Killed? ==>
                && AfterYank() && yi == old(pos) <= old(len) < |old(buf)| && len < |buf|
                && buf[..len] == old(buf)[..old(pos)] + ring.p[ring.i].text + old(buf)[old(pos)..old(len)]
    {
      hide *;
      Parts();
      RingParts();
      var e := ring.p[ring.i];
      if e.Null? {
        return;
      }
      var text := e.text;
      var n := |text|;
      ghost var t := TextOf(text);
      InsertedFits(Line(chars, k), t);
      Grow(len + n + 1);
      Parts();
      PutInserted(buf, len, Line(chars, k), t, pos, text);
      YankIsRoom(buf, len, pos, text);
      var p := buf[pos..len + 1];
      var b := Put(buf, pos, text);
      b := Put(b, pos + n, p);
      yi := pos;
      yj := pos + n;
      at := k;
      Update(b, len + n, pos + n, Inserted(Line(chars, k), t));
      Parts();
      Yanked();
    }

    /** The text yanked last is taken out again. */
    method CutYank()
      requires Valid() && AfterYank()
      modifies this`buf, this`pos, this`len, this`chars, this`k
      ensures Valid() && yi == pos && ring.i < 8 == ring.p.Length && ring.p[ring.i].Killed?
      ensures yi <= old(pos) <= old(len) < |old(buf)| && len == old(len) - (old(pos) - yi) < |buf|
      ensures buf[..len] == old(buf)[..yi] + old(buf)[old(pos)..old(len)]
    {
      hide *;
      Parts();
      YankParts();
      CutBytes(buf, len, yi, yj);
      if yi < len && yj <= len {
        Remove(yi, yj, at, k);
      }
      Parts();
    }

    /** The text yanked last gives way to the ring's previous entry, if the last key yanked or rotated. */
    method EditRotate(afterYank: bool)
      requires Valid() && (afterYank ==> AfterYank())
      modifies this`buf, this`pos, this`len, this`chars, this`k, this`yi, this`yj, this`at, ring
      ensures Valid() && ring.p == old(ring.p)
      ensures !afterYank ==> L() == old(L()) && ring.Contents() == old(ring.Contents())
      ensures afterYank ==>
                && ring.Contents() == KillRing.Rotate(old(ring.Contents())) && AfterYank()
                && yi == old(yi) <= old(pos) <= old(len) < |old(buf)| && len < |buf|
                && buf[..len] == old(buf)[..yi] + ring.p[ring.i].text + old(buf)[old(pos)..old(len)]
    {
      hide *;
      if afterYank {
        CutYank();
        ghost var cut, left := buf, len;
        TurnRing();
        EditYank();
        CutParts(old(buf), old(yi), old(pos), old(len), buf[..len], ring.p[ring.i].text, cut, left);
      }
    }

    /** `bestlineRingRotate`. */
    method TurnRing()
      requires Valid() && ring.i < 8 == ring.p.Length && ring.p[ring.i].Killed?
      modifies ring
      ensures Valid() && ring.p == old(ring.p) && ring.i < 8 == ring.p.Length && ring.p[ring.i].Killed?
      ensures ring.Contents() == KillRing.Rotate(old(ring.Contents()))
    {
      hide *;
      Parts();
      RingParts();
      RotatedText(ring.Contents());
      ring.RingRotate();
      Assemble();
      RingParts();
    }

    lemma YankParts()
      requires Valid() && ring.Valid() && AfterYank()
      ensures at <= k <= |chars| && Text(chars) && yi == Off(chars, at) && yj == pos && ring.p[ring.i].Killed?
      ensures yi < pos <= len < |buf| && buf[yi..pos] == ring.p[ring.i].text && buf[len] == 0
      ensures ring.i < 8 == ring.p.Length
    {
      Parts();
      RingParts();
    }

    lemma RingParts()
      requires Valid()
      ensures ring.Valid() && ring.i < 8 == ring.p.Length && ring.Contents() == KillRing.Ring(ring.i, ring.p[..])
      ensures ring.p[ring.i].Killed? ==> IsText(ring.p[ring.i].text) && ring.p[ring.i].text != []
    {
      assert ring.p[ring.i] in ring.Contents().p;
    }

    lemma Yanked()
      requires Valid() && ring.Valid()
      requires Text(chars) && at <= k <= |chars| && yi == Off(chars, at) && yj == pos && ring.p[ring.i].Killed?
      requires exists a: Bytes, b: Bytes :: |a| == yi && buf[..len] == a + ring.p[ring.i].text + b
      requires pos == yi + |ring.p[ring.i].text|
      ensures AfterYank()
    {
      var a: Bytes, b: Bytes :| |a| == yi && buf[..len] == a + ring.p[ring.i].text + b;
      assert buf[yi..pos] == buf[..len][yi..pos];
    }

    /** The ring's current entry. */
    ghost function Current(): Bytes
      reads this, ring, ring.p
    {
      if ring.i < ring.p.Length && ring.p[ring.i].Killed? then ring.p[ring.i].text else []
    }

    /** A yank and any number of rotations, as the user presses the keys: the line is as before, but for one entry of
        the ring at the yank point; and after as many rotations as there are slots in use it is the first yank's. */
    method YankAndRotate(n: nat)
      requires Valid() && Current() != []
      modifies this`buf, this`pos, this`len, this`chars, this`k, this`yi, this`yj, this`at, ring
      ensures Valid() && ring.p == old(ring.p) && Current() != []
      ensures KillRing.WellMade(old(ring.Contents()))
        && ring.Contents() == KillRing.RotateTimes(old(ring.Contents()), n)
      ensures old(pos) <= old(len) < |old(buf)| && len < |buf|
      ensures buf[..len] == old(buf)[..old(pos)] + Current() + old(buf)[old(pos)..old(len)]
      ensures |old(ring.Contents()).p| == 8
      ensures n == KillRing.InUse(old(ring.Contents()).p, 8) ==> Current() == old(Current())
    {
      hide *;
      Parts();
      CurrentParts();
      ghost var r, front, rest := ring.Contents(), buf[..pos], buf[pos..len];
      KillRing.OnceRound(r);
      EditYank();
      CurrentParts();
      KillRing.RotatesNone(r);
      for m := 0 to n
        invariant Valid() && ring.Valid() && AfterYank() && ring.p == old(ring.p) && Current() != []
        invariant ring.Contents() == KillRing.RotateTimes(r, m)
        invariant yi == |front| && len < |buf| && buf[..len] == front + Current() + rest
      {
        Parts();
        CurrentParts();
        YankParts();
        YankedSlices(buf, len, front, Current(), rest, pos);
        EditRotate(true);
        Parts();
        CurrentParts();
        KillRing.RotatesOnce(r, m);
      }
      if n == KillRing.InUse(r.p, 8) {
        SameCurrent();
      }
    }

    /** Killing something and yanking at once gives back the line, the cursor behind what was killed. */
    method KillAndYank(key: Kill)
      requires Valid()
      modifies this`buf, this`pos, this`len, this`chars, this`k, this`yi, this`yj, this`at, ring, ring.p
      ensures Valid() && old(Fits(L()))
      ensures var (a, b) := KillRange(old(L()), key, sep);
        a < b ==> L() == Line(old(chars), b) && Current() == Enc(old(chars)[a..b])
    {
      hide *;
      Parts();
      LineFits(Line(chars, k));
      ghost var was, r := L(), ring.Contents();
      ghost var range := KillRange(was, key, sep);
      RangeInside(was, key, sep);
      KilledLine(was, key, sep);
      match key {
        case ToStart => EditKillLeft();
        case ToEnd => EditKillRight();
        case NextWord => EditDeleteWord();
        case WordBefore => EditRuboutWord();
      }
      Parts();
      RingParts();
      ghost var a, b, cut, n := range.0, range.1, buf, len;
      ghost var t := Enc(was.chars[a..b]);
      ghost var p := pos;
      assert Line(chars, k) == Without(was.chars, a, b);
      if a < b {
        KilledIsShown(r, was.chars, a, b);
        PutBack(was.chars, a, b, chars, pos, buf, len, t);
      }
      EditYank();
      Parts();
      if a < b {
        assert buf[..len] == cut[..p] + t + cut[p..n];
        EncInjective(chars, was.chars);
        YankParts();
        PutBackCursor(was.chars, a, b, buf, yi, pos, t);
        SameOff(chars, k, b);
        CurrentIs();
      }
    }

    lemma CurrentIs()
      requires ring.i < ring.p.Length && ring.p[ring.i].Killed?
      ensures Current() == ring.p[ring.i].text
    {
    }

    lemma CurrentParts()
      requires Valid() && (Current() != [] || AfterYank())
      ensures ring.Valid() && ring.i < 8 == ring.p.Length && ring.p[ring.i].Killed?
        && Current() == ring.p[ring.i].text != []
      ensures KillRing.WellMade(ring.Contents()) && ring.Contents().i < 8 && |ring.Contents().p| == 8
      ensures ring.Contents().p[ring.Contents().i] == ring.p[ring.i]
    {
      RingParts();
    }

    twostate lemma SameCurrent()
      requires old(ring.Valid()) && ring.Valid() && ring.Contents() == old(ring.Contents())
      ensures Current() == old(Current())
    {
    }

    // ----- transposing -----

    /** A character is moved over the cursor, or, at the end of a line that ends in a character of several bytes,
        that character is cut in two. */
    method EditTranspose()
      requires Valid() && len > 0
      modifies this`buf, this`pos, this`len, this`chars, this`k
      ensures old(k) <= |old(chars)| && |old(chars)| > 0
      ensures TransposesWhole(old(L())) ==> Valid() && L() == Transposed(old(L()))
      ensures !TransposesWhole(old(L())) ==> len == old(len) < |buf| && !WellFormed(buf[..len])
    {
      hide *;
      Parts();
      TransposeParts(buf, len, Line(chars, k));
      var b := pos;
      if b == len {
        b := b - 1;
      }
      var a := StepBack(buf, b);
      var c := Forward(buf, b, len);
      if !(a < b < c) {
        return;
      }
      var q := buf[b..c] + buf[a..b];
      buf := Put(buf, a, q);
      pos := c;
      if TransposesWhole(Line(chars, k)) {
        chars, k := Transposed(Line(chars, k)).chars, Transposed(Line(chars, k)).k;
        Assemble();
      }
    }

    /** On to the end of the word; a step past the end of the line stops there. */
    method Escape(from: nat) returns (i: nat)
      requires from <= len <= |buf|
      ensures i == EscapeWord(buf, from, len, sep)
    {
      hide GetUtf8, Backward;
      i := from;
      while i != 0 && i < len
        invariant i <= len && EscapeWord(buf, i, len, sep) == EscapeWord(buf, from, len, sep)
        decreases len - i
      {
        var r := ReadRune(buf, i, len);
        if sep(r.c) {
          break;
        }
        var j := StepBack(buf, i);
        r := ReadRune(buf, j, len);
        if sep(r.c) {
          break;
        }
        i := i + r.n;
        if i > len {
          i := len;
        }
      }
    }

    /** Where the two words around the cursor start and end. */
    method WordBounds() returns (xi: nat, xj: nat, yi: nat, yj: nat)
      requires pos <= len <= |buf|
      ensures (xi, xj, yi, yj) == Words(buf, pos, len, sep)
    {
      hide BackwardsFrom, ForwardsFrom, EscapeWord;
      var i := pos;
      if i == len {
        i := Backwards(i, sep);
        i := Backwards(i, Not(sep));
      }
      var pi := Escape(i);
      xj := Backwards(pi, sep);
      xi := Backwards(xj, Not(sep));
      yi := Forwards(pi, sep);
      yj := Forwards(yi, Not(sep));
    }

    /** The words around the cursor change places, piece by piece of bytes. The line stays text if and only if that
        cuts no character in two; then whole characters have moved. */
    method EditTransposeWords()
      requires Valid()
      modifies this`buf, this`pos, this`chars, this`k
      ensures old(Fits(L())) && old(pos) == Off(old(chars), old(k)) <= len < |old(buf)|
      ensures buf == WordsSwapped(old(buf), old(pos), len, sep)
      ensures var w := Words(old(buf), old(pos), len, sep);
        if TwoWords(w) && !CutsNothing(old(buf), w) then !WellFormed(buf[..len])
        else Valid() && L() == WordsMoved(old(L()), w) && multiset(chars) == multiset(old(chars))
    {
      hide *;
      Parts();
      LineFits(Line(chars, k));
      SwappedIs(buf, pos, len, sep);
      var xi, xj, yi, yj := WordBounds();
      ghost var l, w := Line(chars, k), Words(buf, pos, len, sep);
      if xi < xj && xj < yi && yi < yj {
        buf := Put(buf, xi, buf[yi..yj] + buf[xj..yi] + buf[xi..xj]);
        pos := yj;
      }
      if TwoWords(w) && !CutsNothing(old(buf), w) {
        CutWordsBreak(old(buf), len, l.chars, old(pos), sep);
      } else {
        WholeWordsMove(old(buf), len, l, old(pos), sep);
        FitsMeans(WordsMoved(l, w));
        chars, k := WordsMoved(l, w).chars, WordsMoved(l, w).k;
        Assemble();
      }
    }

    // ----- slurping and barfing -----

    /** Right to the closing bracket around the cursor, over whole brackets. */
    method FindClose() returns (found: bool, point: nat, start: nat)
      requires Valid()
      ensures found <==> OutRight(chars, k, []).At?
      ensures found ==>
                var e := OutRight(chars, k, []).pos;
                Text(chars) && point == Off(chars, e) && start == Off(chars, e + 1) <= len
                  && start == point + |Encode(chars[e])|
    {
      hide *;
      Parts();
      var p := pos;
      var open: seq<int> := [];
      ghost var m := k;
      while p < len
        invariant m <= |chars| && p == Off(chars, m) <= len && OutRight(chars, m, open) == OutRight(chars, k, [])
        decreases |chars| - m
      {
        ReadsAt(buf, chars, m);
        OutRightStep(chars, m, open);
        var r := ReadRune(buf, p, len);
        if open != [] {
          if r.c == open[|open| - 1] {
            open := open[..|open| - 1];
          }
        } else {
          var rhs := MirrorRightOf(r.c);
          if rhs != 0 {
            open := open + [rhs];
          } else {
            var lhs := MirrorLeftOf(r.c);
            if lhs != 0 {
              ReadsAt(buf, chars, m + 1);
              return true, p, p + r.n;
            }
          }
        }
        p := p + r.n;
        m := m + 1;
        ReadsAt(buf, chars, m);
      }
      ReadsAt(buf, chars, m);
      OutRightStep(chars, m, open);
      return false, 0, 0;
    }

    /** Over one item, to the separator behind it. */
    method SkipItem(from: nat, ghost m0: nat) returns (p: nat)
      requires Valid() && m0 <= |chars| && from == Off(chars, m0)
      ensures Text(chars) && p == Off(chars, ItemRight(chars, m0, [], sep)) <= len
    {
      hide *;
      Parts();
      p := from;
      var open: seq<int> := [];
      ghost var m := m0;
      ReadsAt(buf, chars, m);
      while p < len
        invariant m <= |chars| && p == Off(chars, m) <= len
        invariant ItemRight(chars, m, open, sep) == ItemRight(chars, m0, [], sep)
        decreases |chars| - m
      {
        ReadsAt(buf, chars, m);
        ItemRightStep(chars, m, open, sep);
        var r := ReadRune(buf, p, len);
        if open != [] {
          if r.c == open[|open| - 1] {
            open := open[..|open| - 1];
          }
        } else {
          var rhs := MirrorRightOf(r.c);
          if rhs != 0 {
            open := open + [rhs];
          } else if sep(r.c) {
            return;
          }
        }
        p := p + r.n;
        m := m + 1;
        ReadsAt(buf, chars, m);
      }
      ReadsAt(buf, chars, m);
      ItemRightStep(chars, m, open, sep);
    }

    method EditSlurp()
      requires Valid()
      modifies this`buf, this`pos, this`len, this`chars, this`k
      ensures Valid() && L() == Slurped(old(L()), sep)
    {
      hide *;
      Parts();
      LineFits(Line(chars, k));
      SlurpedIs(Line(chars, k), sep);
      var found, point, start := FindClose();
      if !found {
        return;
      }
      ghost var e := OutRight(chars, k, []).pos;
      ForwardsIs(buf, len, chars, e + 1, Outer(sep));
      var p := Forwards(start, Outer(sep));
      p := SkipItem(p, SkipRight(chars, e + 1, Outer(sep)));
      ghost var q := ItemRight(chars, SkipRight(chars, e + 1, Outer(sep)), [], sep);
      SlurpedBytes(buf, len, chars, k, e, q, point, start, p);
      var rp := buf[point..start];
      var b := Put(buf, point, buf[start..p]);
      b := Put(b, p - (start - point), rp);
      Update(b, len, pos, Slurped(Line(chars, k), sep));
    }

    /** Left over one item, if a separator stands before it. */
    method SkipItemBack(from: nat, ghost m0: nat) returns (found: bool, p: nat)
      requires Valid() && m0 <= |chars| && from == Off(chars, m0)
      ensures found <==> ItemLeft(chars, m0, [], sep).At?
      ensures found ==> Text(chars) && p == Off(chars, ItemLeft(chars, m0, [], sep).pos) <= len
    {
      hide *;
      Parts();
      p := from;
      var open: seq<int> := [];
      ghost var m: nat := m0;
      ReadsAt(buf, chars, m);
      while true
        invariant m <= |chars| && p == Off(chars, m) <= len
        invariant ItemLeft(chars, m, open, sep) == ItemLeft(chars, m0, [], sep)
        decreases m
      {
        StartIs(chars, m);
        ItemLeftStep(chars, m, open, sep);
        if p == 0 {
          return false, 0;
        }
        BackAt(buf, chars, m);
        ReadsAt(buf, chars, m - 1);
        var i := StepBack(buf, p);
        var r := ReadRune(buf, i, len);
        if open != [] {
          if r.c == open[|open| - 1] {
            open := open[..|open| - 1];
          }
        } else {
          var lhs := MirrorLeftOf(r.c);
          if lhs != 0 {
            open := open + [lhs];
          } else if sep(r.c) {
            return true, p;
          }
        }
        p := i;
        m := m - 1;
      }
    }

    method EditBarf()
      requires Valid()
      modifies this`buf, this`pos, this`len, this`chars, this`k
      ensures Valid() && L() == Barfed(old(L()), sep)
    {
      hide *;
      Parts();
      LineFits(Line(chars, k));
      BarfedIs(Line(chars, k), sep);
      var found, end, start := FindClose();
      if !found {
        return;
      }
      ghost var e := OutRight(chars, k, []).pos;
      BackwardsIs(buf, len, chars, e, Outer(sep));
      var p := Backwards(end, Outer(sep));
      found, p := SkipItemBack(p, SkipLeft(chars, e, Outer(sep)));
      if !found {
        return;
      }
      ghost var m := ItemLeft(chars, SkipLeft(chars, e, Outer(sep)), [], sep).pos;
      BackwardsIs(buf, len, chars, m, Outer(sep));
      p := Backwards(p, Outer(sep));
      ReadsAt(buf, chars, e);
      var r := ReadRune(buf, end, len);
      BarfedBytes(buf, len, chars, SkipLeft(chars, m, Outer(sep)), e, p, end, Encode(r.c));
      CursorMoves(chars, SkipLeft(chars, m, Outer(sep)), e, k);
      var b := Put(buf, p + r.n, buf[p..end]);
      b := Put(b, p, Encode(r.c));
      Update(b, len, if pos > p then pos + r.n else pos, Barfed(Line(chars, k), sep));
    }

    // ----- translating the next word -----

    /** The bytes of the next word, translated. A character that stays the same is copied. */
    method TranslateWord(i: nat, xlat: (int, int) -> int, ghost a: nat, ghost end: nat) returns (j: nat, ab: Bytes)
      requires Valid() && a <= |chars| && i == Off(chars, a) && Translates(xlat)
      requires end == SkipRight(chars, a, Not(sep))
      ensures Text(chars) && end <= |chars| && j == Off(chars, end) <= len
      ensures Text(Mapped(chars, a, end - a, xlat)) && ab == Enc(Mapped(chars, a, end - a, xlat))
    {
      hide *;
      Parts();
      j, ab := i, [];
      ghost var b := a;
      var n := 0;
      MappedNone(chars, a, xlat);
      ReadsAt(buf, chars, a);
      while j < len
        invariant a <= b <= |chars| && n == b - a && j == Off(chars, b) <= len
        invariant SkipRight(chars, b, Not(sep)) == SkipRight(chars, a, Not(sep))
        invariant Text(Mapped(chars, a, b - a, xlat)) && ab == Enc(Mapped(chars, a, b - a, xlat))
        decreases |chars| - b
      {
        ReadsAt(buf, chars, b);
        SkipRightStep(chars, b, sep);
        var r := ReadRune(buf, j, len);
        if sep(r.c) {
          return;
        }
        CharAt(buf, chars, b);
        MappedText(chars, a, b - a + 1, xlat);
        OneSlice(chars, b);
        TranslatesOne(xlat, n, chars[b]);
        var c := xlat(n, r.c);
        if c != r.c {
          ab := ab + Encode(c);
        } else {
          ab := ab + buf[j..j + r.n];
        }
        j := j + r.n;
        b := b + 1;
        n := n + 1;
        ReadsAt(buf, chars, b);
      }
      SkipRightStep(chars, b, sep);
      ReadsAt(buf, chars, b);
    }

    method EditXlatWord(xlat: (int, int) -> int)
      requires Valid() && Translates(xlat)
      modifies this`buf, this`pos, this`len, this`chars, this`k
      ensures Valid() && L() == Translated(old(L()), sep, xlat)
    {
      hide *;
      Parts();
      ForwardsIs(buf, len, chars, k, sep);
      ghost var a := SkipRight(chars, k, sep);
      var i := Forwards(pos, sep);
      ghost var b := SkipRight(chars, a, Not(sep));
      var j, ab := TranslateWord(i, xlat, a, b);
      ghost var t := Mapped(chars, a, b - a, xlat);
      TranslatedIs(Line(chars, k), sep, xlat);
      StartIs(t, |t|);
      OffEnds(t);
      if |ab| != 0 {
        Grow(i + |ab| + len - j + 1);
        Parts();
        OffOrdered(chars, a, b);
        PutTranslated(buf, len, chars, a, b, t, i, j, ab);
        EncTranslated(chars, a, b, t);
        var more := ab + buf[j..len];
        Update(Put(buf, i, more + [0]), i + |more|, i + |ab|, Translated(Line(chars, k), sep, xlat));
      }
    }
  }

  lemma MappedNone(chars: seq<int>, a: nat, xlat: (int, int) -> int)
    requires a <= |chars|
    ensures Mapped(chars, a, 0, xlat) == [] && Text([]) && Enc([]) == []
  {
  }

  lemma TranslatesOne(xlat: (int, int) -> int, n: int, c: int)
    requires Translates(xlat) && Scalar(c) && c != 0
    ensures Scalar(xlat(n, c)) && xlat(n, c) != 0
  {
  }

  lemma SkipRightStep(chars: seq<int>, m: nat, sep: Class)
    requires m <= |chars|
    ensures SkipRight(chars, m, Not(sep))
         == if m < |chars| && !sep(chars[m]) then SkipRight(chars, m + 1, Not(sep)) else m
  {
  }

  lemma TranslatedIs(l: Line, sep: Class, xlat: (int, int) -> int)
    requires l.k <= |l.chars|
    ensures var a := SkipRight(l.chars, l.k, sep);
      var b := SkipRight(l.chars, a, Not(sep));
      && a <= b <= |l.chars|
      && Translated(l, sep, xlat)
         == if a == b then l else Line(l.chars[..a] + Mapped(l.chars, a, b - a, xlat) + l.chars[b..], b)
  {
    hide SkipRight;
    var a := SkipRight(l.chars, l.k, sep);
    MappedIs(l.chars, a, SkipRight(l.chars, a, Not(sep)) - a, xlat);
  }

  lemma ItemLeftStep(chars: seq<int>, m: nat, open: seq<int>, sep: Class)
    requires m <= |chars|
    ensures ItemLeft(chars, m, open, sep)
         == if m == 0 then Nothing
            else if open != [] then
              ItemLeft(chars, m - 1, if chars[m - 1] == open[|open| - 1] then open[..|open| - 1] else open, sep)
            else if MirrorLeft(chars[m - 1]) != 0 then ItemLeft(chars, m - 1, open + [MirrorLeft(chars[m - 1])], sep)
            else if sep(chars[m - 1]) then At(m)
            else ItemLeft(chars, m - 1, open, sep)
  {
    hide MirrorLeft;
  }

  lemma OutRightStep(chars: seq<int>, m: nat, open: seq<int>)
    ensures OutRight(chars, m, open)
         == if m >= |chars| then Nothing
            else if open != [] then
              OutRight(chars, m + 1, if chars[m] == open[|open| - 1] then open[..|open| - 1] else open)
            else if MirrorRight(chars[m]) != 0 then OutRight(chars, m + 1, open + [MirrorRight(chars[m])])
            else if MirrorLeft(chars[m]) != 0 then At(m)
            else OutRight(chars, m + 1, open)
  {
    hide MirrorRight, MirrorLeft;
  }

  lemma ItemRightStep(chars: seq<int>, m: nat, open: seq<int>, sep: Class)
    requires m <= |chars|
    ensures ItemRight(chars, m, open, sep)
         == if m == |chars| then m
            else if open != [] then
              ItemRight(chars, m + 1, if chars[m] == open[|open| - 1] then open[..|open| - 1] else open, sep)
            else if MirrorRight(chars[m]) != 0 then ItemRight(chars, m + 1, open + [MirrorRight(chars[m])], sep)
            else if sep(chars[m]) then m
            else ItemRight(chars, m + 1, open, sep)
  {
    hide MirrorRight;
  }

  lemma LineFits(l: Line)
    requires Text(l.chars) && l.k <= |l.chars|
    ensures Fits(l)
  {
  }

  lemma FitsMeans(l: Line)
    requires Fits(l)
    ensures Text(l.chars) && l.k <= |l.chars|
  {
  }

  lemma SwappedIs(buf: Bytes, pos: nat, len: nat, sep: Class)
    requires pos <= len <= |buf|
    ensures var w := Words(buf, pos, len, sep);
      && (TwoWords(w) <==> w.0 < w.1 && w.1 < w.2 && w.2 < w.3)
      && w.0 <= w.1 <= w.2 <= w.3 <= len
      && WordsSwapped(buf, pos, len, sep)
         == if TwoWords(w) then Put(buf, w.0, buf[w.2..w.3] + buf[w.1..w.2] + buf[w.0..w.1]) else buf
  {
    hide Words, Put;
  }

  lemma StaysAtStart(l: Line)
    requires Fits(l) && l.chars != []
    ensures TransposeFrom(l) == 0 ==> Transposed(l) == l
  {
  }

  /** Both outcomes of transposing, in the code's positions. */
  lemma TransposeParts(buf: Bytes, len: nat, l: Line)
    requires Shows(buf, len, l.chars) && l.k <= |l.chars| && len > 0 && |buf| >= 2
    ensures Fits(l) && l.chars != [] && len < |buf| && Off(l.chars, l.k) <= len
    ensures var b := if Off(l.chars, l.k) == len then len - 1 else Off(l.chars, l.k);
      var a, c, x := Backward(buf, b), Forward(buf, b, len), Transposed(l);
      && a <= b < c <= len
      && (TransposesWhole(l) && a == b ==> x == l)
      && (TransposesWhole(l) && a < b ==>
            && Shows(Put(buf, a, buf[b..c] + buf[a..b]), len, x.chars)
            && x.k <= |x.chars| && Text(x.chars) && c == Off(x.chars, x.k))
      && (!TransposesWhole(l) ==> a < b && !WellFormed(Put(buf, a, buf[b..c] + buf[a..b])[..len]))
  {
    ShowsThat(buf, len, l.chars);
    assert l.chars != [];
    hide *;
    WholeMeans(l);
    OffEnds(l.chars);
    if TransposesWhole(l) {
      TransposePositions(buf, len, l);
      TransposedIs(l);
      StaysAtStart(l);
      if TransposeFrom(l) > 0 {
        TransposeAt(buf, len, l);
      }
    } else {
      LastCharSplits(buf, len, l.chars);
    }
  }

  lemma PieceIs(buf: Bytes, len: nat, chars: seq<int>, a: nat, b: nat)
    requires Shows(buf, len, chars) && a <= b <= |chars|
    ensures Text(chars) && Text(chars[a..b]) && Off(chars, a) <= Off(chars, b) <= len < |buf|
    ensures buf[Off(chars, a)..Off(chars, b)] == Enc(chars[a..b])
  {
    ShowsThat(buf, len, chars);
    hide *;
    TextParts(chars, a, b);
    EncSlice(chars, a, b);
    PrefixSlice(buf[..len], buf, Off(chars, a), Off(chars, b));
  }

  lemma RotatedText(r: KillRing.Ring)
    requires KillRing.WellMade(r) && RingOfText(r) && r.i < 8 && |r.p| == 8 && r.p[r.i].Killed?
    ensures RingOfText(KillRing.Rotate(r)) && KillRing.Rotate(r).p == r.p
    ensures KillRing.Rotate(r).i < 8 && KillRing.Rotate(r).p[KillRing.Rotate(r).i].Killed?
  {
    KillRing.RotationShows(r, 1);
    assert KillRing.RotateTimes(r, 0) == r;
  }

  lemma YankedSlices(buf: Bytes, len: nat, front: Bytes, text: Bytes, rest: Bytes, pos: nat)
    requires len < |buf| && buf[..len] == front + text + rest && |front| <= pos <= len && buf[|front|..pos] == text
    ensures buf[..|front|] == front && buf[pos..len] == rest
  {
    assert buf[..len][..|front|] == buf[..|front|];
    assert buf[..len][pos..] == buf[pos..len];
  }

  /** Text put in where text was cut out. */
  lemma CutParts(before: Bytes, i: nat, j: nat, len: nat, after: Bytes, text: Bytes, cut: Bytes, left: nat)
    requires i <= j <= len < |before| && left == len - (j - i) && left <= |cut|
      && cut[..left] == before[..i] + before[j..len]
    requires after == cut[..i] + text + cut[i..left]
    ensures after == before[..i] + text + before[j..len]
  {
    assert cut[..i] == cut[..left][..i];
    assert cut[i..left] == cut[..left][i..];
  }

  lemma TextOf(b: Bytes) returns (t: seq<int>)
    requires IsText(b)
    ensures Text(t) && Enc(t) == b
  {
    t :| Text(t) && Enc(t) == b;
  }

  lemma PushedText(r: KillRing.Ring, t: seq<int>)
    requires KillRing.WellMade(r) && RingOfText(r) && Text(t)
    ensures RingOfText(KillRing.Push(r, Enc(t)))
  {
    hide Enc;
    assert IsText(Enc(t));
  }

  lemma StartIs(chars: seq<int>, k: nat)
    requires Text(chars) && k <= |chars|
    ensures Off(chars, k) == 0 <==> k == 0
  {
    OffOrdered(chars, 0, k);
  }

  lemma EdgeSlices(chars: seq<int>, k: nat)
    requires k <= |chars|
    ensures chars[0..k] == chars[..k] && chars[k..|chars|] == chars[k..]
    ensures Without(chars, 0, k) == Line(chars[k..], 0)
  {
  }

  lemma WordRightIs(buf: Bytes, len: nat, chars: seq<int>, k: nat, sep: Class)
    requires Text(chars) && Enc(chars) <= buf && len == |Enc(chars)| && k <= |chars|
    ensures Off(chars, k) <= len && k <= WordRight(chars, k, sep) <= |chars|
    ensures ForwardsFrom(buf, ForwardsFrom(buf, Off(chars, k), len, sep), len, Not(sep))
      == Off(chars, WordRight(chars, k, sep))
  {
    hide Off, Enc, ForwardsFrom, SkipRight;
    ForwardsIs(buf, len, chars, k, sep);
    ForwardsIs(buf, len, chars, SkipRight(chars, k, sep), Not(sep));
  }

  lemma WordLeftIs(buf: Bytes, len: nat, chars: seq<int>, k: nat, sep: Class)
    requires Text(chars) && Enc(chars) <= buf && len == |Enc(chars)| && k <= |chars|
    ensures Off(chars, k) <= len && WordLeft(chars, k, sep) <= k
    ensures BackwardsFrom(buf, BackwardsFrom(buf, Off(chars, k), len, sep), len, Not(sep))
      == Off(chars, WordLeft(chars, k, sep))
  {
    hide Off, Enc, BackwardsFrom, SkipLeft;
    BackwardsIs(buf, len, chars, k, sep);
    BackwardsIs(buf, len, chars, SkipLeft(chars, k, sep), Not(sep));
  }

  lemma SqueezedIs(chars: seq<int>, k: nat, sep: Class)
    requires k <= |chars|
    ensures SkipLeft(chars, k, sep) <= k <= SkipRight(chars, k, sep) <= |chars|
    ensures Squeezed(Line(chars, k), sep) == Without(chars, SkipLeft(chars, k, sep), SkipRight(chars, k, sep))
    ensures SkipLeft(chars, k, sep) == SkipRight(chars, k, sep) ==> Squeezed(Line(chars, k), sep) == Line(chars, k)
  {
  }

  lemma RoomIs(buf: Bytes, len: nat, pos: nat, p: Bytes)
    requires pos <= len && len + |p| < |buf|
    ensures RoomFilled(buf, len, pos, p) == Put(Put(buf, pos + |p|, buf[pos..len]), pos, p)[len + |p| := 0]
  {
  }

  method Reallocated(buf: Bytes, m: nat) returns (grown: Bytes)
    requires m >= |buf|
    ensures |grown| == m && grown[..|buf|] == buf
  {
    var junk: Bytes := *;
    var more := Zeros(m - |buf|);
    if |junk| == |more| {
      more := junk;
    }
    grown := buf + more;
  }
}
