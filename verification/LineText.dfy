/** A line of the editor: characters, their UTF-8 bytes, and the byte positions between them
    (llamafile/bestline.c:1432-1477, 2491-2498, 2806-2808). */
module LineText {
  import opened ByteSeq
  import opened Utf8

  /** A line has no NUL inside. */
  predicate Text(chars: seq<int>) {
    forall i :: 0 <= i < |chars| ==> Scalar(chars[i]) && chars[i] != 0
  }

  function Enc(chars: seq<int>): Bytes
    requires Text(chars)
  {
    if chars == [] then [] else Enc(chars[..|chars| - 1]) + Encode(chars[|chars| - 1])
  }

  /** The byte position in front of character `k`. */
  function Off(chars: seq<int>, k: nat): nat
    requires Text(chars) && k <= |chars|
  {
    |Enc(chars[..k])|
  }

  // ----- one character -----

  /** `DecodeUtf8`: the payload of a lead byte. */
  function Payload(c: byte): nat {
    if c < 0xC0 then c
    else if c < 0xE0 then c - 0xC0
    else if c < 0xF0 then c - 0xE0
    else if c < 0xF8 then c - 0xF0
    else if c < 0xFC then c - 0xF8
    else c - 0xFC
  }

  datatype Rune = Rune(c: int, n: nat)

  /** The continuation bytes from `i` on, read onto `c`. */
  function Continue(buf: Bytes, i: nat, len: nat, c: int, n: nat): (r: Rune)
    requires i <= len <= |buf|
    ensures n <= r.n <= n + (len - i)
    decreases len - i
  {
    if i < len && Tail(buf[i]) then Continue(buf, i + 1, len, Join(c, buf[i] as int - 0x80), n + 1) else Rune(c, n)
  }

  /** `GetUtf8` at `pos`. */
  function GetUtf8(buf: Bytes, pos: nat, len: nat): (r: Rune)
    requires pos <= len <= |buf|
    ensures pos + r.n <= len && (pos < len ==> r.n > 0)
  {
    if pos == len then Rune(0, 0)
    else if buf[pos] < 0xC0 then Rune(buf[pos], 1)
    else Continue(buf, pos + 1, len, Payload(buf[pos]), 1)
  }

  method ReadRune(buf: Bytes, pos: nat, len: nat) returns (r: Rune)
    requires pos <= len <= |buf|
    ensures r == GetUtf8(buf, pos, len)
  {
    if pos == len {
      return Rune(0, 0);
    }
    if buf[pos] < 0xC0 {
      return Rune(buf[pos], 1);
    }
    var c: int, n: nat := Payload(buf[pos]), 1;
    while pos + n < len && Tail(buf[pos + n])
      invariant pos + n <= len && Continue(buf, pos + n, len, c, n) == GetUtf8(buf, pos, len)
    {
      c := Join(c, buf[pos + n] as int - 0x80);
      n := n + 1;
    }
    return Rune(c, n);
  }

  function Forward(buf: Bytes, pos: nat, len: nat): nat
    requires pos <= len <= |buf|
  {
    pos + GetUtf8(buf, pos, len).n
  }

  /** `Backward`: one step back, then over continuation bytes. */
  function Backward(buf: Bytes, pos: nat): (r: nat)
    requires pos <= |buf|
    ensures r <= pos && (pos > 0 ==> r < pos)
  {
    if pos == 0 then 0
    else if pos - 1 > 0 && Tail(buf[pos - 1]) then Backward(buf, pos - 1)
    else pos - 1
  }

  method StepBack(buf: Bytes, pos: nat) returns (r: nat)
    requires pos <= |buf|
    ensures r == Backward(buf, pos)
  {
    r := pos;
    if r > 0 {
      r := r - 1;
      while r > 0 && Tail(buf[r])
        invariant r < pos && Backward(buf, r + 1) == Backward(buf, pos)
      {
        r := r - 1;
      }
    }
  }

  // ----- a line as its characters -----

  lemma TextParts(chars: seq<int>, i: nat, j: nat)
    requires Text(chars) && i <= j <= |chars|
    ensures Text(chars[i..j])
  {
  }

  lemma {:induction false} EncConcat(a: seq<int>, b: seq<int>)
    requires Text(a) && Text(b)
    ensures Text(a + b) && Enc(a + b) == Enc(a) + Enc(b)
  {
    hide Encode, Scalar, Enc;
    if b == [] {
      assert a + b == a;
      EncNothing();
    } else {
      var n := |b| - 1;
      EncConcat(a, b[..n]);
      EncSnoc(b[..n], b[n]);
      EncSnoc(a + b[..n], b[n]);
      assert b == b[..n] + [b[n]];
      assert a + b == a + b[..n] + [b[n]];
    }
  }

  lemma EncNothing()
    ensures Enc([]) == []
  {
  }

  lemma EncSnoc(a: seq<int>, c: int)
    requires Text(a) && Text(a + [c])
    ensures Scalar(c) && Enc(a + [c]) == Enc(a) + Encode(c)
  {
    hide Encode;
    assert (a + [c])[|a|] == c && (a + [c])[..|a|] == a;
  }

  lemma EncOne(c: int)
    requires Scalar(c) && c != 0
    ensures Enc([c]) == Encode(c)
  {
    assert Enc([]) == [];
  }

  /** Cutting the bytes between two characters cuts the line there. */
  lemma EncSplit(chars: seq<int>, k: nat)
    requires Text(chars) && k <= |chars|
    ensures Off(chars, k) <= |Enc(chars)|
    ensures Enc(chars)[..Off(chars, k)] == Enc(chars[..k]) && Enc(chars)[Off(chars, k)..] == Enc(chars[k..])
  {
    assert chars == chars[..k] + chars[k..];
    EncConcat(chars[..k], chars[k..]);
  }

  lemma OffNext(chars: seq<int>, k: nat)
    requires Text(chars) && k < |chars|
    ensures Off(chars, k + 1) == Off(chars, k) + |Encode(chars[k])|
  {
    assert chars[..k + 1][..k] == chars[..k];
  }

  lemma OffEnds(chars: seq<int>)
    requires Text(chars)
    ensures Off(chars, 0) == 0 && Off(chars, |chars|) == |Enc(chars)|
  {
    assert chars[..|chars|] == chars;
  }

  lemma {:induction false} OffOrdered(chars: seq<int>, j: nat, k: nat)
    requires Text(chars) && j <= k <= |chars|
    ensures Off(chars, j) + (k - j) <= Off(chars, k)
    decreases k
  {
    hide Encode, Enc, Off;
    if j < k {
      OffOrdered(chars, j, k - 1);
      OffNext(chars, k - 1);
      EncodeShape(chars[k - 1]);
    }
  }

  /** A slice between two positions is the text between two characters. */
  lemma EncSlice(chars: seq<int>, i: nat, j: nat)
    requires Text(chars) && i <= j <= |chars|
    ensures Off(chars, i) <= Off(chars, j) <= |Enc(chars)|
    ensures Enc(chars)[Off(chars, i)..Off(chars, j)] == Enc(chars[i..j])
  {
    OffOrdered(chars, i, j);
    EncSplit(chars, j);
    EncSplit(chars[..j], i);
    assert chars[..j][..i] == chars[..i];
    assert Enc(chars)[Off(chars, i)..Off(chars, j)] == Enc(chars)[..Off(chars, j)][Off(chars, i)..];
  }

  /** What the bytes of a character look like: no tail first, only tails after. */
  lemma EncodeShape(c: int)
    requires Scalar(c)
    ensures var s := Encode(c);
      && 1 <= |s| <= 4 && !Tail(s[0]) && (forall i :: 1 <= i < |s| ==> Tail(s[i])) && (|s| > 1 <==> s[0] >= 0xC0)
  {
  }

  lemma CharSlice(chars: seq<int>, k: nat)
    requires Text(chars) && k < |chars|
    ensures var p, e := Off(chars, k), Encode(chars[k]);
      && p + |e| == Off(chars, k + 1) <= |Enc(chars)| && Enc(chars)[p..p + |e|] == e
      && p < |Enc(chars)| && !Tail(Enc(chars)[p])
  {
    hide Encode, Enc, Off;
    OffNext(chars, k);
    EncSlice(chars, k, k + 1);
    assert chars[k..k + 1] == [chars[k]];
    EncOne(chars[k]);
    EncodeShape(chars[k]);
    var p, e := Off(chars, k), Encode(chars[k]);
    assert Enc(chars)[p..p + |e|][0] == Enc(chars)[p];
  }

  /** The bytes of character `k`, and no tail behind them. */
  lemma CharAt(buf: Bytes, chars: seq<int>, k: nat)
    requires Text(chars) && k < |chars| && Enc(chars) <= buf
    ensures var p, e, len := Off(chars, k), Encode(chars[k]), |Enc(chars)|;
      && p + |e| == Off(chars, k + 1) <= len && buf[p..p + |e|] == e && (p + |e| < len ==> !Tail(buf[p + |e|]))
  {
    OffEnds(chars);
    hide *;
    CharSlice(chars, k);
    if k + 1 < |chars| {
      CharSlice(chars, k + 1);
    }
    PrefixSlice(Enc(chars), buf, Off(chars, k), Off(chars, k + 1));
  }

  lemma PrefixSlice(s: Bytes, buf: Bytes, a: nat, b: nat)
    requires s <= buf && a <= b <= |s|
    ensures buf[a..b] == s[a..b] && (b < |s| ==> buf[b] == s[b])
  {
  }

  lemma EncodeJoins(c: int)
    requires Scalar(c)
    ensures var s := Encode(c);
      && (|s| == 1 ==> c == s[0] as int)
      && (|s| == 2 ==> c == Join(Payload(s[0]), s[1] as int - 0x80))
      && (|s| == 3 ==> c == Join(Join(Payload(s[0]), s[1] as int - 0x80), s[2] as int - 0x80))
      && (|s| == 4 ==> c == Join(Join(Join(Payload(s[0]), s[1] as int - 0x80), s[2] as int - 0x80), s[3] as int - 0x80))
  {
    hide Join;
    SplitJoin(c);
    SplitJoin(c / 0x40);
    SplitJoin(c / 0x40 / 0x40);
  }

  lemma RuneOf(buf: Bytes, p: nat, len: nat, c: int)
    requires Scalar(c) && p + |Encode(c)| <= len <= |buf| && buf[p..p + |Encode(c)|] == Encode(c)
    requires p + |Encode(c)| < len ==> !Tail(buf[p + |Encode(c)|])
    ensures p < len && GetUtf8(buf, p, len) == Rune(c, |Encode(c)|)
  {
    var e, n := Encode(c), |Encode(c)|;
    EncodeShape(c);
    EncodeJoins(c);
    hide Encode, Join, Scalar;
    assert forall j :: p <= j < p + n ==> buf[j] == buf[p..p + n][j - p];
    ContinueOver(buf, p + 1, len, Payload(e[0]), 1, n);
  }

  /** Over exactly the tails that follow. */
  lemma ContinueOver(buf: Bytes, i: nat, len: nat, c: int, k: nat, n: nat)
    requires k <= n <= 4 && i + (n - k) <= len <= |buf|
    requires forall j :: i <= j < i + (n - k) ==> Tail(buf[j])
    requires i + (n - k) < len ==> !Tail(buf[i + (n - k)])
    ensures n == k ==> Continue(buf, i, len, c, k) == Rune(c, n)
    ensures n == k + 1 ==> Continue(buf, i, len, c, k) == Rune(Join(c, buf[i] as int - 0x80), n)
    ensures n == k + 2 ==>
      Continue(buf, i, len, c, k) == Rune(Join(Join(c, buf[i] as int - 0x80), buf[i + 1] as int - 0x80), n)
    ensures n == k + 3 ==>
      Continue(buf, i, len, c, k) == Rune(Join(Join(Join(c, buf[i] as int - 0x80), buf[i + 1] as int - 0x80),
        buf[i + 2] as int - 0x80), n)
    decreases n - k
  {
    if n > k {
      ContinueOver(buf, i + 1, len, Join(c, buf[i] as int - 0x80), k + 1, n);
    }
  }

  /** Reading at a character boundary yields that character. */
  lemma ReadsChar(buf: Bytes, chars: seq<int>, k: nat)
    requires Text(chars) && k < |chars| && Enc(chars) <= buf
    ensures Off(chars, k) < |Enc(chars)| && GetUtf8(buf, Off(chars, k), |Enc(chars)|)
      == Rune(chars[k], |Encode(chars[k])|)
    ensures Forward(buf, Off(chars, k), |Enc(chars)|) == Off(chars, k + 1)
  {
    hide Encode, GetUtf8, Enc, Off;
    CharAt(buf, chars, k);
    RuneOf(buf, Off(chars, k), |Enc(chars)|, chars[k]);
  }

  lemma ReadsEnd(buf: Bytes, len: nat)
    requires len <= |buf|
    ensures GetUtf8(buf, len, len) == Rune(0, 0)
  {
  }

  lemma {:induction false} BackOver(buf: Bytes, p: nat, n: nat)
    requires 1 <= n && p + n <= |buf| && !Tail(buf[p]) && forall i :: p < i < p + n ==> Tail(buf[i])
    ensures Backward(buf, p + n) == p
  {
    if n > 1 {
      BackOver(buf, p, n - 1);
    }
  }

  /** Stepping back from a character boundary leads to the one before. */
  lemma StepsBack(buf: Bytes, chars: seq<int>, k: nat)
    requires Text(chars) && k < |chars| && Enc(chars) <= buf
    ensures Off(chars, k + 1) <= |buf| && Backward(buf, Off(chars, k + 1)) == Off(chars, k)
  {
    hide *;
    ScalarAt(chars, k);
    var p, e := Off(chars, k), Encode(chars[k]);
    CharAt(buf, chars, k);
    EncodeShape(chars[k]);
    TailsStand(buf, p, e);
    BackOver(buf, p, |e|);
  }

  lemma ScalarAt(chars: seq<int>, k: nat)
    requires Text(chars) && k < |chars|
    ensures Scalar(chars[k])
  {
  }

  lemma TailsStand(buf: Bytes, p: nat, e: Bytes)
    requires p + |e| <= |buf| && buf[p..p + |e|] == e
    requires e != [] && !Tail(e[0]) && forall i :: 1 <= i < |e| ==> Tail(e[i])
    ensures !Tail(buf[p]) && forall i :: p < i < p + |e| ==> Tail(buf[i])
  {
    forall i | p <= i < p + |e|
      ensures buf[i] == e[i - p]
    {
      assert buf[p..p + |e|][i - p] == buf[i];
    }
  }

  /** Different lines have different bytes. */
  lemma EncInjective(a: seq<int>, b: seq<int>)
    requires Text(a) && Text(b) && Enc(a) == Enc(b)
    ensures a == b
  {
    hide Enc, Off, Text;
    OffEnds(a);
    OffEnds(b);
    if |a| <= |b| {
      SamePrefix(a, b, |a|);
      if |a| < |b| {
        OffOrdered(b, |a|, |b|);
      }
    } else {
      SamePrefix(b, a, |b|);
      OffOrdered(a, |b|, |a|);
    }
  }

  lemma {:induction false} SamePrefix(a: seq<int>, b: seq<int>, k: nat)
    requires Text(a) && Text(b) && Enc(a) == Enc(b) && k <= |a| && k <= |b|
    ensures a[..k] == b[..k] && Off(a, k) == Off(b, k)
  {
    hide Enc, Text, Encode, GetUtf8;
    if k > 0 {
      SamePrefix(a, b, k - 1);
      ReadsChar(Enc(a), a, k - 1);
      ReadsChar(Enc(a), b, k - 1);
      assert a[..k] == a[..k - 1] + [a[k - 1]] && b[..k] == b[..k - 1] + [b[k - 1]];
    }
  }
}
