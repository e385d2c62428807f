/** What the editing commands do, in terms of characters (llamafile/bestline.c:2764-3333). */
module LineEdits {
  import opened ByteSeq
  import opened Utf8
  import opened LineText
  import opened Mirror

  type Class = int -> bool

  /** The characters of a line, and how many of them stand before the cursor. */
  datatype Line = Line(chars: seq<int>, k: nat)

  predicate Fits(l: Line) {
    Text(l.chars) && l.k <= |l.chars|
  }

  // ----- motion -----

  /** `Forwards`. */
  function SkipRight(chars: seq<int>, m: nat, p: Class): (r: nat)
    requires m <= |chars|
    ensures m <= r <= |chars|
    decreases |chars| - m
  {
    if m < |chars| && p(chars[m]) then SkipRight(chars, m + 1, p) else m
  }

  /** `Backwards`. */
  function SkipLeft(chars: seq<int>, m: nat, p: Class): (r: nat)
    requires m <= |chars|
    ensures r <= m
  {
    if m > 0 && p(chars[m - 1]) then SkipLeft(chars, m - 1, p) else m
  }

  function Not(p: Class): Class { c => !p(c) }

  /** Separators that are no brackets. */
  function Outer(sep: Class): Class {
    c => sep(c) && MirrorLeft(c) == 0 && MirrorRight(c) == 0
  }

  function WordRight(chars: seq<int>, m: nat, sep: Class): (r: nat)
    requires m <= |chars|
    ensures m <= r <= |chars|
  {
    SkipRight(chars, SkipRight(chars, m, sep), Not(sep))
  }

  function WordLeft(chars: seq<int>, m: nat, sep: Class): (r: nat)
    requires m <= |chars|
    ensures r <= m
  {
    SkipLeft(chars, SkipLeft(chars, m, sep), Not(sep))
  }

  function ExprLeft(chars: seq<int>, k: nat, sep: Class): (r: nat)
    requires k <= |chars|
    ensures r <= |chars|
  {
    var m := SkipLeft(chars, k, Outer(sep));
    match LeftMatch(chars, m)
    case At(i) => i
    case Nothing => SkipLeft(chars, m, Not(sep))
  }

  function ExprRight(chars: seq<int>, k: nat, sep: Class): (r: nat)
    requires k <= |chars|
    ensures r <= |chars|
  {
    var m := SkipRight(chars, k, Outer(sep));
    match RightMatch(chars, m)
    case At(j) => j + 1
    case Nothing => SkipRight(chars, m, Not(sep))
  }

  // ----- changes -----

  /** The line with characters `i` to `j` taken out, and the cursor where they were. */
  function Without(chars: seq<int>, i: nat, j: nat): Line
    requires i <= j <= |chars|
  {
    Line(chars[..i] + chars[j..], i)
  }

  function Inserted(l: Line, t: seq<int>): Line
    requires l.k <= |l.chars|
  {
    Line(l.chars[..l.k] + t + l.chars[l.k..], l.k + |t|)
  }

  /** Three neighbouring pieces, the outer two exchanged. */
  function Exchanged(chars: seq<int>, a: nat, b: nat, c: nat, d: nat): seq<int>
    requires a <= b <= c <= d <= |chars|
  {
    chars[..a] + chars[c..d] + chars[b..c] + chars[a..b] + chars[d..]
  }

  /** The character before the cursor and the one behind it change places. */
  function Transposed(l: Line): Line
    requires l.k <= |l.chars| && l.chars != []
  {
    var b := if l.k == |l.chars| then l.k - 1 else l.k;
    if b == 0 then l else Line(Exchanged(l.chars, b - 1, b, b, b + 1), b + 1)
  }

  function Squeezed(l: Line, sep: Class): Line
    requires l.k <= |l.chars|
  {
    Without(l.chars, SkipLeft(l.chars, l.k, sep), SkipRight(l.chars, l.k, sep))
  }

  /** The next word, character for character. */
  function Translated(l: Line, sep: Class, xlat: (int, int) -> int): Line
    requires l.k <= |l.chars|
  {
    var i := SkipRight(l.chars, l.k, sep);
    var j := SkipRight(l.chars, i, Not(sep));
    if i == j then l
    else Line(l.chars[..i] + seq(j - i, n requires 0 <= n < j - i => xlat(n, l.chars[i + n])) + l.chars[j..], j)
  }

  // ----- slurp and barf -----

  /** The first closing bracket from character `m` on that closes nothing opened since. */
  function OutRight(chars: seq<int>, m: nat, open: seq<int>): (f: Found)
    ensures f.At? ==> m <= f.pos < |chars|
    decreases |chars| - m
  {
    if m >= |chars| then Nothing
    else if open != [] then
      OutRight(chars, m + 1, if chars[m] == open[|open| - 1] then open[..|open| - 1] else open)
    else if MirrorRight(chars[m]) != 0 then OutRight(chars, m + 1, open + [MirrorRight(chars[m])])
    else if MirrorLeft(chars[m]) != 0 then At(m)
    else OutRight(chars, m + 1, open)
  }

  /** The end of the item that starts at `m`: the next separator outside brackets. */
  function ItemRight(chars: seq<int>, m: nat, open: seq<int>, sep: Class): (r: nat)
    requires m <= |chars|
    ensures m <= r <= |chars|
    decreases |chars| - m
  {
    if m == |chars| then m
    else if open != [] then
      ItemRight(chars, m + 1, if chars[m] == open[|open| - 1] then open[..|open| - 1] else open, sep)
    else if MirrorRight(chars[m]) != 0 then ItemRight(chars, m + 1, open + [MirrorRight(chars[m])], sep)
    else if sep(chars[m]) then m
    else ItemRight(chars, m + 1, open, sep)
  }

  /** The start of the item that ends at `m`, if a separator stands before it. */
  function ItemLeft(chars: seq<int>, m: nat, open: seq<int>, sep: Class): (f: Found)
    requires m <= |chars|
    ensures f.At? ==> f.pos <= m
  {
    if m == 0 then Nothing
    else if open != [] then
      ItemLeft(chars, m - 1, if chars[m - 1] == open[|open| - 1] then open[..|open| - 1] else open, sep)
    else if MirrorLeft(chars[m - 1]) != 0 then ItemLeft(chars, m - 1, open + [MirrorLeft(chars[m - 1])], sep)
    else if sep(chars[m - 1]) then At(m)
    else ItemLeft(chars, m - 1, open, sep)
  }

  /** The closing bracket around the cursor moves right over the next item. */
  function Slurped(l: Line, sep: Class): Line
    requires l.k <= |l.chars|
  {
    match OutRight(l.chars, l.k, [])
    case Nothing => l
    case At(e) =>
      var q := ItemRight(l.chars, SkipRight(l.chars, e + 1, Outer(sep)), [], sep);
      Line(Exchanged(l.chars, e, e + 1, e + 1, q), l.k)
  }

  /** It moves left over the last item inside. */
  function Barfed(l: Line, sep: Class): Line
    requires l.k <= |l.chars|
  {
    match OutRight(l.chars, l.k, [])
    case Nothing => l
    case At(e) =>
      match ItemLeft(l.chars, SkipLeft(l.chars, e, Outer(sep)), [], sep)
      case Nothing => l
      case At(m) =>
        var p := SkipLeft(l.chars, m, Outer(sep));
        Line(Exchanged(l.chars, p, e, e, e + 1), if l.k > p then l.k + 1 else l.k)
  }

  // ----- what the commands keep -----

  lemma FivePieces(a: seq<int>, b: seq<int>, c: seq<int>, d: seq<int>, e: seq<int>)
    ensures multiset(a + d + c + b + e) == multiset(a + b + c + d + e)
  {
  }

  lemma TextJoin(a: seq<int>, b: seq<int>)
    requires Text(a) && Text(b)
    ensures Text(a + b)
  {
  }

  lemma ExchangedKeeps(chars: seq<int>, a: nat, b: nat, c: nat, d: nat)
    requires a <= b <= c <= d <= |chars|
    ensures |Exchanged(chars, a, b, c, d)| == |chars| && multiset(Exchanged(chars, a, b, c, d)) == multiset(chars)
    ensures Text(chars) ==> Text(Exchanged(chars, a, b, c, d))
  {
    hide Text;
    assert chars == chars[..a] + chars[a..b] + chars[b..c] + chars[c..d] + chars[d..];
    FivePieces(chars[..a], chars[a..b], chars[b..c], chars[c..d], chars[d..]);
    if Text(chars) {
      TextParts(chars, 0, a);
      TextParts(chars, a, b);
      TextParts(chars, b, c);
      TextParts(chars, c, d);
      TextParts(chars, d, |chars|);
      TextJoin(chars[0..a], chars[c..d]);
      TextJoin(chars[0..a] + chars[c..d], chars[b..c]);
      TextJoin(chars[0..a] + chars[c..d] + chars[b..c], chars[a..b]);
      TextJoin(chars[0..a] + chars[c..d] + chars[b..c] + chars[a..b], chars[d..|chars|]);
      assert chars[..a] == chars[0..a] && chars[d..] == chars[d..|chars|];
    }
  }

  lemma ExchangedAfter(chars: seq<int>, a: nat, b: nat, c: nat, d: nat, k: nat)
    requires k <= a <= b <= c <= d <= |chars|
    ensures Exchanged(chars, a, b, c, d)[..k] == chars[..k]
  {
  }

  /** Transposing only moves characters about. */
  lemma TransposedKeeps(l: Line)
    requires Fits(l) && l.chars != []
    ensures Fits(Transposed(l)) && multiset(Transposed(l).chars) == multiset(l.chars)
  {
    var b := if l.k == |l.chars| then l.k - 1 else l.k;
    if b > 0 {
      ExchangedKeeps(l.chars, b - 1, b, b, b + 1);
    }
  }

  /** So does slurping, and the text before the cursor stays. */
  lemma SlurpedKeeps(l: Line, sep: Class)
    requires Fits(l)
    ensures Fits(Slurped(l, sep)) && multiset(Slurped(l, sep).chars) == multiset(l.chars)
    ensures Slurped(l, sep).k == l.k && Slurped(l, sep).chars[..l.k] == l.chars[..l.k]
  {
    hide OutRight, ItemRight, SkipRight, Text, Exchanged;
    match OutRight(l.chars, l.k, []) {
      case Nothing =>
      case At(e) =>
        var q := ItemRight(l.chars, SkipRight(l.chars, e + 1, Outer(sep)), [], sep);
        ExchangedKeeps(l.chars, e, e + 1, e + 1, q);
        ExchangedAfter(l.chars, e, e + 1, e + 1, q, l.k);
    }
  }

  /** So does barfing. */
  lemma BarfedKeeps(l: Line, sep: Class)
    requires Fits(l)
    ensures Fits(Barfed(l, sep)) && multiset(Barfed(l, sep).chars) == multiset(l.chars)
  {
    hide OutRight, ItemLeft, SkipLeft, Text;
    match OutRight(l.chars, l.k, []) {
      case Nothing =>
      case At(e) =>
        match ItemLeft(l.chars, SkipLeft(l.chars, e, Outer(sep)), [], sep) {
          case Nothing =>
          case At(m) => ExchangedKeeps(l.chars, SkipLeft(l.chars, m, Outer(sep)), e, e, e + 1);
        }
    }
  }

  // ----- the same on the bytes -----

  /** A buffer that shows these characters: their bytes, then a NUL. */
  ghost predicate Shows(buf: Bytes, len: nat, chars: seq<int>) {
    Text(chars) && len < |buf| && buf[..len] == Enc(chars) && buf[len] == 0
  }

  /** `memcpy`, and `memmove` from the same buffer. */
  function Put(buf: Bytes, at: nat, data: Bytes): (r: Bytes)
    requires at + |data| <= |buf|
    ensures |r| == |buf|
  {
    buf[..at] + data + buf[at + |data|..]
  }

  lemma EncWithout(chars: seq<int>, a: nat, b: nat)
    requires Text(chars) && a <= b <= |chars|
    ensures Off(chars, a) <= Off(chars, b) <= |Enc(chars)|
    ensures Text(chars[..a] + chars[b..])
    ensures Enc(chars[..a] + chars[b..]) == Enc(chars)[..Off(chars, a)] + Enc(chars)[Off(chars, b)..]
    ensures Off(chars[..a] + chars[b..], a) == Off(chars, a)
  {
    hide Enc;
    OffOrdered(chars, a, b);
    EncSplit(chars, a);
    EncSplit(chars, b);
    EncConcat(chars[..a], chars[b..]);
    assert (chars[..a] + chars[b..])[..a] == chars[..a];
  }

  lemma EncInserted(chars: seq<int>, k: nat, t: seq<int>)
    requires Text(chars) && k <= |chars| && Text(t)
    ensures Off(chars, k) <= |Enc(chars)|
    ensures var c := chars[..k] + t + chars[k..];
      && Text(c) && Enc(c) == Enc(chars)[..Off(chars, k)] + Enc(t) + Enc(chars)[Off(chars, k)..]
      && Off(c, k) == Off(chars, k) && Off(c, k + |t|) == Off(chars, k) + |Enc(t)|
  {
    hide Enc;
    var c := chars[..k] + t + chars[k..];
    EncSplit(chars, k);
    EncConcat(chars[..k], t);
    EncConcat(chars[..k] + t, chars[k..]);
    assert c[..k] == chars[..k] && c[..k + |t|] == chars[..k] + t;
  }

  /** Taking a range out of the buffer, the NUL moving along. */
  lemma PutWithout(buf: Bytes, len: nat, chars: seq<int>, a: nat, b: nat)
    requires Shows(buf, len, chars) && a <= b <= |chars|
    ensures Text(chars) && Off(chars, a) <= Off(chars, b) <= len < |buf|
    ensures var i, j, c := Off(chars, a), Off(chars, b), Without(chars, a, b).chars;
      && Shows(Put(buf, i, buf[j..len + 1]), len - (j - i), c)
      && Text(c) && Without(chars, a, b).k == a <= |c| && Off(c, a) == i
  {
    EncWithout(chars, a, b);
    hide Enc, Off, Text;
    CutBytes(buf, len, Off(chars, a), Off(chars, b));
    assert buf[..len][..Off(chars, a)] == buf[..Off(chars, a)];
    assert buf[..len][Off(chars, b)..] == buf[Off(chars, b)..len];
  }

  lemma CutBytes(buf: Bytes, len: nat, i: nat, j: nat)
    requires i <= j <= len < |buf| && buf[len] == 0
    ensures var t := Put(buf, i, buf[j..len + 1]); t[..len - (j - i)] == buf[..i] + buf[j..len] && t[len - (j - i)] == 0
  {
    assert buf[j..len + 1] == buf[j..len] + [0];
  }

  lemma InsertedFits(l: Line, t: seq<int>)
    requires Text(l.chars) && l.k <= |l.chars| && Text(t)
    ensures Off(l.chars, l.k) <= |Enc(l.chars)|
    ensures var m := Inserted(l, t);
      && Text(m.chars) && l.k <= m.k <= |m.chars|
      && Off(m.chars, l.k) == Off(l.chars, l.k) && Off(m.chars, m.k) == Off(l.chars, l.k) + |Enc(t)|
      && Enc(m.chars) == Enc(l.chars)[..Off(l.chars, l.k)] + Enc(t) + Enc(l.chars)[Off(l.chars, l.k)..]
  {
    EncInserted(l.chars, l.k, t);
  }

  /** The buffer once there is room at `pos`, filled with `p`, and the NUL is back. */
  function RoomFilled(buf: Bytes, len: nat, pos: nat, p: Bytes): (r: Bytes)
    requires pos <= len && len + |p| < |buf|
    ensures |r| == |buf|
  {
    Put(Put(buf, pos + |p|, buf[pos..len]), pos, p)[len + |p| := 0]
  }

  lemma PutInserted(buf: Bytes, len: nat, l: Line, t: seq<int>, p: nat, e: Bytes)
    requires Shows(buf, len, l.chars) && l.k <= |l.chars| && Text(t) && e == Enc(t) && len + |e| < |buf|
    requires p == Off(l.chars, l.k) <= len
    ensures Shows(RoomFilled(buf, len, p, e), len + |e|, Inserted(l, t).chars)
  {
    InsertedFits(l, t);
    InsertedBytes(buf, len, p, e);
    ShowsThat(buf, len, l.chars);
    hide *;
    ShowsIt(RoomFilled(buf, len, p, e), len + |e|, Inserted(l, t).chars);
  }

  lemma ShowsThat(buf: Bytes, len: nat, chars: seq<int>)
    requires Shows(buf, len, chars)
    ensures Text(chars) && len < |buf| && buf[..len] == Enc(chars) && buf[len] == 0
  {
  }

  lemma ShowsIt(buf: Bytes, len: nat, chars: seq<int>)
    requires Text(chars) && len < |buf| && buf[..len] == Enc(chars) && buf[len] == 0
    ensures Shows(buf, len, chars)
  {
  }

  lemma ShowsLonger(a: Bytes, b: Bytes, len: nat, chars: seq<int>)
    requires Shows(a, len, chars) && |a| <= |b| && b[..|a|] == a
    ensures Shows(b, len, chars)
  {
    hide Enc, Text;
    assert b[..len] == b[..|a|][..len];
  }

  lemma InsertedBytes(buf: Bytes, len: nat, pos: nat, p: Bytes)
    requires pos <= len && len + |p| < |buf|
    ensures var t := RoomFilled(buf, len, pos, p);
      t[..len + |p|] == buf[..len][..pos] + p + buf[..len][pos..] && t[len + |p|] == 0
  {
  }

  lemma EncExchanged(chars: seq<int>, a: nat, b: nat, c: nat, d: nat)
    requires Text(chars) && a <= b <= c <= d <= |chars|
    ensures Off(chars, a) <= Off(chars, b) <= Off(chars, c) <= Off(chars, d) <= |Enc(chars)|
    ensures Text(Exchanged(chars, a, b, c, d))
    ensures var s, x := Enc(chars), Exchanged(chars, a, b, c, d);
      && Enc(x) == s[..Off(chars, a)] + s[Off(chars, c)..Off(chars, d)] + s[Off(chars, b)..Off(chars, c)]
           + s[Off(chars, a)..Off(chars, b)] + s[Off(chars, d)..]
  {
    hide Enc;
    ExchangedKeeps(chars, a, b, c, d);
    OffOrdered(chars, a, b);
    OffOrdered(chars, b, c);
    OffOrdered(chars, c, d);
    EncSplit(chars, a);
    EncSplit(chars, d);
    EncSlice(chars, a, b);
    EncSlice(chars, b, c);
    EncSlice(chars, c, d);
    TextParts(chars, 0, a);
    TextParts(chars, a, b);
    TextParts(chars, b, c);
    TextParts(chars, c, d);
    TextParts(chars, d, |chars|);
    assert chars[0..a] == chars[..a] && chars[d..|chars|] == chars[d..];
    EncConcat(chars[..a], chars[c..d]);
    EncConcat(chars[..a] + chars[c..d], chars[b..c]);
    EncConcat(chars[..a] + chars[c..d] + chars[b..c], chars[a..b]);
    EncConcat(chars[..a] + chars[c..d] + chars[b..c] + chars[a..b], chars[d..]);
  }

  /** Where the positions outside the exchanged pieces end up. */
  lemma OffExchanged(chars: seq<int>, a: nat, b: nat, c: nat, d: nat, k: nat)
    requires Text(chars) && a <= b <= c <= d <= |chars| && k <= |chars| && (k <= a || k >= d)
    ensures Text(Exchanged(chars, a, b, c, d)) && Off(Exchanged(chars, a, b, c, d), k) == Off(chars, k)
  {
    var x := Exchanged(chars, a, b, c, d);
    ExchangedKeeps(chars, a, b, c, d);
    if k <= a {
      ExchangedAfter(chars, a, b, c, d, k);
    } else {
      assert x[k..] == chars[k..];
      EncSplit(x, k);
      EncSplit(chars, k);
      EncExchanged(chars, a, b, c, d);
    }
  }

  lemma ExchangedBytes(buf: Bytes, len: nat, i: nat, j: nat, k: nat, l: nat)
    requires i <= j <= k <= l <= len < |buf|
    ensures var t, s := buf[..i] + buf[k..l] + buf[j..k] + buf[i..j] + buf[l..], buf[..len];
      t[..len] == s[..i] + s[k..l] + s[j..k] + s[i..j] + s[l..] && t[len] == buf[len]
  {
  }

  lemma PutOver(buf: Bytes, i: nat, x: Bytes, l: nat)
    requires i + |x| == l <= |buf|
    ensures Put(buf, i, x) == buf[..i] + x + buf[l..]
  {
  }

  /** The three pieces, copied out in the other order and written back. */
  lemma PutPieces(buf: Bytes, len: nat, chars: seq<int>, a: nat, b: nat, c: nat, d: nat, i: nat, j: nat, m: nat, l: nat)
    requires Shows(buf, len, chars) && a <= b <= c <= d <= |chars|
    requires i == Off(chars, a) && j == Off(chars, b) && m == Off(chars, c) && l == Off(chars, d)
    ensures i <= j <= m <= l <= len < |buf|
    ensures Shows(Put(buf, i, buf[m..l] + buf[j..m] + buf[i..j]), len, Exchanged(chars, a, b, c, d))
  {
    ShowsThat(buf, len, chars);
    hide *;
    EncExchanged(chars, a, b, c, d);
    ExchangedBytes(buf, len, i, j, m, l);
    PutOver(buf, i, buf[m..l] + buf[j..m] + buf[i..j], l);
    PiecesAssociate(buf[..i], buf[m..l], buf[j..m], buf[i..j], buf[l..]);
    ShowsIt(Put(buf, i, buf[m..l] + buf[j..m] + buf[i..j]), len, Exchanged(chars, a, b, c, d));
  }

  lemma PiecesAssociate(a: Bytes, b: Bytes, c: Bytes, d: Bytes, e: Bytes)
    ensures a + (b + c + d) + e == a + b + c + d + e
  {
  }

  /** Ending the line at the cursor. */
  lemma PutEnd(buf: Bytes, len: nat, chars: seq<int>, k: nat)
    requires Shows(buf, len, chars) && k <= |chars|
    ensures Text(chars) && Off(chars, k) <= len < |buf|
    ensures Shows(buf[Off(chars, k) := 0], Off(chars, k), chars[..k]) && Off(chars[..k], k) == Off(chars, k)
  {
    ShowsThat(buf, len, chars);
    EncSplit(chars, k);
    TextParts(chars, 0, k);
    assert chars[0..k] == chars[..k] == chars[..k][..k];
    var p := Off(chars, k);
    assert buf[p := 0][..p] == buf[..len][..p];
    ShowsIt(buf[p := 0], p, chars[..k]);
  }

  // ----- when a character is cut in two -----

  lemma {:induction false} EncWellFormed(chars: seq<int>)
    requires Text(chars)
    ensures WellFormed(Enc(chars))
  {
    if chars != [] {
      var n := |chars| - 1;
      EncWellFormed(chars[..n]);
      EncodeWellFormed(chars[n]);
      WellFormedConcat(Enc(chars[..n]), Encode(chars[n]));
    }
  }

  lemma {:induction false} WellFormedRest(a: Bytes, b: Bytes)
    requires WellFormed(a) && WellFormed(a + b)
    ensures WellFormed(b)
  {
    if a == [] {
      assert a + b == b;
    } else {
      CharLenPrefix(a, b);
      assert (a + b)[CharLen(a)..] == a[CharLen(a)..] + b;
      WellFormedRest(a[CharLen(a)..], b);
    }
  }

  /** Text, then a byte that only continues a character: that is no UTF-8. */
  lemma TailFirst(chars: seq<int>, t: byte, rest: Bytes)
    requires Text(chars) && Tail(t)
    ensures !WellFormed(Enc(chars) + ([t] + rest))
  {
    EncWellFormed(chars);
    assert CharLen([t] + rest) == 0;
    if WellFormed(Enc(chars) + ([t] + rest)) {
      WellFormedRest(Enc(chars), [t] + rest);
    }
  }

  // ----- motion over the bytes -----

  /** `Forwards`, from any byte position. */
  function ForwardsFrom(buf: Bytes, pos: nat, len: nat, p: Class): (r: nat)
    requires pos <= len <= |buf|
    ensures pos <= r <= len
    decreases len - pos
  {
    if pos < len && p(GetUtf8(buf, pos, len).c) then ForwardsFrom(buf, pos + GetUtf8(buf, pos, len).n, len, p) else pos
  }

  /** `Backwards`, from any byte position. */
  function BackwardsFrom(buf: Bytes, pos: nat, len: nat, p: Class): (r: nat)
    requires pos <= len <= |buf|
    ensures r <= pos
  {
    if pos > 0 && p(GetUtf8(buf, Backward(buf, pos), len).c) then BackwardsFrom(buf, Backward(buf, pos), len, p)
    else pos
  }

  /** From a character boundary they skip whole characters. */
  lemma {:induction false} ForwardsIs(buf: Bytes, len: nat, chars: seq<int>, m: nat, p: Class)
    requires Text(chars) && Enc(chars) <= buf && len == |Enc(chars)| && m <= |chars|
    ensures Off(chars, m) <= len && ForwardsFrom(buf, Off(chars, m), len, p) == Off(chars, SkipRight(chars, m, p))
    decreases |chars| - m
  {
    hide Enc, Off, Encode, GetUtf8;
    ReadsAt(buf, chars, m);
    if m < |chars| && p(chars[m]) {
      ForwardsIs(buf, len, chars, m + 1, p);
    }
  }

  lemma {:induction false} BackwardsIs(buf: Bytes, len: nat, chars: seq<int>, m: nat, p: Class)
    requires Text(chars) && Enc(chars) <= buf && len == |Enc(chars)| && m <= |chars|
    ensures Off(chars, m) <= len && BackwardsFrom(buf, Off(chars, m), len, p) == Off(chars, SkipLeft(chars, m, p))
  {
    hide Enc, Off, Encode, GetUtf8, Backward;
    BackAt(buf, chars, m);
    if m > 0 {
      ReadsAt(buf, chars, m - 1);
      OffOrdered(chars, 0, m);
      if p(chars[m - 1]) {
        BackwardsIs(buf, len, chars, m - 1, p);
      }
    } else {
      OffEnds(chars);
    }
  }

  // ----- transposing words -----

  /** `EscapeWord`: on to the end of the word. The step is as wide as the character before the position, not as the
      one behind it. */
  function EscapeWord(buf: Bytes, i: nat, len: nat, sep: Class): (r: nat)
    requires i <= len <= |buf|
    ensures i <= r <= len
    decreases len - i
  {
    if i == 0 || i == len || sep(GetUtf8(buf, i, len).c) then i
    else
      var r := GetUtf8(buf, Backward(buf, i), len);
      if sep(r.c) then i else if i + r.n <= len then EscapeWord(buf, i + r.n, len, sep) else len
  }

  /** The positions `bestlineEditTransposeWords` works out: where the two words start and end. */
  function Words(buf: Bytes, pos: nat, len: nat, sep: Class): (w: (nat, nat, nat, nat))
    requires pos <= len <= |buf|
    ensures w.0 <= w.1 && w.2 <= w.3 <= len && w.1 <= w.2
  {
    var i := if pos == len then BackwardsFrom(buf, BackwardsFrom(buf, pos, len, sep), len, Not(sep)) else pos;
    var pi := EscapeWord(buf, i, len, sep);
    var xj := BackwardsFrom(buf, pi, len, sep);
    var yi := ForwardsFrom(buf, pi, len, sep);
    (BackwardsFrom(buf, xj, len, Not(sep)), xj, yi, ForwardsFrom(buf, yi, len, Not(sep)))
  }

  predicate TwoWords(w: (nat, nat, nat, nat)) {
    w.0 < w.1 < w.2 < w.3
  }

  /** The buffer afterwards. */
  function WordsSwapped(buf: Bytes, pos: nat, len: nat, sep: Class): (r: Bytes)
    requires pos <= len <= |buf|
    ensures |r| == |buf|
  {
    var w := Words(buf, pos, len, sep);
    if TwoWords(w) then Put(buf, w.0, buf[w.2..w.3] + buf[w.1..w.2] + buf[w.0..w.1]) else buf
  }

  /** The escape from the cursor ends in front of character `m`. */
  ghost predicate EscapesTo(buf: Bytes, len: nat, l: Line, sep: Class, m: nat)
    requires Text(l.chars) && l.k <= |l.chars| && Off(l.chars, l.k) <= len <= |buf|
  {
    var i := Off(l.chars, l.k);
    && m <= |l.chars|
    && EscapeWord(buf,
                  if i == len then BackwardsFrom(buf, BackwardsFrom(buf, i, len, sep), len, Not(sep)) else i,
                  len, sep)
       == Off(l.chars, m)
  }

  /** The words on both sides of character `m`, as characters. */
  function CharWords(chars: seq<int>, m: nat, sep: Class): (w: (nat, nat, nat, nat))
    requires m <= |chars|
    ensures w.0 <= w.1 <= w.2 <= w.3 <= |chars|
  {
    var xj, yi := SkipLeft(chars, m, sep), SkipRight(chars, m, sep);
    (SkipLeft(chars, xj, Not(sep)), xj, yi, SkipRight(chars, yi, Not(sep)))
  }

  /** The two words exchanged, the cursor behind the second one. */
  function WordsTransposed(l: Line, m: nat, sep: Class): Line
    requires m <= |l.chars|
  {
    var w := CharWords(l.chars, m, sep);
    if TwoWords(w) then Line(Exchanged(l.chars, w.0, w.1, w.2, w.3), w.3) else l
  }

  lemma WordsAt(buf: Bytes, len: nat, l: Line, sep: Class, m: nat)
    requires Shows(buf, len, l.chars) && Fits(l) && Off(l.chars, l.k) <= len && EscapesTo(buf, len, l, sep, m)
    ensures var w := CharWords(l.chars, m, sep);
      && Words(buf, Off(l.chars, l.k), len, sep)
         == (Off(l.chars, w.0), Off(l.chars, w.1), Off(l.chars, w.2), Off(l.chars, w.3))
      && (TwoWords(Words(buf, Off(l.chars, l.k), len, sep)) <==> TwoWords(w))
  {
    ShowsThat(buf, len, l.chars);
    var chars, w := l.chars, CharWords(l.chars, m, sep);
    hide Enc, Off, Text, Shows, SkipLeft, SkipRight, BackwardsFrom, ForwardsFrom, EscapeWord;
    BackwardsIs(buf, len, chars, m, sep);
    ForwardsIs(buf, len, chars, m, sep);
    BackwardsIs(buf, len, chars, w.1, Not(sep));
    ForwardsIs(buf, len, chars, w.2, Not(sep));
    OffOrdered(chars, w.0, w.1);
    OffOrdered(chars, w.1, w.2);
    OffOrdered(chars, w.2, w.3);
  }

  // ----- which byte positions are between two characters -----

  /** The character that byte `p` is the first byte of, or is inside of, among the first `n`. */
  function IndexOf(chars: seq<int>, n: nat, p: nat): (m: nat)
    requires Text(chars) && n <= |chars|
    ensures m <= n
  {
    if n == 0 || Off(chars, n) <= p then n else IndexOf(chars, n - 1, p)
  }

  lemma {:induction false} IndexOff(chars: seq<int>, n: nat, m: nat)
    requires Text(chars) && m <= n <= |chars|
    ensures IndexOf(chars, n, Off(chars, m)) == m
  {
    hide Off;
    OffOrdered(chars, m, n);
    if m < n {
      IndexOff(chars, n - 1, m);
    }
  }

  /** Byte `p` is in front of a character if and only if it does not continue one. */
  lemma {:induction false} BoundaryIs(buf: Bytes, chars: seq<int>, n: nat, p: nat)
    requires Text(chars) && Enc(chars) <= buf && n <= |chars| && p <= Off(chars, n)
    ensures Off(chars, n) <= |Enc(chars)|
    ensures Off(chars, IndexOf(chars, n, p)) == p <==> p == |Enc(chars)| || !Tail(buf[p])
  {
    hide Enc, Off, Encode;
    OffEnds(chars);
    OffOrdered(chars, n, |chars|);
    if p == Off(chars, n) {
      if n < |chars| {
        OffOrdered(chars, n, n + 1);
        CharStarts(buf, chars, n, p);
      }
    } else if p < Off(chars, n - 1) {
      BoundaryIs(buf, chars, n - 1, p);
    } else {
      CharStarts(buf, chars, n - 1, p);
    }
  }

  lemma CharStarts(buf: Bytes, chars: seq<int>, m: nat, p: nat)
    requires Text(chars) && Enc(chars) <= buf && m < |chars| && Off(chars, m) <= p < Off(chars, m + 1)
    ensures p < |Enc(chars)| && (Tail(buf[p]) <==> p > Off(chars, m))
  {
    hide Enc, Off, Encode;
    CharAt(buf, chars, m);
    EncodeShape(chars[m]);
    assert buf[Off(chars, m)..Off(chars, m + 1)][p - Off(chars, m)] == buf[p];
  }

  /** A step back never ends inside a character. */
  lemma {:induction false} BackBoundary(buf: Bytes, p: nat)
    requires 0 < p <= |buf| && !Tail(buf[0])
    ensures !Tail(buf[Backward(buf, p)])
  {
    if p - 1 > 0 && Tail(buf[p - 1]) {
      BackBoundary(buf, p - 1);
    }
  }

  lemma {:induction false} BackwardsBoundary(buf: Bytes, pos: nat, len: nat, p: Class)
    requires pos <= len <= |buf| && len > 0 && !Tail(buf[0]) && BackwardsFrom(buf, pos, len, p) < pos
    ensures !Tail(buf[BackwardsFrom(buf, pos, len, p)])
  {
    hide GetUtf8, Backward;
    var i := Backward(buf, pos);
    BackBoundary(buf, pos);
    if BackwardsFrom(buf, i, len, p) < i {
      BackwardsBoundary(buf, i, len, p);
    }
  }

  /** The two words as characters, given where their bytes are. */
  function IndexWords(chars: seq<int>, w: (nat, nat, nat, nat)): (v: (nat, nat, nat, nat))
    requires Text(chars)
  {
    (IndexOf(chars, |chars|, w.0), IndexOf(chars, |chars|, w.1), IndexOf(chars, |chars|, w.2),
      IndexOf(chars, |chars|, w.3))
  }

  /** Neither the end of the first word nor the start of the second is inside a character. */
  predicate CutsNothing(buf: Bytes, w: (nat, nat, nat, nat)) {
    w.1 < |buf| && w.2 < |buf| && !Tail(buf[w.1]) && !Tail(buf[w.2])
  }

  /** The line when those bytes change places and are whole characters, the cursor behind the second word. */
  function WordsMoved(l: Line, w: (nat, nat, nat, nat)): Line
    requires Text(l.chars)
  {
    var v := IndexWords(l.chars, w);
    if TwoWords(w) && v.0 <= v.1 <= v.2 <= v.3 then Line(Exchanged(l.chars, v.0, v.1, v.2, v.3), v.3) else l
  }

  /** The first word starts in front of a character; the second one ends so, if it starts so. */
  lemma OuterEnds(buf: Bytes, len: nat, chars: seq<int>, pos: nat, sep: Class)
    requires Shows(buf, len, chars) && pos <= len && TwoWords(Words(buf, pos, len, sep))
    ensures var w, v := Words(buf, pos, len, sep), IndexWords(chars, Words(buf, pos, len, sep));
      && Text(chars) && Off(chars, v.0) == w.0 && (!Tail(buf[w.2]) ==> Off(chars, v.2) == w.2 && Off(chars, v.3) == w.3)
  {
    ShowsThat(buf, len, chars);
    var n := |chars|;
    OffEnds(chars);
    FirstByte(buf, chars, len);
    hide Enc, Off, Shows, GetUtf8, IndexOf, BackwardsFrom, ForwardsFrom, EscapeWord, SkipRight;
    var w := Words(buf, pos, len, sep);
    BackwardsBoundary(buf, w.1, len, Not(sep));
    BoundaryIs(buf, chars, n, w.0);
    if !Tail(buf[w.2]) {
      BoundaryIs(buf, chars, n, w.2);
      ForwardsIs(buf, len, chars, IndexOf(chars, n, w.2), Not(sep));
      IndexOff(chars, n, SkipRight(chars, IndexOf(chars, n, w.2), Not(sep)));
    }
  }

  lemma FirstByte(buf: Bytes, chars: seq<int>, len: nat)
    requires Text(chars) && Enc(chars) <= buf && len == |Enc(chars)|
    ensures len > 0 ==> !Tail(buf[0])
  {
    hide Enc, Off;
    OffEnds(chars);
    if |chars| > 0 {
      OffOrdered(chars, 0, 1);
      CharStarts(buf, chars, 0, 0);
    }
  }

  /** When no character is cut, whole characters change places. */
  lemma WholeWordsMove(buf: Bytes, len: nat, l: Line, pos: nat, sep: Class)
    requires Shows(buf, len, l.chars) && Fits(l) && pos == Off(l.chars, l.k) <= len
    requires TwoWords(Words(buf, pos, len, sep)) ==> CutsNothing(buf, Words(buf, pos, len, sep))
    ensures var w, x := Words(buf, pos, len, sep), WordsMoved(l, Words(buf, pos, len, sep));
      && len <= |buf| && Shows(WordsSwapped(buf, pos, len, sep), len, x.chars)
      && Fits(x) && multiset(x.chars) == multiset(l.chars) && Off(x.chars, x.k) == (if TwoWords(w) then w.3 else pos)
  {
    var chars, w, v := l.chars, Words(buf, pos, len, sep), IndexWords(l.chars, Words(buf, pos, len, sep));
    ShowsThat(buf, len, chars);
    hide Enc, Off, Shows, Words, Exchanged, Put, IndexOf, Text;
    if TwoWords(w) {
      OffEnds(chars);
      OuterEnds(buf, len, chars, pos, sep);
      BoundaryIs(buf, chars, |chars|, w.1);
      OffInOrder(chars, v.0, v.1);
      OffInOrder(chars, v.1, v.2);
      OffInOrder(chars, v.2, v.3);
      PutPieces(buf, len, chars, v.0, v.1, v.2, v.3, w.0, w.1, w.2, w.3);
      OffExchanged(chars, v.0, v.1, v.2, v.3, v.3);
      ExchangedKeeps(chars, v.0, v.1, v.2, v.3);
    }
  }

  lemma OffInOrder(chars: seq<int>, i: nat, j: nat)
    requires Text(chars) && i <= |chars| && j <= |chars| && Off(chars, i) < Off(chars, j)
    ensures i < j
  {
    hide Off;
    if j <= i {
      OffOrdered(chars, j, i);
    }
  }

  lemma SwappedBytes(buf: Bytes, len: nat, i: nat, j: nat, m: nat, l: nat)
    requires i <= j <= m <= l <= len < |buf|
    ensures var t, s := Put(buf, i, buf[m..l] + buf[j..m] + buf[i..j])[..len], buf[..len];
      t == s[..i] + s[m..l] + s[j..m] + s[i..j] + s[l..]
  {
  }

  lemma CutFromTheFront(s: Bytes, i: nat, j: nat, m: nat, l: nat)
    requires i < j < m < l <= |s|
    ensures var t := s[..i] + s[m..l] + s[j..m] + s[i..j] + s[l..];
      && t == s[..i] + ([s[m]] + (s[m + 1..l] + s[j..m] + s[i..j] + s[l..]))
      && t == s[..i] + s[m..l] + ([s[j]] + (s[j + 1..m] + s[i..j] + s[l..]))
  {
    assert s[m..l] == [s[m]] + s[m + 1..l];
    assert s[j..m] == [s[j]] + s[j + 1..m];
  }

  /** Whole characters, then whole characters of a slice, then a byte that continues one. */
  lemma TailBehind(chars: seq<int>, s: Bytes, a: nat, c: nat, d: nat, t: byte, rest: Bytes)
    requires Text(chars) && s == Enc(chars) && a <= |chars| && c <= d <= |chars| && Tail(t)
    ensures Off(chars, a) <= |s| && Off(chars, c) <= Off(chars, d) <= |s|
    ensures !WellFormed(s[..Off(chars, a)] + ([t] + rest))
    ensures !WellFormed(s[..Off(chars, a)] + s[Off(chars, c)..Off(chars, d)] + ([t] + rest))
  {
    hide Enc, Off, WellFormed, Text;
    TextParts(chars, 0, a);
    TextParts(chars, c, d);
    assert chars[0..a] == chars[..a];
    EncSplit(chars, a);
    EncSlice(chars, c, d);
    EncConcat(chars[..a], chars[c..d]);
    TailFirst(chars[..a], t, rest);
    TailFirst(chars[..a] + chars[c..d], t, rest);
  }

  /** Otherwise a byte that continues a character ends up behind whole ones. */
  lemma CutPiecesBreak(chars: seq<int>, s: Bytes, a: nat, c: nat, d: nat, i: nat, j: nat, m: nat, l: nat)
    requires Text(chars) && s == Enc(chars) && a <= |chars| && i == Off(chars, a) && i < j < m < l <= |s|
    requires Tail(s[m]) || (Tail(s[j]) && c <= d <= |chars| && m == Off(chars, c) && l == Off(chars, d))
    ensures !WellFormed(s[..i] + s[m..l] + s[j..m] + s[i..j] + s[l..])
  {
    hide *;
    CutFromTheFront(s, i, j, m, l);
    if Tail(s[m]) {
      TailBehind(chars, s, a, a, a, s[m], s[m + 1..l] + s[j..m] + s[i..j] + s[l..]);
    } else {
      TailBehind(chars, s, a, c, d, s[j], s[j + 1..m] + s[i..j] + s[l..]);
    }
  }

  lemma CutWordsBreak(buf: Bytes, len: nat, chars: seq<int>, pos: nat, sep: Class)
    requires Shows(buf, len, chars) && pos <= len && TwoWords(Words(buf, pos, len, sep))
    requires !CutsNothing(buf, Words(buf, pos, len, sep))
    ensures len <= |buf| && !WellFormed(WordsSwapped(buf, pos, len, sep)[..len])
  {
    var w, v := Words(buf, pos, len, sep), IndexWords(chars, Words(buf, pos, len, sep));
    ShowsThat(buf, len, chars);
    OuterEnds(buf, len, chars, pos, sep);
    if !Tail(buf[w.2]) {
      OffInOrder(chars, v.2, v.3);
    }
    hide Enc, Off, Shows, Words, IndexOf, Text, WellFormed, Put;
    SwappedBytes(buf, len, w.0, w.1, w.2, w.3);
    CutPiecesBreak(chars, buf[..len], v.0, v.2, v.3, w.0, w.1, w.2, w.3);
  }

  /** Transposing words leaves a line of UTF-8 if and only if, when words are exchanged at all, neither the end of
      the first nor the start of the second is inside a character. */
  lemma TransposingWordsKeepsUtf8(buf: Bytes, len: nat, l: Line, pos: nat, sep: Class)
    requires Shows(buf, len, l.chars) && Fits(l) && pos == Off(l.chars, l.k) <= len
    ensures len <= |buf|
    ensures WellFormed(WordsSwapped(buf, pos, len, sep)[..len])
      <==> (TwoWords(Words(buf, pos, len, sep)) ==> CutsNothing(buf, Words(buf, pos, len, sep)))
  {
    hide Enc, Off, Words, WellFormed, WordsMoved, CutsNothing, Text;
    if TwoWords(Words(buf, pos, len, sep)) && !CutsNothing(buf, Words(buf, pos, len, sep)) {
      CutWordsBreak(buf, len, l.chars, pos, sep);
    } else {
      WholeWordsMove(buf, len, l, pos, sep);
      EncWellFormed(WordsMoved(l, Words(buf, pos, len, sep)).chars);
    }
  }

  /** When the escape ends between two characters none is cut, and the words around that place change places. */
  lemma SwappedBetween(buf: Bytes, len: nat, l: Line, sep: Class, m: nat)
    requires Shows(buf, len, l.chars) && Fits(l) && Off(l.chars, l.k) <= len && EscapesTo(buf, len, l, sep, m)
    ensures m <= |l.chars| && len <= |buf|
    ensures var w := Words(buf, Off(l.chars, l.k), len, sep);
      (TwoWords(w) ==> CutsNothing(buf, w)) && WordsMoved(l, w) == WordsTransposed(l, m, sep)
  {
    var chars, v, w := l.chars, CharWords(l.chars, m, sep), Words(buf, Off(l.chars, l.k), len, sep);
    WordsAt(buf, len, l, sep, m);
    ShowsThat(buf, len, chars);
    hide Enc, Off, Shows, CharWords, Words, Exchanged, IndexOf, Text;
    if TwoWords(w) {
      IndexOff(chars, |chars|, v.0);
      IndexOff(chars, |chars|, v.1);
      IndexOff(chars, |chars|, v.2);
      IndexOff(chars, |chars|, v.3);
      OffEnds(chars);
      BoundaryIs(buf, chars, |chars|, w.1);
      BoundaryIs(buf, chars, |chars|, w.2);
    }
  }

  /** Transposing words only moves characters about, when it moves whole ones. */
  lemma WordsTransposedKeeps(l: Line, m: nat, sep: Class)
    requires Fits(l) && m <= |l.chars|
    ensures Fits(WordsTransposed(l, m, sep)) && multiset(WordsTransposed(l, m, sep).chars) == multiset(l.chars)
  {
    hide SkipLeft, SkipRight, Exchanged;
    var w := CharWords(l.chars, m, sep);
    ExchangedKeeps(l.chars, w.0, w.1, w.2, w.3);
  }

  /** All characters take the same number of bytes, as in plain ASCII. */
  ghost predicate Uniform(chars: seq<int>, w: nat)
    requires Text(chars)
  {
    forall i :: 0 <= i < |chars| ==> |Encode(chars[i])| == w
  }

  lemma {:induction false} EscapeStays(buf: Bytes, len: nat, chars: seq<int>, k: nat, sep: Class, w: nat)
    returns (m: nat)
    requires Text(chars) && Enc(chars) <= buf && len == |Enc(chars)| && k <= |chars| && Uniform(chars, w)
    ensures m <= |chars| && Off(chars, k) <= len && EscapeWord(buf, Off(chars, k), len, sep) == Off(chars, m)
    decreases |chars| - k
  {
    hide Enc, Off, Encode, GetUtf8, Backward;
    ReadsAt(buf, chars, k);
    BackAt(buf, chars, k);
    OffEnds(chars);
    m := k;
    if 0 < k < |chars| {
      OffOrdered(chars, 0, k);
      ReadsAt(buf, chars, k - 1);
      if !sep(chars[k]) && !sep(chars[k - 1]) {
        ReadsAt(buf, chars, k + 1);
        m := EscapeStays(buf, len, chars, k + 1, sep, w);
      }
    }
  }

  /** On such a line the escape always ends between two characters. */
  lemma UniformEscapes(buf: Bytes, len: nat, l: Line, sep: Class, w: nat) returns (m: nat)
    requires Shows(buf, len, l.chars) && Fits(l) && Uniform(l.chars, w)
    ensures Off(l.chars, l.k) <= len && EscapesTo(buf, len, l, sep, m)
  {
    ShowsThat(buf, len, l.chars);
    hide Enc, Off, EscapeWord, BackwardsFrom, SkipLeft, Text;
    OffEnds(l.chars);
    OffOrdered(l.chars, l.k, |l.chars|);
    var n := |l.chars|;
    var i := SkipLeft(l.chars, n, sep);
    BackwardsIs(buf, len, l.chars, n, sep);
    BackwardsIs(buf, len, l.chars, i, Not(sep));
    var from := if Off(l.chars, l.k) == len then SkipLeft(l.chars, i, Not(sep)) else l.k;
    m := EscapeStays(buf, len, l.chars, from, sep, w);
  }

  /** Letters and digits of ASCII, and U+00E9, are no separators; U+00A9 is one
      (llamafile/bestline.c:541-545, 559-560). */
  function SomeSeparators(): Class {
    c => !(97 <= c <= 122 || c == 0xE9)
  }

  /** Otherwise it need not: transposing words before the second character of "a\u00e9b" cuts that character in two. */
  lemma WordsCutACharacter()
    ensures var chars, buf := [97, 0xE9, 98], [97, 0xC3, 0xA9, 98, 0];
      && Shows(buf, 4, chars) && Off(chars, 1) == 1
      && !WellFormed(WordsSwapped(buf, 1, 4, SomeSeparators())[..4])
  {
    AccentBytes();
    AccentEscapes();
    var buf: Bytes := [97, 0xC3, 0xA9, 98, 0];
    var w := Words(buf, 1, 4, SomeSeparators());
    assert w == (0, 2, 3, 4);
    assert WordsSwapped(buf, 1, 4, SomeSeparators()) == [98, 0xA9, 97, 0xC3, 0];
    assert [98, 0xA9, 97, 0xC3, 0][..4][1..] == [0xA9, 97, 0xC3];
  }

  lemma AccentBytes()
    ensures Text([97, 0xE9, 98]) && Enc([97, 0xE9, 98]) == [97, 0xC3, 0xA9, 98] && Off([97, 0xE9, 98], 1) == 1
  {
    EncOne(97);
    EncOne(0xE9);
    EncOne(98);
    EncConcat([97], [0xE9]);
    EncConcat([97] + [0xE9], [98]);
    assert [97] + [0xE9] + [98] == [97, 0xE9, 98] && [97, 0xE9, 98][..1] == [97];
  }

  lemma AccentEscapes()
    ensures EscapeWord([97, 0xC3, 0xA9, 98, 0], 1, 4, SomeSeparators()) == 2
  {
    var buf: Bytes := [97, 0xC3, 0xA9, 98, 0];
    assert Continue(buf, 3, 4, 0xE9, 2) == Rune(0xE9, 2);
    assert GetUtf8(buf, 1, 4) == Rune(0xE9, 2);
    assert GetUtf8(buf, 0, 4) == Rune(97, 1);
    assert GetUtf8(buf, 2, 4) == Rune(0xA9, 1);
  }

  // ----- yanking, transposing, slurping and barfing, on the bytes -----

  lemma YankIsRoom(buf: Bytes, len: nat, pos: nat, p: Bytes)
    requires pos <= len && len + |p| < |buf| && buf[len] == 0
    ensures Put(Put(buf, pos, p), pos + |p|, buf[pos..len + 1]) == RoomFilled(buf, len, pos, p)
    ensures RoomFilled(buf, len, pos, p)[..len + |p|] == buf[..pos] + p + buf[pos..len]
  {
    var all, n := buf[..pos] + p + buf[pos..len] + [0] + buf[len + |p| + 1..], |p|;
    assert buf[pos..len + 1] == buf[pos..len] + [0];
    assert Put(buf, pos + n, buf[pos..len]) == buf[..pos + n] + buf[pos..len] + buf[len + n..];
    assert RoomFilled(buf, len, pos, p) == all;
    assert Put(Put(buf, pos, p), pos + n, buf[pos..len + 1]) == all;
    assert all[..len + n] == buf[..pos] + p + buf[pos..len];
  }

  /** Whether transposing takes a whole character at the end of the line: it looks one byte back. */
  predicate TransposesWhole(l: Line)
    requires l.k <= |l.chars| && l.chars != []
  {
    l.k < |l.chars| || l.chars[|l.chars| - 1] <= 0x7F
  }

  lemma OneByte(c: int)
    requires Scalar(c)
    ensures |Encode(c)| == 1 <==> c <= 0x7F
  {
  }

  lemma TwoPieces(a: Bytes, b: Bytes)
    ensures a + [] + b == a + b
  {
  }

  /** Two neighbouring pieces copied over each other's place in two steps. */
  lemma TwoPuts(buf: Bytes, i: nat, x: Bytes, y: Bytes)
    requires i + |x| + |y| <= |buf|
    ensures Put(Put(buf, i, x), i + |x|, y) == Put(buf, i, x + y)
    ensures Put(Put(buf, i + |x|, y), i, x) == Put(buf, i, x + y)
  {
  }

  /** Neighbouring pieces `chars[a..b]` and `chars[b..c]`, exchanged. */
  lemma PutNeighbours(buf: Bytes, len: nat, chars: seq<int>, a: nat, b: nat, c: nat, i: nat, j: nat, l: nat)
    requires Shows(buf, len, chars) && a <= b <= c <= |chars|
    requires i == Off(chars, a) && j == Off(chars, b) && l == Off(chars, c)
    ensures i <= j <= l <= len < |buf|
    ensures Shows(Put(buf, i, buf[j..l] + buf[i..j]), len, Exchanged(chars, a, b, b, c))
  {
    hide *;
    PutPieces(buf, len, chars, a, b, b, c, i, j, j, l);
    NothingBetween(buf, j);
    TwoPieces(buf[j..l], buf[i..j]);
  }

  lemma NothingBetween(buf: Bytes, j: nat)
    requires j <= |buf|
    ensures buf[j..j] == []
  {
  }

  lemma TransposedIs(l: Line)
    requires Fits(l) && l.chars != []
    ensures var m := if l.k == |l.chars| then l.k - 1 else l.k;
      && (m == 0 ==> Transposed(l) == l)
      && (m > 0 ==> var x := Exchanged(l.chars, m - 1, m, m, m + 1);
                    Transposed(l) == Line(x, m + 1) && Text(x) && |x| == |l.chars|)
  {
    var m := if l.k == |l.chars| then l.k - 1 else l.k;
    if m > 0 {
      ExchangedKeeps(l.chars, m - 1, m, m, m + 1);
    }
  }

  /** At the end of the line, behind a character of several bytes, its last byte changes places with its first ones. */
  lemma LastCharSplits(buf: Bytes, len: nat, chars: seq<int>)
    requires Shows(buf, len, chars) && chars != [] && chars[|chars| - 1] > 0x7F
    ensures var n := |chars| - 1;
      && Text(chars) && Off(chars, n) < len - 1 < len < |buf| && Backward(buf, len - 1) == Off(chars, n)
      && Forward(buf, len - 1, len) == len
      && !WellFormed(Put(buf, Off(chars, n), buf[len - 1..len] + buf[Off(chars, n)..len - 1])[..len])
  {
    ShowsThat(buf, len, chars);
    var n := |chars| - 1;
    var a := Off(chars, n);
    OffEnds(chars);
    CharAt(buf, chars, n);
    EncodeShape(chars[n]);
    OneByte(chars[n]);
    hide Enc, Off, Encode, WellFormed, Put;
    LastBytes(buf, a, len, Encode(chars[n]));
    BackOver(buf, a, len - 1 - a);
    SplitResult(buf, len, chars, n);
  }

  lemma LastBytes(buf: Bytes, a: nat, len: nat, e: Bytes)
    requires a + |e| == len <= |buf| && buf[a..len] == e
    requires |e| > 1 && !Tail(e[0]) && forall i :: 1 <= i < |e| ==> Tail(e[i])
    ensures !Tail(buf[a]) && forall i :: a < i < len ==> Tail(buf[i])
  {
    forall i | a <= i < len
      ensures buf[i] == e[i - a]
    {
      assert buf[a..len][i - a] == buf[i];
    }
  }

  lemma SplitResult(buf: Bytes, len: nat, chars: seq<int>, n: nat)
    requires Shows(buf, len, chars) && n < |chars| && Text(chars) && Off(chars, n) < len - 1 && Tail(buf[len - 1])
    ensures !WellFormed(Put(buf, Off(chars, n), buf[len - 1..len] + buf[Off(chars, n)..len - 1])[..len])
  {
    ShowsThat(buf, len, chars);
    hide *;
    EncSplit(chars, n);
    TextParts(chars, 0, n);
    FrontSlice(chars, n);
    SplitBytes(buf, len, Off(chars, n));
    TailFirst(chars[..n], buf[len - 1], buf[Off(chars, n)..len - 1]);
  }

  lemma FrontSlice(chars: seq<int>, n: nat)
    requires n <= |chars|
    ensures chars[0..n] == chars[..n]
  {
  }

  lemma SplitBytes(buf: Bytes, len: nat, a: nat)
    requires a < len - 1 < len <= |buf|
    ensures Put(buf, a, buf[len - 1..len] + buf[a..len - 1])[..len]
      == buf[..len][..a] + ([buf[len - 1]] + buf[a..len - 1])
  {
    assert buf[len - 1..len] == [buf[len - 1]];
    assert buf[..len][..a] == buf[..a];
  }

  /** Which character transposing takes first. */
  function TransposeFrom(l: Line): nat
    requires l.k <= |l.chars| && l.chars != []
  {
    if l.k == |l.chars| then l.k - 1 else l.k
  }

  /** The code's byte positions, when it takes whole characters. */
  lemma TransposePositions(buf: Bytes, len: nat, l: Line)
    requires Shows(buf, len, l.chars) && Fits(l) && l.chars != [] && TransposesWhole(l)
    ensures 0 < len < |buf| && Off(l.chars, l.k) <= len
    ensures var b, m := if Off(l.chars, l.k) == len then len - 1 else Off(l.chars, l.k), TransposeFrom(l);
      && b == Off(l.chars, m) < len && Forward(buf, b, len) == Off(l.chars, m + 1) <= len
      && Backward(buf, b) == Off(l.chars, if m > 0 then m - 1 else 0) && (Backward(buf, b) == b <==> m == 0)
  {
    var chars, m := l.chars, TransposeFrom(l);
    ShowsThat(buf, len, chars);
    OneByte(chars[m]);
    assert m == if l.k == |chars| then l.k - 1 else l.k;
    WholeMeans(l);
    hide *;
    OffEnds(chars);
    OffOrdered(chars, 0, |chars|);
    OffNext(chars, m);
    ReadsAt(buf, chars, l.k);
    TransposeReads(buf, len, chars, m);
  }

  lemma TransposeReads(buf: Bytes, len: nat, chars: seq<int>, m: nat)
    requires Text(chars) && Enc(chars) <= buf && len == |Enc(chars)| && m < |chars|
    ensures Off(chars, m) < len && Forward(buf, Off(chars, m), len) == Off(chars, m + 1) <= len
    ensures Backward(buf, Off(chars, m)) == Off(chars, if m > 0 then m - 1 else 0)
    ensures Backward(buf, Off(chars, m)) == Off(chars, m) <==> m == 0
  {
    hide *;
    ReadsAt(buf, chars, m);
    ReadsAt(buf, chars, m + 1);
    BackAt(buf, chars, m);
    ForwardAt(buf, Off(chars, m), len);
    if m > 0 {
      OffOrdered(chars, m - 1, m);
    }
  }

  lemma TransposeAt(buf: Bytes, len: nat, l: Line)
    requires Shows(buf, len, l.chars) && Fits(l) && l.chars != [] && TransposeFrom(l) > 0
    ensures var m, x := TransposeFrom(l), Transposed(l);
      var a, b, c := Off(l.chars, m - 1), Off(l.chars, m), Off(l.chars, m + 1);
      && a < b < c <= len < |buf| && Shows(Put(buf, a, buf[b..c] + buf[a..b]), len, x.chars)
      && x.k <= |x.chars| && Text(x.chars) && c == Off(x.chars, x.k)
  {
    var chars, m := l.chars, TransposeFrom(l);
    TransposedIs(l);
    ShowsThat(buf, len, chars);
    hide *;
    PutNeighbours(buf, len, chars, m - 1, m, m + 1, Off(chars, m - 1), Off(chars, m), Off(chars, m + 1));
    OffExchanged(chars, m - 1, m, m, m + 1, m + 1);
    OffOrdered(chars, m - 1, m);
    OffOrdered(chars, m, m + 1);
  }

  lemma ForwardAt(buf: Bytes, pos: nat, len: nat)
    requires pos <= len <= |buf|
    ensures Forward(buf, pos, len) == pos + GetUtf8(buf, pos, len).n
  {
  }

  lemma WholeMeans(l: Line)
    requires l.k <= |l.chars| && l.chars != []
    ensures TransposesWhole(l) <==> l.k < |l.chars| || l.chars[|l.chars| - 1] <= 0x7F
    ensures Fits(l) ==> Text(l.chars) && Scalar(l.chars[|l.chars| - 1])
  {
  }

  lemma SlurpedIs(l: Line, sep: Class)
    requires l.k <= |l.chars|
    ensures OutRight(l.chars, l.k, []).Nothing? ==> Slurped(l, sep) == l
    ensures OutRight(l.chars, l.k, []).At? ==>
      var e := OutRight(l.chars, l.k, []).pos;
      var q := ItemRight(l.chars, SkipRight(l.chars, e + 1, Outer(sep)), [], sep);
      e + 1 <= q <= |l.chars| && Slurped(l, sep) == Line(Exchanged(l.chars, e, e + 1, e + 1, q), l.k)
  {
  }

  lemma BarfedIs(l: Line, sep: Class)
    requires l.k <= |l.chars|
    ensures OutRight(l.chars, l.k, []).Nothing? ==> Barfed(l, sep) == l
    ensures OutRight(l.chars, l.k, []).At? ==>
      var e := OutRight(l.chars, l.k, []).pos;
      match ItemLeft(l.chars, SkipLeft(l.chars, e, Outer(sep)), [], sep)
      case Nothing => Barfed(l, sep) == l
      case At(m) =>
        var p := SkipLeft(l.chars, m, Outer(sep));
        p <= e && Barfed(l, sep) == Line(Exchanged(l.chars, p, e, e, e + 1), if l.k > p then l.k + 1 else l.k)
  {
  }

  /** The bytes after slurping: character `e` and the text behind it up to `q`, exchanged. */
  lemma SlurpedBytes(buf: Bytes, len: nat, chars: seq<int>, k: nat, e: nat, q: nat, i: nat, j: nat, m: nat)
    requires Shows(buf, len, chars) && Text(chars) && k <= e < q <= |chars|
    requires i == Off(chars, e) && j == Off(chars, e + 1) && m == Off(chars, q)
    ensures i <= j <= m <= len < |buf|
    ensures Shows(Put(Put(buf, i, buf[j..m]), m - (j - i), buf[i..j]), len, Exchanged(chars, e, e + 1, e + 1, q))
    ensures var x := Exchanged(chars, e, e + 1, e + 1, q); Text(x) && |x| == |chars| && Off(x, k) == Off(chars, k)
  {
    hide *;
    PutNeighbours(buf, len, chars, e, e + 1, q, i, j, m);
    TwoPuts(buf, i, buf[j..m], buf[i..j]);
    OffExchanged(chars, e, e + 1, e + 1, q, k);
    ExchangedKeeps(chars, e, e + 1, e + 1, q);
  }

  /** The bytes after barfing: the text from `p` on and character `e` behind it, exchanged. */
  lemma BarfedBytes(buf: Bytes, len: nat, chars: seq<int>, p: nat, e: nat, i: nat, j: nat, b: Bytes)
    requires Shows(buf, len, chars) && Text(chars) && p <= e < |chars|
    requires i == Off(chars, p) && j == Off(chars, e) && b == Encode(chars[e])
    ensures i <= j && j + |b| <= len < |buf|
    ensures Shows(Put(Put(buf, i + |b|, buf[i..j]), i, b), len, Exchanged(chars, p, e, e, e + 1))
  {
    hide *;
    BracketBytes(buf, len, chars, e, j, b);
    PutNeighbours(buf, len, chars, p, e, e + 1, i, j, j + |b|);
    TwoPuts(buf, i, b, buf[i..j]);
  }

  lemma BracketBytes(buf: Bytes, len: nat, chars: seq<int>, e: nat, j: nat, b: Bytes)
    requires Shows(buf, len, chars) && Text(chars) && e < |chars| && j == Off(chars, e) && b == Encode(chars[e])
    ensures j + |b| == Off(chars, e + 1) <= len < |buf| && buf[j..j + |b|] == b
  {
    ShowsThat(buf, len, chars);
    hide *;
    CharSlice(chars, e);
    PrefixSlice(buf[..len], buf, j, j + |b|);
  }

  /** The cursor moves on with the character behind it, unless the bracket lands behind the cursor. */
  lemma CursorMoves(chars: seq<int>, p: nat, e: nat, k: nat)
    requires Text(chars) && p <= e < |chars| && k <= e
    ensures var x := Exchanged(chars, p, e, e, e + 1); Text(x) && |x| == |chars|
    ensures Off(chars, k) > Off(chars, p) <==> k > p
    ensures var x := Exchanged(chars, p, e, e, e + 1);
      Off(x, if k > p then k + 1 else k) == if k > p then Off(chars, k) + |Encode(chars[e])| else Off(chars, k)
  {
    hide *;
    ExchangedKeeps(chars, p, e, e, e + 1);
    if k > p {
      OffOrdered(chars, p, k);
      CursorPushed(chars, p, e, k);
    } else {
      OffOrdered(chars, k, p);
      OffExchanged(chars, p, e, e, e + 1, k);
    }
  }

  lemma CursorPushed(chars: seq<int>, p: nat, e: nat, k: nat)
    requires Text(chars) && p < k <= e < |chars|
    ensures var x := Exchanged(chars, p, e, e, e + 1);
      Text(x) && |x| == |chars| && Off(x, k + 1) == Off(chars, k) + |Encode(chars[e])|
  {
    var x := Exchanged(chars, p, e, e, e + 1);
    ExchangedKeeps(chars, p, e, e, e + 1);
    PushedPrefix(chars, p, e, k);
    hide *;
    OneSlice(chars, e);
    EncOne(chars[e]);
    TextParts(chars, 0, p);
    TextParts(chars, p, k);
    PushedOff(chars, x, k, chars[0..p], chars[e..e + 1], chars[p..k]);
  }

  lemma OneSlice(chars: seq<int>, e: nat)
    requires Text(chars) && e < |chars|
    ensures chars[e..e + 1] == [chars[e]] && Text([chars[e]]) && Scalar(chars[e]) && chars[e] != 0
  {
  }

  /** The same text in front of two positions, but for a piece in the middle. */
  lemma PushedOff(chars: seq<int>, x: seq<int>, k: nat, a: seq<int>, b: seq<int>, c: seq<int>)
    requires Text(chars) && Text(x) && k <= |chars| && k < |x| && Text(a) && Text(b) && Text(c)
    requires x[..k + 1] == a + b + c && chars[..k] == a + c
    ensures Off(x, k + 1) == Off(chars, k) + |Enc(b)|
  {
    hide *;
    OffIs(chars, k);
    OffIs(x, k + 1);
    EncLengths(a, b, c);
  }

  lemma OffIs(chars: seq<int>, k: nat)
    requires Text(chars) && k <= |chars|
    ensures Text(chars[..k]) && Off(chars, k) == |Enc(chars[..k])|
  {
  }

  lemma EncLengths(a: seq<int>, b: seq<int>, c: seq<int>)
    requires Text(a) && Text(b) && Text(c)
    ensures Text(a + b + c) && |Enc(a + b + c)| == |Enc(a)| + |Enc(b)| + |Enc(c)|
    ensures Text(a + c) && |Enc(a + c)| == |Enc(a)| + |Enc(c)|
  {
    hide *;
    EncConcat(a, b);
    EncConcat(a + b, c);
    EncConcat(a, c);
  }

  lemma PushedPrefix(chars: seq<int>, p: nat, e: nat, k: nat)
    requires p < k <= e < |chars|
    ensures Exchanged(chars, p, e, e, e + 1)[..k + 1] == chars[0..p] + chars[e..e + 1] + chars[p..k]
    ensures chars[..k] == chars[0..p] + chars[p..k]
  {
    var front, rest := chars[..p] + chars[e..e + 1], chars[k..e] + chars[e + 1..];
    assert chars[p..e] == chars[p..k] + chars[k..e];
    assert Exchanged(chars, p, e, e, e + 1) == front + chars[p..k] + rest;
    assert (front + chars[p..k] + rest)[..k + 1] == front + chars[p..k];
  }

  // ----- translating a word -----

  /** A translation that yields characters. */
  ghost predicate Translates(xlat: (int, int) -> int) {
    forall n, c :: Scalar(c) && c != 0 ==> Scalar(xlat(n, c)) && xlat(n, c) != 0
  }

  /** The first `n` characters from `i` on, translated. */
  function Mapped(chars: seq<int>, i: nat, n: nat, xlat: (int, int) -> int): (t: seq<int>)
    requires i + n <= |chars|
    ensures |t| == n
  {
    if n == 0 then [] else Mapped(chars, i, n - 1, xlat) + [xlat(n - 1, chars[i + n - 1])]
  }

  lemma {:induction false} MappedText(chars: seq<int>, i: nat, n: nat, xlat: (int, int) -> int)
    requires Text(chars) && i + n <= |chars| && Translates(xlat)
    ensures Text(Mapped(chars, i, n, xlat))
    ensures n > 0 ==> Text(Mapped(chars, i, n - 1, xlat))
    ensures n > 0 ==>
      Enc(Mapped(chars, i, n, xlat)) == Enc(Mapped(chars, i, n - 1, xlat)) + Encode(xlat(n - 1, chars[i + n - 1]))
  {
    if n > 0 {
      MappedText(chars, i, n - 1, xlat);
      var t := Mapped(chars, i, n, xlat);
      assert t[..|t| - 1] == Mapped(chars, i, n - 1, xlat);
    }
  }

  lemma {:induction false} MappedIs(chars: seq<int>, i: nat, n: nat, xlat: (int, int) -> int)
    requires i + n <= |chars|
    ensures Mapped(chars, i, n, xlat) == seq(n, m requires 0 <= m < n => xlat(m, chars[i + m]))
  {
    if n > 0 {
      MappedIs(chars, i, n - 1, xlat);
    }
  }

  lemma EncTranslated(chars: seq<int>, i: nat, j: nat, t: seq<int>)
    requires i <= j <= |chars| && Text(chars) && Text(t)
    ensures var x := chars[..i] + t + chars[j..]; Text(x) && Off(x, i + |t|) == Off(chars, i) + |Enc(t)|
    ensures Off(chars, i) <= |Enc(chars)| && Off(chars, j) <= |Enc(chars)|
    ensures Enc(chars[..i] + t + chars[j..]) == Enc(chars)[..Off(chars, i)] + Enc(t) + Enc(chars)[Off(chars, j)..]
  {
    TranslatedSlices(chars, i, j, t);
    hide *;
    TextParts(chars, 0, i);
    TextParts(chars, j, |chars|);
    EncSplit(chars, i);
    EncSplit(chars, j);
    EncConcat(chars[0..i], t);
    EncConcat(chars[0..i] + t, chars[j..|chars|]);
    OffIs(chars, i);
    OffIs(chars[..i] + t + chars[j..], i + |t|);
  }

  /** Writing the translated word and what follows it over the line's end. */
  lemma PutTranslated(buf: Bytes, len: nat, chars: seq<int>, i: nat, j: nat, t: seq<int>, p: nat, q: nat, ab: Bytes)
    requires Shows(buf, len, chars) && i <= j <= |chars| && Text(t) && ab == Enc(t)
    requires Text(chars) && p == Off(chars, i) && q == Off(chars, j) && p <= q <= len < |buf|
      && p + |ab| + (len - q) < |buf|
    ensures Shows(Put(buf, p, ab + buf[q..len] + [0]), p + |ab| + (len - q), chars[..i] + t + chars[j..])
  {
    ShowsThat(buf, len, chars);
    hide *;
    EncTranslated(chars, i, j, t);
    PutTail(buf, len, p, q, ab);
    ShowsIt(Put(buf, p, ab + buf[q..len] + [0]), p + |ab| + (len - q), chars[..i] + t + chars[j..]);
  }

  lemma TranslatedSlices(chars: seq<int>, i: nat, j: nat, t: seq<int>)
    requires i <= j <= |chars|
    ensures chars[0..i] == chars[..i] && chars[j..|chars|] == chars[j..]
    ensures (chars[..i] + t + chars[j..])[..i + |t|] == chars[..i] + t
  {
  }

  lemma PutTail(buf: Bytes, len: nat, p: nat, q: nat, ab: Bytes)
    requires p <= q <= len < |buf| && p + |ab| + (len - q) < |buf|
    ensures var r, n := Put(buf, p, ab + buf[q..len] + [0]), p + |ab| + (len - q);
      r[..n] == buf[..len][..p] + ab + buf[..len][q..] && r[n] == 0
  {
  }
}
