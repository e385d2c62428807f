/** The grammar of RFC 8259, and the parser against it: first strings (section 7). The parser takes three more things
    than the standard: `\xHH` for printable ASCII, an unpaired surrogate escape as plain text, and a number that only
    overflows. */
module JsonGrammar {
  import opened ByteSeq
  import opened Utf8
  import opened Json
  import opened JsonString

  // ----- strings -----

  /** What a string is made of: an unescaped character, an escape of one letter, `\xHH`, `\uXXXX`, two of them that make
      a surrogate pair, or a `\u` whose surrogate has no partner and is left as it is. */
  datatype Piece =
    | Plain(c: int) | Short(e: byte) | Hex(d: Bytes) | Unit(d: Bytes) | Pair(high: Bytes, low: Bytes) | Lone

  /** The escapes of one letter, after the table of section 7. */
  function ShortMeaning(e: byte): int {
    match e as char
    case '"' => 0x22
    case '\\' => 0x5C
    case '/' => 0x2F
    case 'b' => 0x08
    case 'f' => 0x0C
    case 'n' => 0x0A
    case 'r' => 0x0D
    case 't' => 0x09
    case _ => -1
  }

  predicate IsHex(b: byte) {
    '0' <= b as char <= '9' || 'a' <= b as char <= 'f' || 'A' <= b as char <= 'F'
  }

  function HexValue(b: byte): (v: nat)
    requires IsHex(b)
    ensures v < 16
  {
    if b as char <= '9' then b - '0' as int
    else if b as char <= 'F' then 10 + (b - 'A' as int)
    else 10 + (b - 'a' as int)
  }

  predicate AllHex(d: Bytes) {
    forall k :: 0 <= k < |d| ==> IsHex(d[k])
  }

  function HexNumber(d: Bytes): nat
    requires AllHex(d)
  {
    if d == [] then 0 else 16 * HexNumber(d[..|d| - 1]) + HexValue(d[|d| - 1])
  }

  function PieceText(pc: Piece): Bytes {
    match pc
    case Plain(c) => if Scalar(c) then Encode(c) else []
    case Short(e) => [0x5C, e]
    case Hex(d) => [0x5C, 0x78] + d
    case Unit(d) => [0x5C, 0x75] + d
    case Pair(high, low) => [0x5C, 0x75] + high + [0x5C, 0x75] + low
    case Lone => [0x5C, 0x75]
  }

  predicate FourHex(d: Bytes) {
    |d| == 4 && AllHex(d)
  }

  /** A piece by itself: what the standard, or the extension, allows. */
  predicate Proper(pc: Piece) {
    match pc
    case Plain(c) => Scalar(c) && c >= 0x20 && c != 0x22 && c != 0x5C
    case Short(e) => ShortMeaning(e) >= 0
    case Hex(d) => |d| == 2 && AllHex(d) && 0x20 <= HexNumber(d) <= 0x7E
    case Unit(d) => FourHex(d) && Scalar(HexNumber(d))
    case Pair(high, low) => FourHex(high) && FourHex(low) && HighUnit(HexNumber(high)) && LowUnit(HexNumber(low))
    case Lone => true
  }

  /** Four hexadecimal digits stand at `p`. */
  predicate HexFollows(s: Bytes, p: nat) {
    p + 4 <= |s| && AllHex(s[p..p + 4])
  }

  /** The `\u` at `p` has a surrogate behind it that is no first half of a pair. */
  predicate Unpaired(s: Bytes, p: nat) {
    && HexFollows(s, p + 2) && Surrogate(HexNumber(s[p + 2..p + 6]))
    && !(HighUnit(HexNumber(s[p + 2..p + 6])) && p + 8 <= |s| && s[p + 6..p + 8] == [0x5C, 0x75]
         && HexFollows(s, p + 8) && LowUnit(HexNumber(s[p + 8..p + 12])))
  }

  /** What a piece stands for, in UTF-8. */
  function PieceMeaning(pc: Piece): Bytes
    requires Proper(pc)
  {
    match pc
    case Plain(c) => Encode(c)
    case Short(e) => [ShortMeaning(e)]
    case Hex(d) => [HexNumber(d)]
    case Unit(d) => Encode(HexNumber(d))
    case Pair(high, low) => Encode(0x10000 + (HexNumber(high) - 0xD800) * 0x400 + (HexNumber(low) - 0xDC00))
    case Lone => [0x5C, 0x75]
  }

  predicate AllProper(ps: seq<Piece>) {
    forall k :: 0 <= k < |ps| ==> Proper(ps[k])
  }

  function PiecesText(ps: seq<Piece>): Bytes {
    if ps == [] then [] else PieceText(ps[0]) + PiecesText(ps[1..])
  }

  function PiecesMeaning(ps: seq<Piece>): Bytes
    requires AllProper(ps)
  {
    if ps == [] then [] else PieceMeaning(ps[0]) + PiecesMeaning(ps[1..])
  }

  /** Every surrogate escape left alone among pieces that start at `p` has indeed no partner. */
  predicate LonesAlone(s: Bytes, p: nat, ps: seq<Piece>)
    decreases |ps|
  {
    ps != [] ==> (ps[0].Lone? ==> Unpaired(s, p)) && LonesAlone(s, p + |PieceText(ps[0])|, ps[1..])
  }

  // ----- hexadecimal digits -----

  lemma HexIsHex(b: byte)
    ensures HexVal(b) == if IsHex(b) then HexValue(b) else -1
  {
  }

  lemma HexAtIs(s: Bytes, p: nat, n: nat)
    requires p + n <= |s|
    ensures HexAt(s, p, n) <==> AllHex(s[p..p + n])
  {
    var d := s[p..p + n];
    if HexAt(s, p, n) {
      forall k | 0 <= k < |d|
        ensures IsHex(d[k])
      {
        assert d[k] == s[p + k];
        HexIsHex(s[p + k]);
      }
    }
    if AllHex(d) {
      forall k | p <= k < p + n
        ensures HexVal(s[k]) != -1
      {
        assert s[p..p + n][k - p] == s[k];
        HexIsHex(s[k]);
      }
    }
  }

  lemma TwoHex(d: Bytes)
    requires |d| == 2 && AllHex(d)
    ensures HexNumber(d) == 16 * HexValue(d[0]) + HexValue(d[1])
  {
    assert d[..1] == [d[0]] && HexNumber([d[0]][..0]) == 0;
    assert HexNumber([d[0]]) == HexValue(d[0]);
  }

  lemma HexNumberOfFour(d: Bytes)
    requires FourHex(d)
    ensures HexNumber(d) == 0x1000 * HexValue(d[0]) + 0x100 * HexValue(d[1]) + 16 * HexValue(d[2]) + HexValue(d[3])
    ensures HexNumber(d) < 0x10000
  {
    var a, b := d[..2], d[..3];
    assert d[..3][..2] == a;
    TwoHex(a);
  }

  lemma Hex4Is(s: Bytes, p: nat)
    requires HexFollows(s, p)
    ensures HexAt(s, p, 4) && Hex4(s, p) == HexNumber(s[p..p + 4])
  {
    HexAtIs(s, p, 4);
    var d := s[p..p + 4];
    HexNumberOfFour(d);
    HexIsHex(d[0]);
    HexIsHex(d[1]);
    HexIsHex(d[2]);
    HexIsHex(d[3]);
  }

  lemma HexNotThere(s: Bytes, p: nat)
    ensures HexAt(s, p, 4) <==> HexFollows(s, p)
  {
    if p + 4 <= |s| {
      HexAtIs(s, p, 4);
    }
  }

  // ----- an unescaped character -----

  lemma PlainTwo(s: Bytes, p: nat, c: int)
    requires 0x80 <= c <= 0x7FF && At(s, p, Encode(c))
    ensures StepAt(s, p) == Put(Encode(c), p + 2)
  {
    hide Emit, At;
    AtRange(s, p, Encode(c));
    AtByte(s, p, Encode(c), 0);
    AtByte(s, p, Encode(c), 1);
    assert s[p] as int % 0x20 * 0x40 + s[p + 1] as int % 0x40 == c;
    EmitIsEncode(c);
  }

  lemma PlainThree(s: Bytes, p: nat, c: int)
    requires 0x800 <= c <= 0xFFFF && Scalar(c) && At(s, p, Encode(c))
    ensures StepAt(s, p) == Put(Encode(c), p + 3)
  {
    hide Emit, At;
    AtRange(s, p, Encode(c));
    AtByte(s, p, Encode(c), 0);
    AtByte(s, p, Encode(c), 1);
    AtByte(s, p, Encode(c), 2);
    assert s[p] as int % 0x10 * 0x1000 + s[p + 1] as int % 0x40 * 0x40 + s[p + 2] as int % 0x40 == c;
    EmitIsEncode(c);
  }

  lemma PlainFour(s: Bytes, p: nat, c: int)
    requires 0x10000 <= c <= 0x10FFFF && At(s, p, Encode(c))
    ensures StepAt(s, p) == Put(Encode(c), p + 4)
  {
    FourOf(c);
    EmitIsEncode(c);
    hide Emit, At, StepAt, Encode;
    AtRange(s, p, Encode(c));
    AtByte(s, p, Encode(c), 0);
    AtByte(s, p, Encode(c), 1);
    AtByte(s, p, Encode(c), 2);
    AtByte(s, p, Encode(c), 3);
    FourStep(s, p, c);
  }

  lemma FourOf(c: int)
    requires 0x10000 <= c <= 0x10FFFF
    ensures var e := Encode(c);
      && |e| == 4 && 0xF0 <= e[0] <= 0xF4 && Tail(e[1]) && Tail(e[2]) && Tail(e[3]) && (e[0] == 0xF0 ==> e[1] >= 0x90)
      && c == (e[0] as int - 0xF0) * 0x40000 + (e[1] as int - 0x80) * 0x1000 + (e[2] as int - 0x80) * 0x40
              + (e[3] as int - 0x80)
  {
    SplitJoin(c);
    SplitJoin(c / 0x40);
    SplitJoin(c / 0x40 / 0x40);
  }

  lemma FourStep(s: Bytes, p: nat, c: int)
    requires p + 4 <= |s| && 0xF0 <= s[p] <= 0xF4 && Tail(s[p + 1]) && Tail(s[p + 2]) && Tail(s[p + 3])
    requires (s[p] == 0xF0 ==> s[p + 1] >= 0x90) && 0x10000 <= c <= 0x10FFFF
    requires c == (s[p] as int - 0xF0) * 0x40000 + (s[p + 1] as int - 0x80) * 0x1000 + (s[p + 2] as int - 0x80) * 0x40
                  + (s[p + 3] as int - 0x80)
    ensures StepAt(s, p) == Put(Emit(c), p + 4)
  {
    hide Emit;
    TailBits(s[p + 1]);
    TailBits(s[p + 2]);
    TailBits(s[p + 3]);
    assert s[p] as int % 8 == s[p] as int - 0xF0;
  }

  lemma TailBits(b: byte)
    requires Tail(b)
    ensures b % 0x40 == b as int - 0x80
  {
  }

  /** Raw UTF-8 is read as the character it is. */
  lemma ReadsPlain(s: Bytes, p: nat, c: int)
    requires Proper(Plain(c)) && At(s, p, Encode(c))
    ensures StepAt(s, p) == Put(Encode(c), p + |Encode(c)|)
  {
    if c <= 0x7F {
      AtByte(s, p, Encode(c), 0);
    } else if c <= 0x7FF {
      PlainTwo(s, p, c);
    } else if c <= 0xFFFF {
      PlainThree(s, p, c);
    } else {
      PlainFour(s, p, c);
    }
  }

  lemma TailLength(s: Bytes, p: nat, n: nat)
    requires p <= |s| && n == CharLen(s[p..]) && n > 0
    ensures p + n <= |s| && At(s, p, Encode(CodePoint(s[p..]))) && |Encode(CodePoint(s[p..]))| == n
  {
    EncodeCodePoint(s[p..]);
    hide CharLen, CodePoint, Encode;
    assert s[p..][..n] == s[p..p + n];
    AtSlice(s, p, Encode(CodePoint(s[p..])));
  }

  lemma TwoIsPlain(s: Bytes, p: nat)
    requires p < |s| && 0xC2 <= s[p] <= 0xDF && StepAt(s, p).Put?
    ensures CharLen(s[p..]) == 2 && StepAt(s, p) == Put(Encode(CodePoint(s[p..])), p + 2)
  {
    hide Emit, Encode;
    var t := s[p..];
    assert t[0] == s[p] && t[1] == s[p + 1];
    EmitIsEncode(CodePoint(t));
  }

  lemma ThreeIsPlain(s: Bytes, p: nat)
    requires p < |s| && 0xE0 <= s[p] <= 0xEF && StepAt(s, p).Put? && !(s[p] == 0xED && CesuAt(s, p + 1))
    ensures CharLen(s[p..]) == 3 && StepAt(s, p) == Put(Encode(CodePoint(s[p..])), p + 3)
  {
    hide Emit, Encode;
    var t := s[p..];
    assert t[0] == s[p] && t[1] == s[p + 1] && t[2] == s[p + 2];
    EmitIsEncode(CodePoint(t));
  }

  lemma FourIsPlain(s: Bytes, p: nat)
    requires p < |s| && 0xF0 <= s[p] && StepAt(s, p).Put?
    ensures CharLen(s[p..]) == 4 && StepAt(s, p) == Put(Encode(CodePoint(s[p..])), p + 4)
  {
    FourKept(s, p);
    FourPoint(s, p);
    hide *;
    FourStep(s, p, CodePoint(s[p..]));
    EmitIsEncode(CodePoint(s[p..]));
  }

  lemma FourKept(s: Bytes, p: nat)
    requires p < |s| && 0xF0 <= s[p] && StepAt(s, p).Put?
    ensures p + 4 <= |s| && 0xF0 <= s[p] <= 0xF4 && Tail(s[p + 1]) && Tail(s[p + 2]) && Tail(s[p + 3])
    ensures (s[p] == 0xF0 ==> s[p + 1] >= 0x90) && (s[p] == 0xF4 ==> s[p + 1] <= 0x8F)
  {
    hide Emit;
  }

  lemma FourPoint(s: Bytes, p: nat)
    requires p + 4 <= |s| && 0xF0 <= s[p] <= 0xF4 && Tail(s[p + 1]) && Tail(s[p + 2]) && Tail(s[p + 3])
    requires (s[p] == 0xF0 ==> s[p + 1] >= 0x90) && (s[p] == 0xF4 ==> s[p + 1] <= 0x8F)
    ensures CharLen(s[p..]) == 4
    ensures var c := CodePoint(s[p..]);
      && 0x10000 <= c <= 0x10FFFF
      && c == (s[p] as int - 0xF0) * 0x40000 + (s[p + 1] as int - 0x80) * 0x1000 + (s[p + 2] as int - 0x80) * 0x40
              + (s[p + 3] as int - 0x80)
  {
    var t := s[p..];
    assert t[0] == s[p] && t[1] == s[p + 1] && t[2] == s[p + 2] && t[3] == s[p + 3];
  }

  /** And nothing else is read outside escapes: bytes that are kept are the UTF-8 of one character. */
  lemma OnlyPlain(s: Bytes, p: nat) returns (c: int)
    requires p < |s| && s[p] != 0x5C && StepAt(s, p).Put? && !(s[p] == 0xED && CesuAt(s, p + 1))
    ensures Proper(Plain(c)) && At(s, p, Encode(c)) && StepAt(s, p) == Put(Encode(c), p + |Encode(c)|)
  {
    hide *;
    StepStarts(s, p);
    if s[p] <= 0x7F {
      OneIsPlain(s, p);
    } else if s[p] <= 0xDF {
      TwoIsPlain(s, p);
    } else if s[p] <= 0xEF {
      ThreeIsPlain(s, p);
    } else {
      FourIsPlain(s, p);
    }
    TailLength(s, p, CharLen(s[p..]));
    c := CodePoint(s[p..]);
    KeptIsProper(s, p);
  }

  lemma StepStarts(s: Bytes, p: nat)
    requires p < |s| && s[p] != 0x5C && StepAt(s, p).Put?
    ensures 0x20 <= s[p] && s[p] != 0x22 && !(0x80 <= s[p] <= 0xC1)
  {
    hide Emit;
  }

  lemma OneIsPlain(s: Bytes, p: nat)
    requires p < |s| && 0x20 <= s[p] <= 0x7F && s[p] != 0x22 && s[p] != 0x5C
    ensures CharLen(s[p..]) == 1 && StepAt(s, p) == Put(Encode(CodePoint(s[p..])), p + 1)
  {
  }

  lemma KeptIsProper(s: Bytes, p: nat)
    requires p < |s| && CharLen(s[p..]) > 0 && s[p] >= 0x20 && s[p] != 0x22 && s[p] != 0x5C
    ensures Proper(Plain(CodePoint(s[p..])))
  {
  }

  // ----- escapes -----

  lemma ReadsShort(s: Bytes, p: nat, e: byte)
    requires Proper(Short(e)) && At(s, p, [0x5C, e])
    ensures StepAt(s, p) == Put([ShortMeaning(e)], p + 2)
  {
    AtByte(s, p, [0x5C, e], 0);
    AtByte(s, p, [0x5C, e], 1);
  }

  lemma ReadsHex(s: Bytes, p: nat, d: Bytes)
    requires Proper(Hex(d)) && At(s, p, [0x5C, 0x78] + d)
    ensures StepAt(s, p) == Put([HexNumber(d)], p + 4)
  {
    AtSplit(s, p, [0x5C, 0x78], d);
    AtByte(s, p, [0x5C, 0x78], 0);
    AtByte(s, p, [0x5C, 0x78], 1);
    AtRange(s, p + 2, d);
    AtSlice(s, p + 2, d);
    HexAtIs(s, p + 2, 2);
    TwoHex(d);
    HexIsHex(d[0]);
    HexIsHex(d[1]);
  }

  /** `\uXXXX` stands at `p`. */
  predicate UnitStands(s: Bytes, p: nat, d: Bytes) {
    FourHex(d) && p + 6 <= |s| && s[p] == 0x5C && s[p + 1] == 0x75 && s[p + 2..p + 6] == d
  }

  lemma UnitStandsAt(s: Bytes, p: nat, d: Bytes)
    requires FourHex(d) && At(s, p, [0x5C, 0x75] + d)
    ensures UnitStands(s, p, d) && HexFollows(s, p + 2)
  {
    AtSplit(s, p, [0x5C, 0x75], d);
    AtByte(s, p, [0x5C, 0x75], 0);
    AtByte(s, p, [0x5C, 0x75], 1);
    AtRange(s, p + 2, d);
    AtSlice(s, p + 2, d);
  }

  lemma ReadsUnit(s: Bytes, p: nat, d: Bytes)
    requires Proper(Unit(d)) && At(s, p, [0x5C, 0x75] + d)
    ensures StepAt(s, p) == Put(Encode(HexNumber(d)), p + 6)
  {
    UnitStandsAt(s, p, d);
    hide At, Encode, Emit, HexAt, Hex4, HexNumber;
    Hex4Is(s, p + 2);
    EmitIsEncode(HexNumber(d));
  }

  lemma ReadsPair(s: Bytes, p: nat, high: Bytes, low: Bytes)
    requires Proper(Pair(high, low)) && At(s, p, [0x5C, 0x75] + high + [0x5C, 0x75] + low)
    ensures StepAt(s, p) == Put(PieceMeaning(Pair(high, low)), p + 12)
  {
    hide At, Encode, Emit, HexAt, Hex4, HexNumber, StepAt;
    PairSplits(s, p, high, low);
    UnitStandsAt(s, p, high);
    UnitStandsAt(s, p + 6, low);
    PairStep(s, p, high, low);
  }

  lemma PairSplits(s: Bytes, p: nat, high: Bytes, low: Bytes)
    requires FourHex(high) && FourHex(low) && At(s, p, [0x5C, 0x75] + high + [0x5C, 0x75] + low)
    ensures At(s, p, [0x5C, 0x75] + high) && At(s, p + 6, [0x5C, 0x75] + low)
  {
    hide At, AllHex;
    assert [0x5C, 0x75] + high + [0x5C, 0x75] + low == [0x5C, 0x75] + high + ([0x5C, 0x75] + low);
    AtSplit(s, p, [0x5C, 0x75] + high, [0x5C, 0x75] + low);
  }

  lemma PairStep(s: Bytes, p: nat, high: Bytes, low: Bytes)
    requires Proper(Pair(high, low)) && UnitStands(s, p, high) && UnitStands(s, p + 6, low)
    requires HexFollows(s, p + 2) && HexFollows(s, p + 8)
    ensures StepAt(s, p) == Put(PieceMeaning(Pair(high, low)), p + 12)
  {
    hide Encode, Emit, HexAt, Hex4, HexNumber, AllHex;
    Hex4Is(s, p + 2);
    Hex4Is(s, p + 8);
    EmitIsEncode(0x10000 + (HexNumber(high) - 0xD800) * 0x400 + (HexNumber(low) - 0xDC00));
  }

  /** What follows a surrogate escape decides whether it is half of a pair. */
  lemma ReadsLone(s: Bytes, p: nat)
    requires At(s, p, [0x5C, 0x75]) && Unpaired(s, p)
    ensures StepAt(s, p) == Put([0x5C, 0x75], p + 2)
  {
    AtByte(s, p, [0x5C, 0x75], 0);
    AtByte(s, p, [0x5C, 0x75], 1);
    hide At, Encode, Emit, HexAt, Hex4, HexNumber, AllHex;
    Hex4Is(s, p + 2);
    HexNotThere(s, p + 8);
    if HexFollows(s, p + 8) {
      Hex4Is(s, p + 8);
    }
    if p + 8 <= |s| {
      assert s[p + 6..p + 8] == [s[p + 6], s[p + 7]];
    }
  }

  /** Every piece is read as what it stands for. */
  lemma ReadsPiece(s: Bytes, p: nat, pc: Piece)
    requires Proper(pc) && At(s, p, PieceText(pc)) && (pc.Lone? ==> Unpaired(s, p))
    ensures StepAt(s, p) == Put(PieceMeaning(pc), p + |PieceText(pc)|)
  {
    hide StepAt, At, Unpaired;
    match pc
    case Plain(c) => ReadsPlain(s, p, c);
    case Short(e) => ReadsShort(s, p, e);
    case Hex(d) => ReadsHex(s, p, d);
    case Unit(d) => ReadsUnit(s, p, d);
    case Pair(high, low) => ReadsPair(s, p, high, low);
    case Lone => ReadsLone(s, p);
  }

  lemma AtTwo(s: Bytes, p: nat, a: byte, b: byte, d: Bytes)
    requires p + 2 + |d| <= |s| && s[p] == a && s[p + 1] == b && s[p + 2..p + 2 + |d|] == d
    ensures At(s, p, [a, b] + d)
  {
    var t := [a, b] + d;
    forall k | 0 <= k < |t|
      ensures s[p + k] == t[k]
    {
      if k >= 2 {
        assert s[p + 2..p + 2 + |d|][k - 2] == s[p + k];
      }
    }
  }

  lemma OnlyShort(s: Bytes, p: nat) returns (pc: Piece)
    requires p + 1 < |s| && s[p] == 0x5C && s[p + 1] != 0x78 && s[p + 1] != 0x75 && StepAt(s, p).Put?
    ensures pc == Short(s[p + 1]) && Proper(pc) && At(s, p, [0x5C, s[p + 1]])
    ensures StepAt(s, p) == Put(PieceMeaning(pc), p + 2)
  {
    pc := Short(s[p + 1]);
  }

  lemma OnlyHex(s: Bytes, p: nat) returns (pc: Piece)
    requires p + 1 < |s| && s[p] == 0x5C && s[p + 1] == 0x78 && StepAt(s, p).Put?
    ensures pc.Hex? && Proper(pc) && At(s, p, PieceText(pc))
    ensures StepAt(s, p) == Put(PieceMeaning(pc), p + |PieceText(pc)|)
  {
    var d := s[p + 2..p + 4];
    HexAtIs(s, p + 2, 2);
    TwoHex(d);
    HexIsHex(d[0]);
    HexIsHex(d[1]);
    AtTwo(s, p, 0x5C, 0x78, d);
    pc := Hex(d);
  }

  lemma OnlyUnit(s: Bytes, p: nat) returns (pc: Piece)
    requires p + 1 < |s| && s[p] == 0x5C && s[p + 1] == 0x75 && StepAt(s, p).Put?
    ensures Proper(pc) && At(s, p, PieceText(pc)) && (pc.Lone? ==> Unpaired(s, p))
    ensures StepAt(s, p) == Put(PieceMeaning(pc), p + |PieceText(pc)|)
  {
    UnitHasHex(s, p);
    var d := s[p + 2..p + 6];
    HexNumberOfFour(d);
    AtTwo(s, p, 0x5C, 0x75, d);
    hide StepAt, At, HexNumber, AllHex, Encode;
    if !Surrogate(HexNumber(d)) {
      pc := Unit(d);
      ReadsUnit(s, p, d);
    } else if Paired(s, p) {
      var e := s[p + 8..p + 12];
      AtTwo(s, p + 6, 0x5C, 0x75, e);
      AtJoined(s, p, [0x5C, 0x75] + d, [0x5C, 0x75] + e);
      assert [0x5C, 0x75] + d + ([0x5C, 0x75] + e) == [0x5C, 0x75] + d + [0x5C, 0x75] + e;
      pc := Pair(d, e);
      ReadsPair(s, p, d, e);
    } else {
      pc := Lone;
      AtTwo(s, p, 0x5C, 0x75, []);
      assert [0x5C, 0x75] + [] == [0x5C, 0x75];
      PairedIs(s, p);
      ReadsLone(s, p);
    }
  }

  lemma UnitHasHex(s: Bytes, p: nat)
    requires p + 1 < |s| && s[p] == 0x5C && s[p + 1] == 0x75 && StepAt(s, p).Put?
    ensures HexFollows(s, p + 2)
  {
    hide HexAt, Hex4, Emit, HexFollows;
    HexNotThere(s, p + 2);
  }

  /** A high surrogate escape at `p` and a low one behind it. */
  predicate Paired(s: Bytes, p: nat) {
    && HexFollows(s, p + 2) && HighUnit(HexNumber(s[p + 2..p + 6])) && p + 8 <= |s|
    && s[p + 6] == 0x5C && s[p + 7] == 0x75 && HexFollows(s, p + 8) && LowUnit(HexNumber(s[p + 8..p + 12]))
  }

  lemma PairedIs(s: Bytes, p: nat)
    requires HexFollows(s, p + 2) && Surrogate(HexNumber(s[p + 2..p + 6])) && !Paired(s, p)
    ensures Unpaired(s, p)
  {
    hide HexNumber, AllHex;
    if p + 8 <= |s| && s[p + 6..p + 8] == [0x5C, 0x75] {
      assert s[p + 6] == s[p + 6..p + 8][0] && s[p + 7] == s[p + 6..p + 8][1];
    }
  }

  lemma AtJoined(s: Bytes, p: nat, a: Bytes, b: Bytes)
    requires At(s, p, a) && At(s, p + |a|, b)
    ensures At(s, p, a + b)
  {
    forall k | 0 <= k < |a + b|
      ensures s[p + k] == (a + b)[k]
    {
      if k >= |a| {
        assert s[p + |a| + (k - |a|)] == b[k - |a|];
      }
    }
  }

  /** And whatever the scanner keeps is a piece. */
  lemma OnlyPieces(s: Bytes, p: nat) returns (pc: Piece)
    requires p < |s| && StepAt(s, p).Put? && !(s[p] == 0xED && CesuAt(s, p + 1))
    ensures Proper(pc) && At(s, p, PieceText(pc)) && (pc.Lone? ==> Unpaired(s, p))
    ensures StepAt(s, p) == Put(PieceMeaning(pc), p + |PieceText(pc)|)
  {
    if s[p] != 0x5C {
      var c := OnlyPlain(s, p);
      pc := Plain(c);
    } else {
      assert p + 1 < |s|;
      if s[p + 1] == 0x78 {
        pc := OnlyHex(s, p);
      } else if s[p + 1] == 0x75 {
        pc := OnlyUnit(s, p);
      } else {
        pc := OnlyShort(s, p);
      }
    }
  }

  // ----- whole strings -----

  /** A string in the source text: pieces from `p` on, then the closing quote. */
  predicate StringStands(s: Bytes, p: nat, ps: seq<Piece>) {
    && AllProper(ps) && LonesAlone(s, p, ps)
    && p + |PiecesText(ps)| < |s| && s[p..p + |PiecesText(ps)|] == PiecesText(ps) && s[p + |PiecesText(ps)|] == 0x22
  }

  lemma FirstPiece(s: Bytes, p: nat, ps: seq<Piece>)
    requires StringStands(s, p, ps) && ps != []
    ensures AllProper(ps) && Proper(ps[0]) && At(s, p, PieceText(ps[0])) && (ps[0].Lone? ==> Unpaired(s, p))
    ensures StringStands(s, p + |PieceText(ps[0])|, ps[1..]) && AllProper(ps[1..])
    ensures |PiecesText(ps)| == |PieceText(ps[0])| + |PiecesText(ps[1..])|
    ensures PiecesMeaning(ps) == PieceMeaning(ps[0]) + PiecesMeaning(ps[1..])
  {
    hide PieceText, Proper, Unpaired, PieceMeaning;
    StandsSplit(s, p, PieceText(ps[0]), PiecesText(ps[1..]));
  }

  lemma StandsSplit(s: Bytes, p: nat, a: Bytes, b: Bytes)
    requires p + |a| + |b| <= |s| && s[p..p + |a + b|] == a + b
    ensures At(s, p, a) && s[p + |a|..p + |a| + |b|] == b
  {
    hide At;
    AtSlice(s, p, a + b);
    AtSplit(s, p, a, b);
    AtSlice(s, p + |a|, b);
  }

  lemma NoPieces(s: Bytes, p: nat, ps: seq<Piece>)
    requires StringStands(s, p, ps) && ps == []
    ensures p < |s| && s[p] == 0x22 && PiecesText(ps) == [] && PiecesMeaning(ps) == []
  {
  }

  /** A string is read as what its pieces stand for. */
  lemma {:induction false} ReadsString(s: Bytes, p: nat, ps: seq<Piece>, b: Bytes)
    requires StringStands(s, p, ps)
    ensures AllProper(ps) && p <= |s|
    ensures ScanFrom(s, p, b) == Closed(b + PiecesMeaning(ps), p + |PiecesText(ps)| + 1)
    decreases |ps|
  {
    hide StepAt, StringStands, PiecesText, PiecesMeaning, PieceText, PieceMeaning, Unpaired, At, Proper;
    StringStandsIn(s, p, ps);
    if ps == [] {
      NoPieces(s, p, ps);
      QuoteAt(s, p);
      assert b + [] == b;
    } else {
      FirstPiece(s, p, ps);
      ReadsPiece(s, p, ps[0]);
      ReadsString(s, p + |PieceText(ps[0])|, ps[1..], b + PieceMeaning(ps[0]));
      assert b + PieceMeaning(ps[0]) + PiecesMeaning(ps[1..]) == b + (PieceMeaning(ps[0]) + PiecesMeaning(ps[1..]));
    }
  }

  lemma StringStandsIn(s: Bytes, p: nat, ps: seq<Piece>)
    requires StringStands(s, p, ps)
    ensures AllProper(ps) && p <= |s|
  {
    hide PiecesText;
  }

  lemma QuoteAt(s: Bytes, p: nat)
    requires p < |s|
    ensures s[p] == 0x22 <==> StepAt(s, p).Quote?
    ensures s[p] == 0x22 ==> StepAt(s, p) == Quote(p + 1)
  {
  }

  lemma MorePieces(s: Bytes, p: nat, pc: Piece, ps: seq<Piece>)
    requires Proper(pc) && At(s, p, PieceText(pc)) && (pc.Lone? ==> Unpaired(s, p))
    requires StringStands(s, p + |PieceText(pc)|, ps)
    ensures StringStands(s, p, [pc] + ps)
    ensures PiecesText([pc] + ps) == PieceText(pc) + PiecesText(ps)
    ensures PiecesMeaning([pc] + ps) == PieceMeaning(pc) + PiecesMeaning(ps)
  {
    hide PieceText, Proper, Unpaired, PieceMeaning;
    var qs, a, b := [pc] + ps, PieceText(pc), PiecesText(ps);
    assert qs[1..] == ps && qs[0] == pc;
    AtSlice(s, p + |a|, b);
    AtJoined(s, p, a, b);
    AtSlice(s, p, a + b);
  }

  /** And a text the scanner accepts as a string is made of pieces. */
  lemma {:induction false} OnlyStrings(s: Bytes, p: nat, b: Bytes) returns (ps: seq<Piece>)
    requires p <= |s| && ScanFrom(s, p, b).Closed?
    ensures StringStands(s, p, ps) && AllProper(ps)
    ensures ScanFrom(s, p, b) == Closed(b + PiecesMeaning(ps), p + |PiecesText(ps)| + 1)
    decreases |s| - p
  {
    hide StepAt, StringStands, PiecesText, PiecesMeaning, PieceText, PieceMeaning, Unpaired, At, Proper, CesuAt;
    var r := StepAt(s, p);
    ScanNeedsMore(s, p);
    QuoteAt(s, p);
    if r.Quote? {
      ps := [];
      EmptyString(s, p);
      assert b + [] == b;
    } else {
      if s[p] == 0xED && CesuAt(s, p + 1) {
        CesuStep(s, p);
        CesuFails(s, p, b + r.t);
      }
      var pc := OnlyPieces(s, p);
      var rest := OnlyStrings(s, r.next, b + r.t);
      MorePieces(s, p, pc, rest);
      ps := [pc] + rest;
      AllProperMore(pc, rest);
      assert b + r.t + PiecesMeaning(rest) == b + (r.t + PiecesMeaning(rest));
    }
  }

  lemma ScanNeedsMore(s: Bytes, p: nat)
    requires p <= |s| && !StepAt(s, p).Error?
    ensures p < |s|
  {
  }

  lemma CesuStep(s: Bytes, p: nat)
    requires p < |s| && s[p] == 0xED && CesuAt(s, p + 1)
    ensures StepAt(s, p).Put? && StepAt(s, p).next == p + 1
  {
    hide Emit;
  }

  lemma EmptyString(s: Bytes, p: nat)
    requires p < |s| && s[p] == 0x22
    ensures StringStands(s, p, []) && PiecesText([]) == [] && PiecesMeaning([]) == []
  {
  }

  lemma AllProperMore(pc: Piece, ps: seq<Piece>)
    requires Proper(pc) && AllProper(ps)
    ensures AllProper([pc] + ps)
  {
    hide Proper;
  }

  predicate StandsFor(ps: seq<Piece>, b: Bytes) {
    AllProper(ps) && b == PiecesMeaning(ps)
  }

  /** The string scanner and the grammar say the same, for all texts: what follows a quote is accepted if and only if it
      is a string of the grammar, and the result is what the string stands for. */
  lemma StringIff(s: Bytes, p: nat, b: Bytes, next: nat)
    requires p <= |s|
    ensures ScanFrom(s, p, []) == Closed(b, next)
       <==> exists ps :: StringStands(s, p, ps) && StandsFor(ps, b) && next == p + |PiecesText(ps)| + 1
  {
    hide ScanFrom, StringStands, PiecesMeaning, PiecesText;
    if ScanFrom(s, p, []) == Closed(b, next) {
      var ps := OnlyStrings(s, p, []);
      assert [] + PiecesMeaning(ps) == PiecesMeaning(ps);
    }
    if exists ps :: StringStands(s, p, ps) && StandsFor(ps, b) && next == p + |PiecesText(ps)| + 1 {
      var ps :| StringStands(s, p, ps) && StandsFor(ps, b) && next == p + |PiecesText(ps)| + 1;
      ReadsString(s, p, ps, []);
      assert [] + PiecesMeaning(ps) == PiecesMeaning(ps);
    }
  }

  /** Text without escapes reads back as itself, characters of several bytes included. */
  lemma {:induction false} RawTextReadsBack(s: Bytes, p: nat, str: Bytes, b: Bytes)
    requires WellFormed(str) && forall k :: 0 <= k < |str| ==> str[k] >= 0x20 && str[k] != 0x22 && str[k] != 0x5C
    requires At(s, p, str + [0x22])
    ensures p <= |s| && ScanFrom(s, p, b) == Closed(b + str, p + |str| + 1)
    decreases |str|
  {
    hide StepAt, At, WellFormed, CharLen, CodePoint, Encode;
    if str == [] {
      AtByte(s, p, str + [0x22], 0);
      QuoteAt(s, p);
      assert b + [] == b;
    } else {
      FirstRune(str);
      var n, c, rest := CharLen(str), CodePoint(str), str[CharLen(str)..];
      assert str + [0x22] == Encode(c) + (rest + [0x22]);
      AtSplit(s, p, Encode(c), rest + [0x22]);
      AtRange(s, p, Encode(c));
      ReadsPlain(s, p, c);
      RawTextReadsBack(s, p + n, rest, b + Encode(c));
      assert b + Encode(c) + rest == b + str;
    }
  }

  lemma FirstRune(str: Bytes)
    requires WellFormed(str) && str != [] && str[0] >= 0x20 && str[0] != 0x22 && str[0] != 0x5C
    ensures CharLen(str) > 0
    ensures var n, c := CharLen(str), CodePoint(str);
      && n > 0 && Proper(Plain(c)) && Encode(c) == str[..n] && |Encode(c)| == n
      && WellFormed(str[n..]) && str == Encode(c) + str[n..]
  {
    hide *;
    FirstIsChar(str);
    EncodeCodePoint(str);
    TwoParts(str, CharLen(str));
  }

  lemma TwoParts(s: Bytes, n: nat)
    requires n <= |s|
    ensures s == s[..n] + s[n..] && |s[..n]| == n
  {
  }

  lemma FirstIsChar(str: Bytes)
    requires WellFormed(str) && str != [] && str[0] >= 0x20 && str[0] != 0x22 && str[0] != 0x5C
    ensures CharLen(str) > 0 && WellFormed(str[CharLen(str)..]) && Proper(Plain(CodePoint(str)))
  {
  }
}
