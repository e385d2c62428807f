/** UTF-8 syntax, as section 4 of RFC 3629 defines it. */
module Utf8 {
  import opened ByteSeq

  predicate Tail(b: byte) { 0x80 <= b <= 0xBF }

  /** The length of the well-formed character that `s` starts with, or 0 if there is none. */
  function CharLen(s: Bytes): (n: nat)
    ensures n <= |s| && n <= 4
  {
    if s == [] then 0
    else if s[0] <= 0x7F then 1
    else if 0xC2 <= s[0] <= 0xDF then
      if |s| >= 2 && Tail(s[1]) then 2 else 0
    else if 0xE0 <= s[0] <= 0xEF then
      if |s| >= 3 && Tail(s[1]) && Tail(s[2])
         && (s[0] == 0xE0 ==> s[1] >= 0xA0) && (s[0] == 0xED ==> s[1] <= 0x9F) then 3 else 0
    else if 0xF0 <= s[0] <= 0xF4 then
      if |s| >= 4 && Tail(s[1]) && Tail(s[2]) && Tail(s[3])
         && (s[0] == 0xF0 ==> s[1] >= 0x90) && (s[0] == 0xF4 ==> s[1] <= 0x8F) then 4 else 0
    else 0
  }

  predicate WellFormed(s: Bytes) {
    s == [] || (CharLen(s) > 0 && WellFormed(s[CharLen(s)..]))
  }

  /** A Unicode scalar value. */
  predicate Scalar(c: int) {
    0 <= c <= 0x10FFFF && !(0xD800 <= c <= 0xDFFF)
  }

  /** Six bits a digit, most significant first. */
  function Join(a: int, b: int): int { a * 0x40 + b }

  /** The scalar value of the character `s` starts with. */
  function CodePoint(s: Bytes): (c: int)
    requires CharLen(s) > 0
    ensures Scalar(c)
    ensures c <= 0x7F <==> CharLen(s) == 1
  {
    var n := CharLen(s);
    if n == 1 then s[0]
    else if n == 2 then Join(s[0] as int - 0xC0, s[1] as int - 0x80)
    else if n == 3 then Join(Join(s[0] as int - 0xE0, s[1] as int - 0x80), s[2] as int - 0x80)
    else Join(Join(Join(s[0] as int - 0xF0, s[1] as int - 0x80), s[2] as int - 0x80), s[3] as int - 0x80)
  }

  /** The bytes of a scalar value. */
  function Encode(c: int): (s: Bytes)
    requires Scalar(c)
  {
    if c <= 0x7F then [c]
    else if c <= 0x7FF then [0xC0 + c / 0x40, 0x80 + c % 0x40]
    else if c <= 0xFFFF then [0xE0 + c / 0x40 / 0x40, 0x80 + c / 0x40 % 0x40, 0x80 + c % 0x40]
    else [0xF0 + c / 0x40 / 0x40 / 0x40, 0x80 + c / 0x40 / 0x40 % 0x40, 0x80 + c / 0x40 % 0x40, 0x80 + c % 0x40]
  }

  lemma JoinSplit(a: int, b: int)
    requires 0 <= b < 0x40
    ensures Join(a, b) / 0x40 == a && Join(a, b) % 0x40 == b
  {
  }

  lemma SplitJoin(c: int)
    ensures Join(c / 0x40, c % 0x40) == c
  {
  }

  lemma CodePointEncode(c: int)
    requires Scalar(c)
    ensures CharLen(Encode(c)) == |Encode(c)| > 0
    ensures CodePoint(Encode(c)) == c
  {
    SplitJoin(c);
    SplitJoin(c / 0x40);
    SplitJoin(c / 0x40 / 0x40);
  }

  lemma JoinSplit2(a: int, b: int, c: int)
    requires 0 <= b < 0x40 && 0 <= c < 0x40
    ensures var j := Join(Join(a, b), c); j / 0x40 / 0x40 == a && j / 0x40 % 0x40 == b && j % 0x40 == c
  {
    JoinSplit(a, b);
    JoinSplit(Join(a, b), c);
  }

  lemma JoinSplit3(a: int, b: int, c: int, d: int)
    requires 0 <= b < 0x40 && 0 <= c < 0x40 && 0 <= d < 0x40
    ensures var j := Join(Join(Join(a, b), c), d);
      j / 0x40 / 0x40 / 0x40 == a && j / 0x40 / 0x40 % 0x40 == b && j / 0x40 % 0x40 == c && j % 0x40 == d
  {
    JoinSplit2(a, b, c);
    JoinSplit(Join(Join(a, b), c), d);
  }

  lemma EncodeCodePoint(s: Bytes)
    requires CharLen(s) > 0
    ensures Encode(CodePoint(s)) == s[..CharLen(s)]
  {
    hide Join;
    var n, c := CharLen(s), CodePoint(s);
    if n == 2 {
      JoinSplit(s[0] as int - 0xC0, s[1] as int - 0x80);
      JoinRange2(s[0] as int - 0xC0, s[1] as int - 0x80);
    } else if n == 3 {
      JoinSplit2(s[0] as int - 0xE0, s[1] as int - 0x80, s[2] as int - 0x80);
      JoinRange3(s[0] as int - 0xE0, s[1] as int - 0x80, s[2] as int - 0x80);
    } else if n == 4 {
      JoinSplit3(s[0] as int - 0xF0, s[1] as int - 0x80, s[2] as int - 0x80, s[3] as int - 0x80);
      JoinRange4(s[0] as int - 0xF0, s[1] as int - 0x80, s[2] as int - 0x80, s[3] as int - 0x80);
    }
  }

  lemma JoinRange2(a: int, b: int)
    requires 2 <= a < 0x20 && 0 <= b < 0x40
    ensures 0x7F < Join(a, b) <= 0x7FF
  {
  }

  lemma JoinRange3(a: int, b: int, c: int)
    requires 0 <= a < 0x10 && 0 <= b < 0x40 && 0 <= c < 0x40 && (a == 0 ==> b >= 0x20)
    ensures 0x7FF < Join(Join(a, b), c) <= 0xFFFF
  {
  }

  lemma JoinRange4(a: int, b: int, c: int, d: int)
    requires 0 <= a <= 4 && 0 <= b < 0x40 && 0 <= c < 0x40 && 0 <= d < 0x40 && (a == 0 ==> b >= 0x10)
    ensures 0xFFFF < Join(Join(Join(a, b), c), d)
  {
  }

  /** Reading a character looks at its own bytes only. */
  lemma CharLenPrefix(s: Bytes, t: Bytes)
    requires CharLen(s) > 0
    ensures CharLen(s + t) == CharLen(s)
    ensures CodePoint(s + t) == CodePoint(s)
  {
  }

  lemma {:induction false} WellFormedConcat(a: Bytes, b: Bytes)
    requires WellFormed(a) && WellFormed(b)
    ensures WellFormed(a + b)
  {
    if a == [] {
      assert a + b == b;
    } else {
      var n := CharLen(a);
      CharLenPrefix(a, b);
      assert (a + b)[n..] == a[n..] + b;
      WellFormedConcat(a[n..], b);
    }
  }

  lemma EncodeWellFormed(c: int)
    requires Scalar(c)
    ensures WellFormed(Encode(c))
  {
    CodePointEncode(c);
    assert Encode(c)[|Encode(c)|..] == [];
  }

  lemma AsciiWellFormed(c: byte)
    requires c <= 0x7F
    ensures WellFormed([c])
  {
    assert [c][1..] == [];
  }
}
