/** What printing and parsing promise each other. */
module JsonRoundTrip {
  import opened ByteSeq
  import opened Utf8
  import opened Json
  import opened JsonString
  import opened JsonParser

  // ----- strings -----

  /** On well-formed text the printer's decoder agrees with RFC 3629. */
  lemma RuneIsCodePoint(s: Bytes, i: nat)
    requires i < |s| && CharLen(s[i..]) > 0
    ensures Rune(s, i) == (CodePoint(s[i..]), i + CharLen(s[i..]))
  {
    var t, n := s[i..], CharLen(s[i..]);
    assert forall k :: 0 <= k < n ==> t[k] == s[i + k];
    if n > 1 {
      var tails := s[i + 1..i + n];
      assert LeadLength(s[i]) == n && AllTails(tails);
      MergeIsJoin(LeadBits(s[i]), tails);
    }
  }

  lemma MergeIsJoin(a: nat, t: Bytes)
    requires AllTails(t)
    ensures |t| == 1 ==> Merge(a, t) == Join(a, t[0] as int - 0x80)
    ensures |t| == 2 ==> Merge(a, t) == Join(Join(a, t[0] as int - 0x80), t[1] as int - 0x80)
    ensures |t| == 3 ==> Merge(a, t) == Join(Join(Join(a, t[0] as int - 0x80), t[1] as int - 0x80), t[2] as int - 0x80)
  {
    hide Merge, Tail;
    if 1 <= |t| <= 3 {
      var n := |t| - 1;
      MergeSnoc(a, t[..n], t[n]);
      assert t == t[..n] + [t[n]];
      if n >= 1 {
        MergeSnoc(a, t[..n - 1], t[n - 1]);
        assert t[..n] == t[..n - 1] + [t[n - 1]];
      }
      if n == 2 {
        MergeSnoc(a, [], t[0]);
        assert t[..1] == [] + [t[0]];
      }
      MergeNothing(a);
    }
  }

  lemma MergeNothing(a: nat)
    ensures Merge(a, []) == a
  {
  }

  lemma MergeSnoc(a: nat, t: Bytes, b: byte)
    requires Tail(b)
    ensures Merge(a, t + [b]) == Join(Merge(a, t), b as int - 0x80)
  {
    assert (t + [b])[..|t|] == t;
  }

  lemma HexRoundTrip(d: nat)
    requires d < 16
    ensures HexVal(HexDigit(d)) == d
  {
  }

  lemma NibbleSum(w: nat)
    requires w < 0x10000
    ensures w / 0x1000 * 0x1000 + w / 0x100 % 16 * 0x100 + w / 0x10 % 16 * 0x10 + w % 16 == w
    ensures w / 0x1000 < 16
  {
    assert w / 0x100 == w / 0x1000 * 16 + w / 0x100 % 16;
    assert w / 0x10 == w / 0x100 * 16 + w / 0x10 % 16;
  }

  lemma UnitAt(s: Bytes, p: nat, w: nat)
    requires w < 0x10000 && At(s, p, UnitEscape(w))
    ensures s[p] == 0x5C && s[p + 1] == 0x75 && HexAt(s, p + 2, 4) && Hex4(s, p + 2) == w
  {
    var t := UnitEscape(w);
    NibbleSum(w);
    HexRoundTrip(w / 0x1000);
    HexRoundTrip(w / 0x100 % 16);
    HexRoundTrip(w / 0x10 % 16);
    HexRoundTrip(w % 16);
    AtByte(s, p, t, 0);
    AtByte(s, p, t, 1);
    AtByte(s, p, t, 2);
    AtByte(s, p, t, 3);
    AtByte(s, p, t, 4);
    AtByte(s, p, t, 5);
  }

  lemma OneUnit(s: Bytes, p: nat, x: nat)
    requires Scalar(x) && x <= 0xFFFF && At(s, p, UnitEscape(x))
    ensures StepAt(s, p) == Put(Encode(x), p + 6)
  {
    hide Hex4, HexAt, Encode, Emit, UnitEscape;
    AtRange(s, p, UnitEscape(x));
    UnitAt(s, p, x);
    EmitIsEncode(x);
  }

  lemma UnitPair(s: Bytes, p: nat, x: nat)
    requires 0x10000 <= x <= 0x10FFFF && At(s, p, UnitEscape(Units(x)[0])) && At(s, p + 6, UnitEscape(Units(x)[1]))
    ensures StepAt(s, p) == Put(Encode(x), p + 12)
  {
    hide Hex4, HexAt, Encode, Emit, UnitEscape;
    var u := Units(x);
    AtRange(s, p + 6, UnitEscape(u[1]));
    UnitAt(s, p, u[0]);
    UnitAt(s, p + 6, u[1]);
    assert (u[0] - 0xD800) * 0x400 + (u[1] - 0xDC00) + 0x10000 == x;
    EmitIsEncode(x);
  }

  /** The scanner reads `\uXXXX` escapes back as the character they came from. */
  lemma StepOnUnits(s: Bytes, p: nat, x: nat)
    requires Scalar(x) && At(s, p, UnitsEscape(x))
    ensures StepAt(s, p) == Put(Encode(x), p + |UnitsEscape(x)|)
  {
    hide StepAt, Encode, At, UnitEscape;
    var u := Units(x);
    if |u| == 1 {
      assert UnitsEscape(x) == UnitEscape(x);
      OneUnit(s, p, x);
    } else {
      AtSplit(s, p, UnitEscape(u[0]), UnitEscape(u[1]));
      UnitPair(s, p, x);
    }
  }

  /** The scanner reads back every escape the printer writes. */
  lemma StepOnEscape(s: Bytes, p: nat, x: nat)
    requires Scalar(x) && At(s, p, Escape(x))
    ensures StepAt(s, p) == Put(Encode(x), p + |Escape(x)|)
  {
    if EscapeKind(x) == 9 {
      StepOnUnits(s, p, x);
    } else {
      AtByte(s, p, Escape(x), 0);
      if EscapeKind(x) != 0 {
        AtByte(s, p, Escape(x), 1);
      }
    }
  }

  /** Printing splits well-formed text character by character. */
  lemma SerializedStep(str: Bytes, i: nat)
    requires i < |str| && WellFormed(str[i..])
    ensures var (x, n) := Rune(str, i);
      Scalar(x) && WellFormed(str[n..]) && str[i..] == Encode(x) + str[n..]
      && Serialized(str, i) == Escape(x) + Serialized(str, n)
  {
    hide *;
    RestWellFormed(str[i..]);
    RuneIsCodePoint(str, i);
    EncodeCodePoint(str[i..]);
    TailSplits(str, i, CharLen(str[i..]));
    SerializedIs(str, i);
  }

  lemma RestWellFormed(s: Bytes)
    requires s != [] && WellFormed(s)
    ensures CharLen(s) > 0 && WellFormed(s[CharLen(s)..])
  {
  }

  lemma SerializedIs(str: Bytes, i: nat)
    requires i < |str|
    ensures Serialized(str, i) == Escape(Rune(str, i).0) + Serialized(str, Rune(str, i).1)
  {
    hide Rune, Escape;
  }

  lemma TailSplits(s: Bytes, i: nat, n: nat)
    requires i + n <= |s|
    ensures s[i..][n..] == s[i + n..] && s[i..] == s[i..][..n] + s[i + n..]
  {
  }

  lemma ScanStep(s: Bytes, p: nat, b: Bytes, t: Bytes, next: nat)
    requires p <= |s| && StepAt(s, p) == Put(t, next)
    ensures ScanFrom(s, p, b) == ScanFrom(s, next, b + t)
  {
  }

  lemma AppendChar(b: Bytes, first: Bytes, rest: Bytes, whole: Bytes)
    requires whole == first + rest
    ensures b + first + rest == b + whole
  {
  }

  lemma ScanQuote(s: Bytes, p: nat, b: Bytes)
    requires p < |s| && s[p] == 0x22
    ensures ScanFrom(s, p, b) == Closed(b, p + 1)
  {
  }

  lemma {:induction false} ScanSerialized(s: Bytes, p: nat, str: Bytes, i: nat, b: Bytes)
    requires i <= |str| && WellFormed(str[i..]) && At(s, p, Serialized(str, i))
    requires p + |Serialized(str, i)| < |s| && s[p + |Serialized(str, i)|] == 0x22
    ensures ScanFrom(s, p, b) == Closed(b + str[i..], p + |Serialized(str, i)| + 1)
    decreases |str| - i
  {
    hide StepAt, Escape, Encode, Rune, WellFormed;
    if i == |str| {
      ScanQuote(s, p, b);
      assert b + str[i..] == b;
    } else {
      SerializedStep(str, i);
      var (x, n) := Rune(str, i);
      AtSplit(s, p, Escape(x), Serialized(str, n));
      StepOnEscape(s, p, x);
      ScanStep(s, p, b, Encode(x), p + |Escape(x)|);
      ScanSerialized(s, p + |Escape(x)|, str, n, b + Encode(x));
      AppendChar(b, Encode(x), str[n..], str[i..]);
    }
  }

  lemma Assoc(a: Bytes, b: Bytes, c: Bytes)
    ensures a + b + c == a + (b + c)
  {
  }

  lemma QuotedScan(s: Bytes, p: nat, str: Bytes)
    requires WellFormed(str) && At(s, p, Quoted(str))
    ensures p < |s| && s[p] == 0x22
    ensures ScanFrom(s, p + 1, []) == Closed(str, p + |Quoted(str)|)
  {
    hide StepAt, Serialized, ScanFrom, WellFormed;
    var body := Serialized(str, 0);
    AtSplit(s, p, [0x22] + body, [0x22]);
    AtSplit(s, p, [0x22], body);
    AtByte(s, p, [0x22], 0);
    AtByte(s, p + 1 + |body|, [0x22], 0);
    assert str[0..] == str;
    ScanSerialized(s, p + 1, str, 0, []);
    assert [] + str == str;
  }

  /** A quoted string reads back as itself, where a value or a key is allowed. */
  lemma QuotedRoundTrip(lib: Library, s: Bytes, p: nat, a: nat, c: Context, depth: nat, str: Bytes)
    requires lib.Valid() && a <= p && depth > 0 && !c.colon && !c.comma
    requires WellFormed(str) && At(s, p, Quoted(str))
    ensures Loop(lib, s, p, a, 1, c, depth, Null) == Parsed(Success, String(str), p + |Quoted(str)|)
  {
    QuotedScan(s, p, str);
  }

  // ----- integers -----

  lemma {:induction false} DigitsAreDigits(n: nat)
    ensures forall k :: 0 <= k < |Digits(n)| ==> IsDigit(Digits(n)[k])
    ensures n > 0 ==> Digits(n)[0] != 0x30
  {
    if n >= 10 {
      DigitsAreDigits(n / 10);
    }
  }

  function Signed(d: int, n: int): int {
    if d == 1 then n else -n
  }

  lemma IntegerStep(s: Bytes, p: nat, x: int64, d: int)
    requires p < |s| && IsDigit(s[p]) && (d == 1 || d == -1)
    requires Fits(x as int * 10) && Fits(x as int * 10 + Signed(d, s[p] as int - 0x30))
    ensures IntegerFrom(s, p, x, d) == IntegerFrom(s, p + 1, x as int * 10 + Signed(d, s[p] as int - 0x30), d)
  {
    assert (s[p] as int - 0x30) * d == Signed(d, s[p] as int - 0x30);
  }

  lemma DigitsSplit(s: Bytes, p: nat, n: nat)
    requires n >= 10 && At(s, p, Digits(n))
    ensures At(s, p, Digits(n / 10)) && |Digits(n)| == |Digits(n / 10)| + 1
    ensures var q := p + |Digits(n / 10)|; q < |s| && s[q] as int == 0x30 + n % 10
  {
    AtSplit(s, p, Digits(n / 10), [0x30 + n % 10]);
    AtByte(s, p + |Digits(n / 10)|, [0x30 + n % 10], 0);
  }

  lemma SignedPrefix(d: int, n: nat)
    requires (d == 1 || d == -1) && Fits(Signed(d, n))
    ensures Fits(Signed(d, n / 10)) && Fits(Signed(d, n / 10) * 10)
    ensures Signed(d, n / 10) * 10 + Signed(d, n % 10) == Signed(d, n)
  {
  }

  lemma FirstDigit(s: Bytes, p: nat, n: nat)
    requires n >= 1 && At(s, p, Digits(n))
    ensures p < |s| && 0x31 <= s[p] <= 0x39
  {
    DigitsAreDigits(n);
    AtByte(s, p, Digits(n), 0);
  }

  /** The accumulator after the first `|Digits(n)|` digits. */
  ghost predicate ReadsTo(s: Bytes, p: nat, n: nat, d: int) {
    (d == 1 || d == -1) && Fits(Signed(d, n)) && p + |Digits(n)| <= |s| && p < |s| && 0x31 <= s[p] <= 0x39 &&
    IntegerFrom(s, p + 1, Signed(d, s[p] as int - 0x30), d) == IntegerFrom(s, p + |Digits(n)|, Signed(d, n), d)
  }

  lemma ReadsOneMore(s: Bytes, p: nat, n: nat, d: int)
    requires n >= 10 && ReadsTo(s, p, n / 10, d) && Fits(Signed(d, n))
    requires |Digits(n)| == |Digits(n / 10)| + 1 && p + |Digits(n)| <= |s|
    requires s[p + |Digits(n / 10)|] as int == 0x30 + n % 10
    ensures ReadsTo(s, p, n, d)
  {
    SignedPrefix(d, n);
    IntegerStep(s, p + |Digits(n / 10)|, Signed(d, n / 10), d);
  }

  /** Reading the digits of `n` leaves `n`, with its sign, in the accumulator: no spurious overflow. */
  lemma {:induction false} IntegerPrefix(s: Bytes, p: nat, n: nat, d: int)
    requires n >= 1 && (d == 1 || d == -1) && Fits(Signed(d, n)) && At(s, p, Digits(n))
    ensures ReadsTo(s, p, n, d)
  {
    if n < 10 {
      AtByte(s, p, Digits(n), 0);
    } else {
      DigitsSplit(s, p, n);
      SignedPrefix(d, n);
      IntegerPrefix(s, p, n / 10, d);
      ReadsOneMore(s, p, n, d);
    }
  }

  // ----- one turn of the loop over characters -----

  /** Where a value may start, the loop goes to its case. */
  lemma LoopAtValue(lib: Library, s: Bytes, p: nat, a: nat, d: int, c: Context, depth: nat, json: Json)
    requires lib.Valid() && a <= p < |s| && depth > 0 && (d == 1 || d == -1) && !Blocked(c)
    requires IsDigit(s[p]) || s[p] in {0x6E, 0x66, 0x74, 0x5B, 0x7B}
    ensures Loop(lib, s, p, a, d, c, depth, json) == ValueAt(lib, s, p, a, d, depth, json)
  {
    hide ValueAt, StringAt;
  }

  /** One turn of the loop over characters that does not end in an error, and what it goes on to. */
  lemma LoopTurn(lib: Library, s: Bytes, p: nat, a: nat, d: int, c: Context, depth: nat, json: Json)
    requires lib.Valid() && a <= p <= |s| && (d == 1 || d == -1) && depth > 0
    ensures var r := Loop(lib, s, p, a, d, c, depth, json);
      r.status == Success ==>
        p < |s| &&
        var x, q := s[p], p + 1;
        if IsSpace(x) then r == Loop(lib, s, q, q, d, c, depth, json)
        else if x == 0x2C then c.comma && r == Loop(lib, s, q, q, d, PLAIN, depth, json)
        else if x == 0x3A then c.colon && r == Loop(lib, s, q, q, d, PLAIN, depth, json)
        else if x == 0x22 then !c.colon && !c.comma && r == StringAt(s, q, json)
        else if x == 0x2D then
          !Blocked(c) && q < |s| && IsDigit(s[q]) && r == Loop(lib, s, q, a, -1, c, depth, json)
        else
          !Blocked(c) && (IsDigit(x) || x in {0x6E, 0x66, 0x74, 0x5B, 0x7B})
          && r == ValueAt(lib, s, p, a, d, depth, json)
  {
    hide ValueAt, StringAt;
  }

  lemma LoopAtMinus(lib: Library, s: Bytes, p: nat, a: nat, d: int, c: Context, depth: nat, json: Json)
    requires lib.Valid() && a <= p && p + 1 < |s| && depth > 0 && (d == 1 || d == -1) && !Blocked(c)
    requires s[p] == 0x2D && IsDigit(s[p + 1])
    ensures Loop(lib, s, p, a, d, c, depth, json) == Loop(lib, s, p + 1, a, -1, c, depth, json)
  {
    hide ValueAt, StringAt;
  }

  lemma LoopAtSpace(lib: Library, s: Bytes, p: nat, c: Context, depth: nat, json: Json)
    requires lib.Valid() && p < |s| && depth > 0 && IsSpace(s[p])
    ensures Loop(lib, s, p, p, 1, c, depth, json) == Loop(lib, s, p + 1, p + 1, 1, c, depth, json)
  {
    hide ValueAt, StringAt;
  }

  lemma LoopAtSeparator(lib: Library, s: Bytes, p: nat, c: Context, depth: nat, json: Json)
    requires lib.Valid() && p < |s| && depth > 0 && ((s[p] == 0x2C && c.comma) || (s[p] == 0x3A && c.colon))
    ensures Loop(lib, s, p, p, 1, c, depth, json) == Loop(lib, s, p + 1, p + 1, 1, PLAIN, depth, json)
  {
    hide ValueAt, StringAt;
  }

  lemma NumberAt(lib: Library, s: Bytes, p: nat, a: nat, d: int, c: Context, depth: nat, n: nat)
    requires lib.Valid() && a <= p && depth > 0 && !Blocked(c)
    requires n >= 1 && (d == 1 || d == -1) && Fits(Signed(d, n)) && At(s, p, Digits(n))
    requires EndsToken(s, p + |Digits(n)|)
    ensures p < |s| && IsDigit(s[p])
    ensures Loop(lib, s, p, a, d, c, depth, Null) == Parsed(Success, Long(Signed(d, n)), p + |Digits(n)|)
  {
    hide Loop, Digits;
    FirstDigit(s, p, n);
    LoopAtValue(lib, s, p, a, d, c, depth, Null);
    IntegerPrefix(s, p, n, d);
    hide IntegerFrom;
    IntegerEnds(s, p + |Digits(n)|, Signed(d, n), d);
    TimesSign(d, s[p] as int - 0x30);
  }

  lemma IntegerEnds(s: Bytes, q: nat, x: int64, d: int)
    requires q <= |s| && (d == 1 || d == -1) && EndsToken(s, q)
    ensures IntegerFrom(s, q, x, d) == Whole(x, q)
  {
  }

  lemma TimesSign(d: int, n: int)
    requires d == 1 || d == -1
    ensures n * d == Signed(d, n)
  {
  }

  /** What follows a number must not extend it. */
  predicate EndsToken(s: Bytes, q: nat) {
    q >= |s| || !(IsDigit(s[q]) || s[q] == 0x2E || IsExponent(s[q]))
  }

  lemma NegativeAt(lib: Library, s: Bytes, p: nat, a: nat, c: Context, depth: nat, n: nat)
    requires lib.Valid() && a <= p && depth > 0 && !Blocked(c)
    requires n >= 1 && Fits(Signed(-1, n)) && At(s, p, [0x2D] + Digits(n)) && EndsToken(s, p + 1 + |Digits(n)|)
    ensures Loop(lib, s, p, a, 1, c, depth, Null) == Parsed(Success, Long(Signed(-1, n)), p + 1 + |Digits(n)|)
  {
    hide Loop, Digits;
    AtSplit(s, p, [0x2D], Digits(n));
    AtByte(s, p, [0x2D], 0);
    FirstDigit(s, p + 1, n);
    LoopAtMinus(lib, s, p, a, 1, c, depth, Null);
    NumberAt(lib, s, p + 1, a, -1, c, depth, n);
  }

  lemma LongRoundTrip(lib: Library, s: Bytes, p: nat, a: nat, c: Context, depth: nat, x: int64)
    requires lib.Valid() && a <= p && depth > 0 && !Blocked(c)
    requires At(s, p, LongText(x)) && EndsToken(s, p + |LongText(x)|)
    ensures Loop(lib, s, p, a, 1, c, depth, Null) == Parsed(Success, Long(x), p + |LongText(x)|)
  {
    if x < 0 {
      NegativeAt(lib, s, p, a, c, depth, -(x as int));
    } else if x > 0 {
      NumberAt(lib, s, p, a, 1, c, depth, x);
    } else {
      AtByte(s, p, LongText(x), 0);
      ZeroAt(lib, s, p, a, c, depth);
    }
  }

  lemma ZeroAt(lib: Library, s: Bytes, p: nat, a: nat, c: Context, depth: nat)
    requires lib.Valid() && a <= p < |s| && depth > 0 && !Blocked(c) && s[p] == 0x30 && EndsToken(s, p + 1)
    ensures Loop(lib, s, p, a, 1, c, depth, Null) == Parsed(Success, Long(0), p + 1)
  {
    assert ZeroFrom(lib, s, p + 1, a, Null) == Parsed(Success, Long(0), p + 1);
  }

  // ----- key order -----

  lemma {:induction false} LessIrreflexive(a: Bytes, b: Bytes)
    requires Less(a, b)
    ensures a != b && !Less(b, a)
  {
    if a != [] && a[0] == b[0] {
      LessIrreflexive(a[1..], b[1..]);
    }
  }

  lemma {:induction false} LessTransitive(a: Bytes, b: Bytes, c: Bytes)
    requires Less(a, b) && Less(b, c)
    ensures Less(a, c)
  {
    if a != [] && a[0] == b[0] && b[0] == c[0] {
      LessTransitive(a[1..], b[1..], c[1..]);
    }
  }

  lemma {:induction false} LessTotal(a: Bytes, b: Bytes)
    requires a != b
    ensures Less(a, b) || Less(b, a)
  {
    if a != [] && b != [] && a[0] == b[0] {
      assert a == [a[0]] + a[1..] && b == [b[0]] + b[1..];
      LessTotal(a[1..], b[1..]);
    }
  }

  /** Printed keys arrive in order, so each one is appended. */
  lemma {:induction false} EmplaceLast(fields: seq<Field>, key: Bytes, value: Json)
    requires forall f | f in fields :: Less(f.key, key)
    ensures Emplace(fields, key, value) == fields + [Field(key, value)]
    ensures !HasKey(fields, key)
  {
    forall f | f in fields
      ensures f.key != key && !Less(key, f.key)
    {
      LessIrreflexive(f.key, key);
    }
    if fields != [] {
      EmplaceLast(fields[1..], key, value);
      assert fields[0] in fields;
      assert fields == [fields[0]] + fields[1..];
    }
  }

  /** `emplace` keeps a map in order and adds nothing but the new entry. */
  lemma {:induction false} EmplaceSorted(fields: seq<Field>, key: Bytes, value: Json)
    requires Sorted(fields)
    ensures Sorted(Emplace(fields, key, value))
    ensures forall f :: f in Emplace(fields, key, value) ==> f in fields || f == Field(key, value)
  {
    if fields != [] && fields[0].key != key {
      var r := Emplace(fields, key, value);
      if Less(key, fields[0].key) {
        forall j | 0 < j < |r|
          ensures Less(key, r[j].key)
        {
          if j > 1 {
            LessTransitive(key, fields[0].key, fields[j - 1].key);
          }
        }
      } else {
        LessTotal(key, fields[0].key);
        EmplaceSorted(fields[1..], key, value);
        var rest := Emplace(fields[1..], key, value);
        forall j | 0 < j < |r|
          ensures Less(fields[0].key, r[j].key)
        {
          assert r[j] == rest[j - 1] && rest[j - 1] in rest;
          if r[j] in fields[1..] {
            var i :| 0 <= i < |fields[1..]| && fields[1..][i] == r[j];
            assert fields[i + 1] == r[j];
          }
        }
      }
    }
  }

  // ----- white space and separators -----

  predicate AllSpaces(t: Bytes) {
    forall k :: 0 <= k < |t| ==> IsSpace(t[k])
  }

  lemma {:induction false} SpacesAreSpaces(n: nat)
    ensures AllSpaces(Spaces(n))
  {
    if n > 0 {
      SpacesAreSpaces(n - 1);
    }
  }

  /** White space only moves the parser forward. */
  lemma {:induction false} SkipSpaces(lib: Library, s: Bytes, p: nat, c: Context, depth: nat, json: Json, t: Bytes)
    requires lib.Valid() && depth > 0 && At(s, p, t) && AllSpaces(t)
    ensures Loop(lib, s, p, p, 1, c, depth, json) == Loop(lib, s, p + |t|, p + |t|, 1, c, depth, json)
    decreases |t|
  {
    hide Loop, IsSpace;
    if t != [] {
      AtByte(s, p, t, 0);
      LoopAtSpace(lib, s, p, c, depth, json);
      assert t == [t[0]] + t[1..];
      AtSplit(s, p, [t[0]], t[1..]);
      SkipSpaces(lib, s, p + 1, c, depth, json, t[1..]);
    }
  }

  /** A comma or colon the context allows, and the white space after it. */
  lemma SkipSeparator(lib: Library, s: Bytes, p: nat, c: Context, depth: nat, json: Json, x: byte, t: Bytes)
    requires lib.Valid() && depth > 0 && At(s, p, [x] + t) && AllSpaces(t)
    requires (x == 0x2C && c.comma) || (x == 0x3A && c.colon)
    ensures Loop(lib, s, p, p, 1, c, depth, json) == Loop(lib, s, p + 1 + |t|, p + 1 + |t|, 1, PLAIN, depth, json)
  {
    hide Loop, AllSpaces;
    AtByte(s, p, [x] + t, 0);
    LoopAtSeparator(lib, s, p, c, depth, json);
    AtSplit(s, p, [x], t);
    SkipSpaces(lib, s, p + 1, PLAIN, depth, json, t);
  }

  // ----- values -----

  /** The outcome promised for a value printed at `p`: the value itself if it is nested at most
      `depth - 1` deep, otherwise the depth error. */
  ghost predicate Outcome(r: Parsed, v: Json, depth: nat, end: nat)
    requires depth > 0
  {
    if Within(v, depth - 1) then r == Parsed(Success, v, end) else r.status == DepthExceeded
  }

  lemma NextIsSeparator(lib: Library, s: Bytes, q: nat, elems: seq<Json>, k: nat, pretty: bool, indent: nat)
    requires 0 < k <= |elems| && At(s, q, ElemsText(lib, elems, k, pretty, indent))
    ensures EndsToken(s, q)
  {
    AtByte(s, q, ElemsText(lib, elems, k, pretty, indent), 0);
  }

  lemma NextIsFieldSeparator(lib: Library, s: Bytes, q: nat, fields: seq<Field>, k: nat, pretty: bool, indent: nat)
    requires 0 < k <= |fields| && At(s, q, FieldsText(lib, fields, k, pretty, indent))
    ensures EndsToken(s, q)
  {
    AtByte(s, q, FieldsText(lib, fields, k, pretty, indent), 0);
  }

  lemma ScalarRoundTrip(lib: Library, s: Bytes, p: nat, a: nat, c: Context, depth: nat, v: Json, pretty: bool,
                        indent: nat)
    requires lib.Valid() && a <= p && depth > 0 && !Blocked(c) && (v.Null? || v.Bool? || v.Long? || v.String?)
    requires Clean(v) && At(s, p, Text(lib, v, pretty, indent)) && EndsToken(s, p + |Text(lib, v, pretty, indent)|)
    ensures Loop(lib, s, p, a, 1, c, depth, Null) == Parsed(Success, v, p + |Text(lib, v, pretty, indent)|)
  {
    if v.Long? {
      LongRoundTrip(lib, s, p, a, c, depth, v.n);
    } else if v.String? {
      QuotedRoundTrip(lib, s, p, a, c, depth, v.s);
    } else {
      WordRoundTrip(lib, s, p, a, c, depth, v, pretty, indent);
    }
  }

  lemma WordRoundTrip(lib: Library, s: Bytes, p: nat, a: nat, c: Context, depth: nat, v: Json, pretty: bool,
                      indent: nat)
    requires lib.Valid() && a <= p && depth > 0 && !Blocked(c) && (v.Null? || v.Bool?)
    requires At(s, p, Text(lib, v, pretty, indent))
    ensures Loop(lib, s, p, a, 1, c, depth, Null) == Parsed(Success, v, p + |Text(lib, v, pretty, indent)|)
  {
    hide Loop, ElemsAt, FieldsAt, At;
    var t := Text(lib, v, pretty, indent);
    AtRange(s, p, t);
    AtByte(s, p, t, 0);
    AtSlice(s, p, t);
    LoopAtValue(lib, s, p, a, 1, c, depth, Null);
    if v == Bool(false) {
      assert t == [0x66] + [0x61, 0x6C, 0x73, 0x65];
      AtSplit(s, p, [0x66], [0x61, 0x6C, 0x73, 0x65]);
      AtSlice(s, p + 1, [0x61, 0x6C, 0x73, 0x65]);
    }
  }

  /** A value printed at `p`, read where a value is allowed. */
  lemma {:induction false} ValueRoundTrip(lib: Library, s: Bytes, p: nat, a: nat, c: Context, depth: nat, v: Json,
                                          pretty: bool, indent: nat)
    requires lib.Valid() && a <= p && depth > 0 && !Blocked(c) && Clean(v) && Exact(v)
    requires At(s, p, Text(lib, v, pretty, indent)) && EndsToken(s, p + |Text(lib, v, pretty, indent)|)
    ensures Outcome(Loop(lib, s, p, a, 1, c, depth, Null), v, depth, p + |Text(lib, v, pretty, indent)|)
    decreases v, 3
  {
    hide Loop, ElemsAt, FieldsAt, Clean, Exact, Within, ElemsText, FieldsText, At, EndsToken;
    if v.Array? {
      LoopAtBracket(lib, s, p, a, c, depth, 0x5B, ElemsText(lib, v.elems, 0, pretty, indent));
      ArrayRoundTrip(lib, s, p + 1, depth, v, pretty, indent);
    } else if v.Object? {
      LoopAtBracket(lib, s, p, a, c, depth, 0x7B, FieldsText(lib, v.fields, 0, pretty, indent));
      ObjectRoundTrip(lib, s, p + 1, depth, v, pretty, indent);
    } else {
      ExactScalar(v, depth);
      ScalarRoundTrip(lib, s, p, a, c, depth, v, pretty, indent);
    }
  }

  lemma ExactScalar(v: Json, depth: nat)
    requires depth > 0 && Exact(v) && !v.Array? && !v.Object?
    ensures (v.Null? || v.Bool? || v.Long? || v.String?) && Within(v, depth - 1)
  {
  }

  lemma {:induction false} ArrayRoundTrip(lib: Library, s: Bytes, p: nat, depth: nat, v: Json, pretty: bool,
                                          indent: nat)
    requires lib.Valid() && depth > 0 && v.Array? && Clean(v) && Exact(v)
    requires At(s, p, ElemsText(lib, v.elems, 0, pretty, indent))
    ensures Outcome(ElemsAt(lib, s, p, ARRAY, depth, []), v, depth, p + |ElemsText(lib, v.elems, 0, pretty, indent)|)
    decreases v, 2
  {
    ElemsRoundTrip(lib, s, p, depth, v.elems, 0, pretty, indent, p + |ElemsText(lib, v.elems, 0, pretty, indent)|);
    assert v.elems[..0] == [];
    WithinParts(v, depth);
  }

  lemma {:induction false} ObjectRoundTrip(lib: Library, s: Bytes, p: nat, depth: nat, v: Json, pretty: bool,
                                           indent: nat)
    requires lib.Valid() && depth > 0 && v.Object? && Clean(v) && Exact(v)
    requires At(s, p, FieldsText(lib, v.fields, 0, pretty, indent))
    ensures Outcome(FieldsAt(lib, s, p, KEY_OBJECT, depth, [], Null), v, depth,
                    p + |FieldsText(lib, v.fields, 0, pretty, indent)|)
    decreases v, 2
  {
    FieldsRoundTrip(lib, s, p, depth, v.fields, 0, pretty, indent, p + |FieldsText(lib, v.fields, 0, pretty, indent)|);
    assert v.fields[..0] == [];
    WithinParts(v, depth);
  }

  lemma WithinParts(v: Json, depth: nat)
    requires depth > 0
    ensures v.Array? ==> (Within(v, depth - 1) <==> ElemsWithin(v.elems, 0, depth))
    ensures v.Object? ==> (Within(v, depth - 1) <==> FieldsWithin(v.fields, 0, depth))
  {
    if v.Array? {
      assert forall i :: 0 <= i < |v.elems| ==> v.elems[i] in v.elems;
    }
    if v.Object? {
      assert forall i :: 0 <= i < |v.fields| ==> v.fields[i] in v.fields;
    }
  }

  lemma LoopAtBracket(lib: Library, s: Bytes, p: nat, a: nat, c: Context, depth: nat, x: byte, t: Bytes)
    requires lib.Valid() && a <= p && depth > 0 && !Blocked(c) && At(s, p, [x] + t) && (x == 0x5B || x == 0x7B)
    ensures At(s, p + 1, t)
    ensures Loop(lib, s, p, a, 1, c, depth, Null)
         == if x == 0x5B then ElemsAt(lib, s, p + 1, ARRAY, depth, [])
            else FieldsAt(lib, s, p + 1, KEY_OBJECT, depth, [], Null)
  {
    hide Loop, ElemsAt, FieldsAt;
    AtByte(s, p, [x] + t, 0);
    AtSplit(s, p, [x], t);
    LoopAtValue(lib, s, p, a, 1, c, depth, Null);
  }

  ghost predicate FieldsWithin(fields: seq<Field>, k: nat, depth: nat) {
    depth >= 2 && forall i :: k <= i < |fields| ==> Within(fields[i].value, depth - 2)
  }

  ghost predicate ElemsWithin(elems: seq<Json>, k: nat, depth: nat) {
    depth >= 2 && forall i :: k <= i < |elems| ==> Within(elems[i], depth - 2)
  }

  lemma ElemParts(lib: Library, elems: seq<Json>, k: nat, pretty: bool, indent: nat)
    requires k < |elems|
    ensures var t, gap := Text(lib, elems[k], pretty, indent), if pretty then [0x20] else [];
      AllSpaces(gap) && ElemText(lib, elems, k, pretty, indent) == if k == 0 then t else [0x2C] + gap + t
  {
    hide Text;
  }

  /** One element, separator included, read by the call of `parse` inside the array loop. */
  lemma {:induction false} ElemRoundTrip(lib: Library, s: Bytes, p: nat, depth: nat, elems: seq<Json>, k: nat,
                                         pretty: bool, indent: nat)
    requires lib.Valid() && depth >= 2 && k < |elems| && Clean(elems[k]) && Exact(elems[k])
    requires At(s, p, ElemText(lib, elems, k, pretty, indent))
      && EndsToken(s, p + |ElemText(lib, elems, k, pretty, indent)|)
    ensures Outcome(Parse(lib, s, p, ArrayContext(k), depth - 1, Null), elems[k], depth - 1,
                    p + |ElemText(lib, elems, k, pretty, indent)|)
    decreases elems, 0
  {
    hide Loop, Text, Clean, Exact, Within, EndsToken, ElemText, At, AllSpaces;
    var t := Text(lib, elems[k], pretty, indent);
    ElemParts(lib, elems, k, pretty, indent);
    if k == 0 {
      ValueRoundTrip(lib, s, p, p, ARRAY, depth - 1, elems[k], pretty, indent);
    } else {
      var gap := if pretty then [0x20] else [];
      AtSplit(s, p, [0x2C] + gap, t);
      SkipSeparator(lib, s, p, ARRAY_COMMA, depth - 1, Null, 0x2C, gap);
      var q := p + 1 + |gap|;
      ValueRoundTrip(lib, s, q, q, PLAIN, depth - 1, elems[k], pretty, indent);
    }
  }

  /** One turn of the array loop, by what its call of `parse` returned. */
  lemma ElemsStep(lib: Library, s: Bytes, p: nat, c: Context, depth: nat, elems: seq<Json>, v: Parsed)
    requires lib.Valid() && p <= |s| && depth > 0 && v == Parse(lib, s, p, c, depth - 1, Null)
    ensures var r := ElemsAt(lib, s, p, c, depth, elems);
      && (v.status == AbsentValue ==> r == Parsed(Success, Array(elems), v.p))
      && (v.status == DepthExceeded ==> r.status == DepthExceeded)
      && (v.status == Success ==> r == ElemsAt(lib, s, v.p, ARRAY_COMMA, depth, elems + [v.json]))
  {
  }

  lemma ParseAtClose(lib: Library, s: Bytes, p: nat, c: Context, depth: nat)
    requires lib.Valid() && p < |s| && depth > 0
    requires (s[p] == 0x5D && c.inArray) || (s[p] == 0x7D && c.inObject)
    ensures Parse(lib, s, p, c, depth, Null) == Parsed(AbsentValue, Null, p + 1)
  {
  }

  lemma ParseTooDeep(lib: Library, s: Bytes, p: nat, c: Context)
    requires lib.Valid() && p <= |s|
    ensures Parse(lib, s, p, c, 0, Null).status == DepthExceeded
  {
  }

  function ArrayContext(k: nat): Context {
    if k == 0 then ARRAY else ARRAY_COMMA
  }

  /** Where the parts of a printed array stand. */
  lemma ElemsParts(lib: Library, s: Bytes, p: nat, elems: seq<Json>, k: nat, pretty: bool, indent: nat)
    requires k < |elems| && At(s, p, ElemsText(lib, elems, k, pretty, indent))
    ensures var first, rest := ElemText(lib, elems, k, pretty, indent), ElemsText(lib, elems, k + 1, pretty, indent);
      && At(s, p, first) && At(s, p + |first|, rest) && EndsToken(s, p + |first|)
      && |ElemsText(lib, elems, k, pretty, indent)| == |first| + |rest|
  {
    hide At, ElemText;
    var first, rest := ElemText(lib, elems, k, pretty, indent), ElemsText(lib, elems, k + 1, pretty, indent);
    AtSplit(s, p, first, rest);
    NextIsSeparator(lib, s, p + |first|, elems, k + 1, pretty, indent);
  }

  lemma ElemsEnd(lib: Library, s: Bytes, p: nat, depth: nat, elems: seq<Json>, pretty: bool, indent: nat)
    requires lib.Valid() && depth >= 2 && At(s, p, ElemsText(lib, elems, |elems|, pretty, indent))
    ensures ElemsAt(lib, s, p, ArrayContext(|elems|), depth, elems[..|elems|])
         == Parsed(Success, Array(elems), p + |ElemsText(lib, elems, |elems|, pretty, indent)|)
  {
    hide Parse, ElemsAt;
    var c := ArrayContext(|elems|);
    AtByte(s, p, ElemsText(lib, elems, |elems|, pretty, indent), 0);
    ParseAtClose(lib, s, p, c, depth - 1);
    assert elems[..|elems|] == elems;
    ElemsStep(lib, s, p, c, depth, elems, Parse(lib, s, p, c, depth - 1, Null));
  }

  ghost predicate ElemsOutcome(r: Parsed, elems: seq<Json>, k: nat, depth: nat, end: nat) {
    if ElemsWithin(elems, k, depth) then r == Parsed(Success, Array(elems), end) else r.status == DepthExceeded
  }

  lemma ElemsTooDeep(lib: Library, s: Bytes, p: nat, c: Context, elems: seq<Json>, k: nat, end: nat)
    requires lib.Valid() && p <= |s| && k <= |elems|
    ensures ElemsOutcome(ElemsAt(lib, s, p, c, 1, elems[..k]), elems, k, 1, end)
  {
    hide Parse, ElemsAt;
    ParseTooDeep(lib, s, p, c);
    ElemsStep(lib, s, p, c, 1, elems[..k], Parse(lib, s, p, c, 0, Null));
  }

  lemma ElemsWithinNext(elems: seq<Json>, k: nat, depth: nat)
    requires depth >= 2 && k <= |elems|
    ensures k == |elems| ==> ElemsWithin(elems, k, depth)
    ensures k < |elems| ==>
      (ElemsWithin(elems, k, depth) <==> Within(elems[k], depth - 2) && ElemsWithin(elems, k + 1, depth))
  {
  }

  /** One element of the array loop: `q` is where the next one starts. */
  lemma {:induction false} OneElem(lib: Library, s: Bytes, p: nat, depth: nat, elems: seq<Json>, k: nat, pretty: bool,
                                   indent: nat)
    returns (q: nat)
    requires lib.Valid() && depth >= 2 && k < |elems|
    requires forall e | e in elems :: Clean(e) && Exact(e)
    requires At(s, p, ElemsText(lib, elems, k, pretty, indent))
    ensures p <= |s| && At(s, q, ElemsText(lib, elems, k + 1, pretty, indent)) && q <= |s|
    ensures q + |ElemsText(lib, elems, k + 1, pretty, indent)| == p + |ElemsText(lib, elems, k, pretty, indent)|
    ensures var r := ElemsAt(lib, s, p, ArrayContext(k), depth, elems[..k]);
      if Within(elems[k], depth - 2) then r == ElemsAt(lib, s, q, ArrayContext(k + 1), depth, elems[..k + 1])
      else r.status == DepthExceeded
    decreases elems, 1, 0
  {
    hide Parse, ElemsAt, ElemText, ElemsText, Clean, Exact, Within, EndsToken, ArrayContext;
    ElemsParts(lib, s, p, elems, k, pretty, indent);
    q := p + |ElemText(lib, elems, k, pretty, indent)|;
    assert elems[k] in elems;
    ElemRoundTrip(lib, s, p, depth, elems, k, pretty, indent);
    ElemsStep(lib, s, p, ArrayContext(k), depth, elems[..k], Parse(lib, s, p, ArrayContext(k), depth - 1, Null));
    assert elems[..k] + [elems[k]] == elems[..k + 1];
    NextContext(k);
  }

  /** The array loop, entered with the first `k` elements already read. */
  lemma {:induction false} ElemsRoundTrip(lib: Library, s: Bytes, p: nat, depth: nat, elems: seq<Json>, k: nat,
                                          pretty: bool, indent: nat, end: nat)
    requires lib.Valid() && depth > 0 && k <= |elems|
    requires forall e | e in elems :: Clean(e) && Exact(e)
    requires p <= |s| && At(s, p, ElemsText(lib, elems, k, pretty, indent))
    requires end == p + |ElemsText(lib, elems, k, pretty, indent)|
    ensures ElemsOutcome(ElemsAt(lib, s, p, ArrayContext(k), depth, elems[..k]), elems, k, depth, end)
    decreases elems, 2, |elems| - k
  {
    hide ElemsAt, ElemText, ElemsText, Clean, Exact, Within, ArrayContext, At, EndsToken, ElemsWithin;
    if depth == 1 {
      ElemsTooDeep(lib, s, p, ArrayContext(k), elems, k, end);
    } else {
      ElemsWithinNext(elems, k, depth);
      if k == |elems| {
        ElemsEnd(lib, s, p, depth, elems, pretty, indent);
      } else {
        var q := OneElem(lib, s, p, depth, elems, k, pretty, indent);
        if Within(elems[k], depth - 2) {
          ElemsRoundTrip(lib, s, q, depth, elems, k + 1, pretty, indent, end);
        }
      }
    }
  }

  lemma NextContext(k: nat)
    ensures ArrayContext(k + 1) == ARRAY_COMMA && ObjectContext(k + 1) == KEY_COMMA_OBJECT
  {
  }

  // ----- objects -----

  function ObjectContext(k: nat): Context {
    if k == 0 then KEY_OBJECT else KEY_COMMA_OBJECT
  }

  /** One turn of the object loop, by what its two calls of `parse` returned. */
  lemma FieldsStep(lib: Library, s: Bytes, p: nat, c: Context, depth: nat, fields: seq<Field>, key: Bytes, q: nat,
                   v: Parsed)
    requires lib.Valid() && p <= q <= |s| && depth > 0
    requires Parse(lib, s, p, c, depth - 1, Null) == Parsed(Success, String(key), q)
    requires v == Parse(lib, s, q, COLON, depth - 1, Null)
    ensures var r := FieldsAt(lib, s, p, c, depth, fields, Null);
      && (v.status == DepthExceeded ==> r.status == DepthExceeded)
      && (v.status == Success && !HasKey(fields, key) ==>
            r == FieldsAt(lib, s, v.p, KEY_COMMA_OBJECT, depth, Emplace(fields, key, v.json), Null))
  {
  }

  lemma FieldsStop(lib: Library, s: Bytes, p: nat, c: Context, depth: nat, fields: seq<Field>, k: Parsed)
    requires lib.Valid() && p <= |s| && depth > 0 && k == Parse(lib, s, p, c, depth - 1, Null)
    ensures var r := FieldsAt(lib, s, p, c, depth, fields, Null);
      && (k.status == AbsentValue ==> r == Parsed(Success, Object(fields), k.p))
      && (k.status == DepthExceeded ==> r.status == DepthExceeded)
  {
  }

  lemma GapIsSpace(fields: seq<Field>, pretty: bool, indent: nat)
    ensures AllSpaces(if Multiline(fields, pretty) then NewLine(indent) else [])
  {
    SpacesAreSpaces(2 * indent);
  }

  /** The key of field `k`, separator included, read by the first call of `parse` in the object loop. */
  lemma KeyRoundTrip(lib: Library, s: Bytes, p: nat, depth: nat, fields: seq<Field>, k: nat, pretty: bool, indent: nat)
    requires lib.Valid() && depth > 0 && k < |fields| && WellFormed(fields[k].key)
    requires At(s, p, FieldLead(fields, k, pretty, indent) + Quoted(fields[k].key))
    ensures Parse(lib, s, p, ObjectContext(k), depth, Null)
         == Parsed(Success, String(fields[k].key), p + |FieldLead(fields, k, pretty, indent)| + |Quoted(fields[k].key)|)
  {
    hide ValueAt, Quoted, WellFormed, IsSpace, AllSpaces, FieldLead;
    var lead, key := FieldLead(fields, k, pretty, indent), fields[k].key;
    AtSplit(s, p, lead, Quoted(key));
    LeadRoundTrip(lib, s, p, depth, fields, k, pretty, indent);
    QuotedRoundTrip(lib, s, p + |lead|, p + |lead|, if k == 0 then KEY_OBJECT else PLAIN, depth, key);
  }

  lemma LeadRoundTrip(lib: Library, s: Bytes, p: nat, depth: nat, fields: seq<Field>, k: nat, pretty: bool, indent: nat)
    requires lib.Valid() && depth > 0 && At(s, p, FieldLead(fields, k, pretty, indent))
    ensures var q := p + |FieldLead(fields, k, pretty, indent)|;
      Parse(lib, s, p, ObjectContext(k), depth, Null)
      == Loop(lib, s, q, q, 1, if k == 0 then KEY_OBJECT else PLAIN, depth, Null)
  {
    hide Loop, AllSpaces, At, NewLine;
    var gap: Bytes := if Multiline(fields, pretty) then NewLine(indent + 1) else [];
    GapIsSpace(fields, pretty, indent + 1);
    if k == 0 {
      assert FieldLead(fields, k, pretty, indent) == gap;
      SkipSpaces(lib, s, p, KEY_OBJECT, depth, Null, gap);
    } else {
      SkipSeparator(lib, s, p, KEY_COMMA_OBJECT, depth, Null, 0x2C, gap);
    }
  }

  lemma ColonRoundTrip(lib: Library, s: Bytes, p: nat, depth: nat, pretty: bool)
    requires lib.Valid() && depth > 0 && At(s, p, Colon(pretty))
    ensures var q := p + |Colon(pretty)|;
      Parse(lib, s, p, COLON, depth, Null) == Loop(lib, s, q, q, 1, PLAIN, depth, Null)
  {
    hide Loop;
    var gap: Bytes := if pretty then [0x20] else [];
    assert Colon(pretty) == [0x3A] + gap;
    SkipSeparator(lib, s, p, COLON, depth, Null, 0x3A, gap);
  }

  lemma ClosingRoundTrip(lib: Library, s: Bytes, p: nat, c: Context, depth: nat, fields: seq<Field>, pretty: bool,
                         indent: nat)
    requires lib.Valid() && depth > 0 && c.inObject && At(s, p, Closing(fields, pretty, indent))
    ensures Parse(lib, s, p, c, depth, Null) == Parsed(AbsentValue, Null, p + |Closing(fields, pretty, indent)|)
  {
    hide Loop, AllSpaces, At, NewLine;
    var gap: Bytes := if Multiline(fields, pretty) then NewLine(indent) else [];
    GapIsSpace(fields, pretty, indent);
    AtSplit(s, p, gap, [0x7D]);
    AtByte(s, p + |gap|, [0x7D], 0);
    SkipSpaces(lib, s, p, c, depth, Null, gap);
    ParseAtClose(lib, s, p + |gap|, c, depth);
  }

  function InnerIndent(fields: seq<Field>, pretty: bool, indent: nat): nat {
    if Multiline(fields, pretty) then indent + 1 else indent
  }

  /** Where the parts of a printed field stand. */
  lemma FieldParts(lib: Library, s: Bytes, p: nat, fields: seq<Field>, k: nat, pretty: bool, indent: nat)
    requires k < |fields| && At(s, p, FieldsText(lib, fields, k, pretty, indent))
    ensures var lead, key, colon := FieldLead(fields, k, pretty, indent), Quoted(fields[k].key), Colon(pretty);
      var t := Text(lib, fields[k].value, pretty, InnerIndent(fields, pretty, indent));
      var q := p + |lead| + |key|;
      && At(s, p, lead + key) && At(s, q, colon) && At(s, q + |colon|, t)
      && At(s, q + |colon| + |t|, FieldsText(lib, fields, k + 1, pretty, indent))
      && |FieldsText(lib, fields, k, pretty, indent)|
         == |lead| + |key| + |colon| + |t| + |FieldsText(lib, fields, k + 1, pretty, indent)|
  {
    hide Text, Quoted, Colon, FieldLead, At;
    var lead, key, colon := FieldLead(fields, k, pretty, indent), Quoted(fields[k].key), Colon(pretty);
    var t := Text(lib, fields[k].value, pretty, InnerIndent(fields, pretty, indent));
    var rest := FieldsText(lib, fields, k + 1, pretty, indent);
    assert FieldText(lib, fields, k, pretty, indent) == key + colon + t;
    assert FieldsText(lib, fields, k, pretty, indent) == lead + key + (colon + t + rest);
    AtSplit(s, p, lead + key, colon + t + rest);
    AtSplit(s, p + |lead + key|, colon + t, rest);
    AtSplit(s, p + |lead + key|, colon, t);
  }

  lemma FieldsEnd(lib: Library, s: Bytes, p: nat, depth: nat, fields: seq<Field>, pretty: bool, indent: nat)
    requires lib.Valid() && depth >= 2 && At(s, p, FieldsText(lib, fields, |fields|, pretty, indent))
    ensures FieldsAt(lib, s, p, ObjectContext(|fields|), depth, fields[..|fields|], Null)
         == Parsed(Success, Object(fields), p + |FieldsText(lib, fields, |fields|, pretty, indent)|)
  {
    hide Parse, FieldsAt, Closing, At;
    var c := ObjectContext(|fields|);
    ClosingRoundTrip(lib, s, p, c, depth - 1, fields, pretty, indent);
    FieldsStop(lib, s, p, c, depth, fields, Parse(lib, s, p, c, depth - 1, Null));
    assert fields[..|fields|] == fields;
  }

  ghost predicate FieldsOutcome(r: Parsed, fields: seq<Field>, k: nat, depth: nat, end: nat) {
    if FieldsWithin(fields, k, depth) then r == Parsed(Success, Object(fields), end) else r.status == DepthExceeded
  }

  lemma FieldsTooDeep(lib: Library, s: Bytes, p: nat, c: Context, fields: seq<Field>, k: nat, end: nat)
    requires lib.Valid() && p <= |s| && k <= |fields|
    ensures FieldsOutcome(FieldsAt(lib, s, p, c, 1, fields[..k], Null), fields, k, 1, end)
  {
    hide Parse, FieldsAt;
    ParseTooDeep(lib, s, p, c);
    FieldsStop(lib, s, p, c, 1, fields[..k], Parse(lib, s, p, c, 0, Null));
  }

  lemma WithinNext(fields: seq<Field>, k: nat, depth: nat)
    requires depth >= 2 && k < |fields|
    ensures FieldsWithin(fields, k, depth) <==> Within(fields[k].value, depth - 2) && FieldsWithin(fields, k + 1, depth)
  {
  }

  /** The object loop, entered with the first `k` fields already read. */
  lemma {:induction false} FieldsRoundTrip(lib: Library, s: Bytes, p: nat, depth: nat, fields: seq<Field>, k: nat,
                                          pretty: bool, indent: nat, end: nat)
    requires lib.Valid() && depth > 0 && k <= |fields|
    requires Sorted(fields) && forall f: Field | f in fields :: WellFormed(f.key) && Clean(f.value) && Exact(f.value)
    requires p <= |s| && At(s, p, FieldsText(lib, fields, k, pretty, indent))
    requires end == p + |FieldsText(lib, fields, k, pretty, indent)|
    ensures FieldsOutcome(FieldsAt(lib, s, p, ObjectContext(k), depth, fields[..k], Null), fields, k, depth, end)
    decreases fields, 1, |fields| - k
  {
    hide FieldsAt, At, Clean, Exact, Within, WellFormed, FieldsText, ObjectContext, Sorted, FieldsWithin;
    if depth == 1 {
      FieldsTooDeep(lib, s, p, ObjectContext(k), fields, k, end);
    } else if k == |fields| {
      FieldsEnd(lib, s, p, depth, fields, pretty, indent);
      WithinAll(fields, depth);
    } else {
      var q := OneField(lib, s, p, depth, fields, k, pretty, indent);
      WithinNext(fields, k, depth);
      if Within(fields[k].value, depth - 2) {
        FieldsRoundTrip(lib, s, q, depth, fields, k + 1, pretty, indent, end);
      }
    }
  }

  lemma WithinAll(fields: seq<Field>, depth: nat)
    requires depth >= 2
    ensures FieldsWithin(fields, |fields|, depth)
  {
  }

  lemma EmplaceNext(fields: seq<Field>, k: nat)
    requires Sorted(fields) && k < |fields|
    ensures Emplace(fields[..k], fields[k].key, fields[k].value) == fields[..k + 1]
    ensures !HasKey(fields[..k], fields[k].key)
  {
    EmplaceLast(fields[..k], fields[k].key, fields[k].value);
    assert fields[..k + 1] == fields[..k] + [fields[k]];
  }

  /** A field's value, colon included, read by the second call of `parse` inside the object loop. */
  lemma {:induction false} FieldValue(lib: Library, s: Bytes, q: nat, depth: nat, v: Json, pretty: bool, indent: nat)
    requires lib.Valid() && depth > 0 && Clean(v) && Exact(v)
    requires At(s, q, Colon(pretty)) && At(s, q + |Colon(pretty)|, Text(lib, v, pretty, indent))
    requires EndsToken(s, q + |Colon(pretty)| + |Text(lib, v, pretty, indent)|)
    ensures q <= |s|
    ensures Outcome(Parse(lib, s, q, COLON, depth, Null), v, depth,
                    q + |Colon(pretty)| + |Text(lib, v, pretty, indent)|)
    decreases v, 4
  {
    hide *;
    AtRange(s, q, Colon(pretty));
    AtRange(s, q + |Colon(pretty)|, Text(lib, v, pretty, indent));
    ColonRoundTrip(lib, s, q, depth, pretty);
    PlainIsFree();
    ValueRoundTrip(lib, s, q + |Colon(pretty)|, q + |Colon(pretty)|, PLAIN, depth, v, pretty, indent);
  }

  lemma PlainIsFree()
    ensures !Blocked(PLAIN)
  {
  }

  /** What one turn of the object loop makes of the outcome of those two calls. */
  lemma FieldTurn(lib: Library, s: Bytes, p: nat, depth: nat, fields: seq<Field>, k: nat, q: nat, next: nat)
    requires lib.Valid() && depth >= 2 && k < |fields| && Sorted(fields) && p <= q <= next <= |s|
    requires Parse(lib, s, p, ObjectContext(k), depth - 1, Null) == Parsed(Success, String(fields[k].key), q)
    requires Outcome(Parse(lib, s, q, COLON, depth - 1, Null), fields[k].value, depth - 1, next)
    ensures var r := FieldsAt(lib, s, p, ObjectContext(k), depth, fields[..k], Null);
      if Within(fields[k].value, depth - 2)
      then r == FieldsAt(lib, s, next, ObjectContext(k + 1), depth, fields[..k + 1], Null)
      else r.status == DepthExceeded
  {
    hide Parse, FieldsAt, Within, Emplace, HasKey, Sorted;
    FieldsStep(lib, s, p, ObjectContext(k), depth, fields[..k], fields[k].key, q,
      Parse(lib, s, q, COLON, depth - 1, Null));
    EmplaceNext(fields, k);
  }

  /** One field of the object loop: `next` is where the next one starts. */
  lemma {:induction false} OneField(lib: Library, s: Bytes, p: nat, depth: nat, fields: seq<Field>, k: nat,
                                    pretty: bool, indent: nat) returns (next: nat)
    requires lib.Valid() && depth >= 2 && k < |fields|
    requires Sorted(fields) && forall f: Field | f in fields :: WellFormed(f.key) && Clean(f.value) && Exact(f.value)
    requires At(s, p, FieldsText(lib, fields, k, pretty, indent))
    ensures p <= |s| && At(s, next, FieldsText(lib, fields, k + 1, pretty, indent)) && next <= |s|
    ensures next + |FieldsText(lib, fields, k + 1, pretty, indent)| == p + |FieldsText(lib, fields, k, pretty, indent)|
    ensures var r := FieldsAt(lib, s, p, ObjectContext(k), depth, fields[..k], Null);
      if Within(fields[k].value, depth - 2)
      then r == FieldsAt(lib, s, next, ObjectContext(k + 1), depth, fields[..k + 1], Null)
      else r.status == DepthExceeded
    decreases fields, 0
  {
    hide *;
    FieldParts(lib, s, p, fields, k, pretty, indent);
    KeyRoundTrip(lib, s, p, depth - 1, fields, k, pretty, indent);
    var q := p + |FieldLead(fields, k, pretty, indent)| + |Quoted(fields[k].key)|;
    var inner := InnerIndent(fields, pretty, indent);
    next := q + |Colon(pretty)| + |Text(lib, fields[k].value, pretty, inner)|;
    NextIsFieldSeparator(lib, s, next, fields, k + 1, pretty, indent);
    AtRange(s, next, FieldsText(lib, fields, k + 1, pretty, indent));
    FieldValue(lib, s, q, depth - 1, fields[k].value, pretty, inner);
    FieldTurn(lib, s, p, depth, fields, k, q, next);
  }
}
