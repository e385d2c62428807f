/** Numbers in the source text (section 6 of RFC 8259), and how the parser reads them. */
module JsonNumbers {
  import opened ByteSeq
  import opened Json
  import opened JsonString
  import opened JsonParser
  import opened JsonRoundTrip

  /** The number a row of digits denotes. */
  function Decimal(t: Bytes): int {
    if t == [] then 0 else 10 * Decimal(t[..|t| - 1]) + (t[|t| - 1] as int - 0x30)
  }

  /** The end of the row of digits at `p`. */
  function RunEnd(s: Bytes, p: nat): (q: nat)
    requires p <= |s|
    ensures p <= q <= |s| && (forall k :: p <= k < q ==> IsDigit(s[k])) && (q < |s| ==> !IsDigit(s[q]))
    decreases |s| - p
  {
    if p < |s| && IsDigit(s[p]) then RunEnd(s, p + 1) else p
  }

  /** An exponent, or a point with a digit behind it. */
  predicate Fraction(s: Bytes, q: nat) {
    q < |s| && (IsExponent(s[q]) || (s[q] == 0x2E && q + 1 < |s| && IsDigit(s[q + 1])))
  }

  /** Digits at `i` without a leading zero. */
  predicate NumberRun(s: Bytes, i: nat) {
    i < |s| && IsDigit(s[i]) && (s[i] == 0x30 ==> RunEnd(s, i) == i + 1)
  }

  function RunValue(s: Bytes, i: nat): int
    requires i <= |s|
  {
    Decimal(s[i..RunEnd(s, i)])
  }

  // ----- the accumulator -----

  function Acc(x: int, t: Bytes, d: int): int
    decreases |t|
  {
    if t == [] then x else Acc(x * 10 + (t[0] as int - 0x30) * d, t[1..], d)
  }

  lemma {:induction false} AccSnoc(x: int, t: Bytes, b: byte, d: int)
    ensures Acc(x, t + [b], d) == Acc(x, t, d) * 10 + (b as int - 0x30) * d
    decreases |t|
  {
    if t == [] {
      assert [] + [b] == [b] && [b][1..] == [];
    } else {
      assert (t + [b])[1..] == t[1..] + [b];
      AccSnoc(x * 10 + (t[0] as int - 0x30) * d, t[1..], b, d);
    }
  }

  lemma {:induction false} AccIsDecimal(t: Bytes, d: int)
    requires d == 1 || d == -1
    ensures Acc(0, t, d) == d * Decimal(t)
  {
    if t != [] {
      var n := |t| - 1;
      AccIsDecimal(t[..n], d);
      AccSnoc(0, t[..n], t[n], d);
      assert t == t[..n] + [t[n]];
    }
  }

  /** Once it does not fit it never fits again. */
  lemma {:induction false} AccGrows(x: int, t: Bytes, d: int)
    requires (d == 1 || d == -1) && d * x >= 0 && forall k :: 0 <= k < |t| ==> IsDigit(t[k])
    ensures d * Acc(x, t, d) >= d * x
    decreases |t|
  {
    if t != [] {
      AccGrows(x * 10 + (t[0] as int - 0x30) * d, t[1..], d);
    }
  }

  /** The digit loop: where it ends, and with what, for every text. */
  lemma {:induction false} IntegerIs(s: Bytes, p: nat, x: int64, d: int)
    requires p <= |s| && (d == 1 || d == -1) && d * x >= 0
    ensures var q := RunEnd(s, p);
      var v := Acc(x, s[p..q], d);
      IntegerFrom(s, p, x, d)
      == if !Fits(v) || Fraction(s, q) then UseDouble
         else if q < |s| && s[q] == 0x2E then NotANumber
         else Whole(v, q)
    decreases |s| - p
  {
    var q := RunEnd(s, p);
    if p < |s| && IsDigit(s[p]) {
      var next := x as int * 10 + (s[p] as int - 0x30) * d;
      AccFirst(s, p, q, x, d);
      hide Acc;
      if Fits(x as int * 10) && Fits(next) {
        IntegerIs(s, p + 1, next, d);
      } else {
        AccGrows(next, s[p + 1..q], d);
      }
    } else {
      assert s[p..q] == [];
    }
  }

  lemma AccFirst(s: Bytes, p: nat, q: nat, x: int, d: int)
    requires p < q <= |s|
    ensures Acc(x, s[p..q], d) == Acc(x * 10 + (s[p] as int - 0x30) * d, s[p + 1..q], d)
  {
    assert s[p..q][0] == s[p] && s[p..q][1..] == s[p + 1..q];
  }

  /** What the cases for digits make of a number that starts at `i`, with its sign. */
  lemma DigitCase(lib: Library, s: Bytes, i: nat, a: nat, d: int, depth: nat, json: Json)
    requires lib.Valid() && a <= i < |s| && IsDigit(s[i]) && (d == 1 || d == -1) && depth > 0
    ensures var r, q, v := ValueAt(lib, s, i, a, d, depth, json), RunEnd(s, i), d * RunValue(s, i);
      && (!NumberRun(s, i) ==> r.status != Success)
      && (NumberRun(s, i) ==>
            if !Fits(v) || Fraction(s, q) then r == DoubleFrom(lib, s, a, json)
            else if EndsToken(s, q) then r == Parsed(Success, Long(v), q)
            else r.status != Success)
  {
    hide ValueAt, IntegerFrom, Decimal, RunEnd, RunValue, Acc, DoubleFrom;
    if s[i] == 0x30 {
      ZeroCase(lib, s, i, a, d, depth, json);
    } else {
      DigitsAccumulate(s, i, d);
      IntegerIs(s, i + 1, (s[i] as int - 0x30) * d, d);
      NonZeroCase(lib, s, i, a, d, depth, json);
    }
  }

  /** The first digit starts the accumulator. */
  lemma DigitsAccumulate(s: Bytes, i: nat, d: int)
    requires i < |s| && 0x31 <= s[i] <= 0x39 && (d == 1 || d == -1)
    ensures RunEnd(s, i) == RunEnd(s, i + 1) && NumberRun(s, i)
    ensures var first := (s[i] as int - 0x30) * d;
      Fits(first) && d * first >= 0 && Acc(first, s[i + 1..RunEnd(s, i)], d) == d * RunValue(s, i)
  {
    var q := RunEnd(s, i);
    hide Decimal;
    AccIsDecimal(s[i..q], d);
    assert s[i..q][0] == s[i] && s[i..q][1..] == s[i + 1..q];
  }

  lemma NonZeroCase(lib: Library, s: Bytes, i: nat, a: nat, d: int, depth: nat, json: Json)
    requires lib.Valid() && a <= i < |s| && 0x31 <= s[i] <= 0x39 && (d == 1 || d == -1) && depth > 0
    ensures var r, q, v := ValueAt(lib, s, i, a, d, depth, json), RunEnd(s, i), d * RunValue(s, i);
      IntegerFrom(s, i + 1, (s[i] as int - 0x30) * d, d)
        == (if !Fits(v) || Fraction(s, q) then UseDouble
            else if q < |s| && s[q] == 0x2E then NotANumber
            else Whole(v, q)) ==>
        if !Fits(v) || Fraction(s, q) then r == DoubleFrom(lib, s, a, json)
        else if EndsToken(s, q) then r == Parsed(Success, Long(v), q)
        else r.status != Success
  {
    hide IntegerFrom, Decimal, RunValue, DoubleFrom, ElemsAt, FieldsAt;
  }

  lemma ZeroCase(lib: Library, s: Bytes, i: nat, a: nat, d: int, depth: nat, json: Json)
    requires lib.Valid() && a <= i < |s| && s[i] == 0x30 && (d == 1 || d == -1) && depth > 0
    ensures var r, q := ValueAt(lib, s, i, a, d, depth, json), i + 1;
      && (NumberRun(s, i) <==> RunEnd(s, i) == q) && (NumberRun(s, i) ==> RunValue(s, i) == 0)
      && (!NumberRun(s, i) ==> r.status != Success)
      && (NumberRun(s, i) ==>
            if Fraction(s, q) then r == DoubleFrom(lib, s, a, json)
            else if EndsToken(s, q) then r == Parsed(Success, Long(0), q)
            else r.status != Success)
  {
    hide DoubleFrom;
    if NumberRun(s, i) {
      assert s[i..i + 1] == [0x30] && [0x30][..0] == [];
      assert Decimal([0x30]) == 10 * Decimal([]);
    }
  }

  // ----- numbers of the grammar -----

  function Sign(neg: bool): (d: int)
    ensures d == 1 || d == -1
  {
    if neg then -1 else 1
  }

  /** The digits of the number at `p` stand behind its minus sign. */
  function DigitsStart(p: nat, neg: bool): nat {
    if neg then p + 1 else p
  }

  predicate SignStands(s: Bytes, p: nat, neg: bool) {
    p < |s| && (neg ==> s[p] == 0x2D)
  }

  /** A number without fraction or exponent that a 64-bit integer can hold. */
  predicate IntStands(s: Bytes, p: nat, neg: bool, digits: Bytes) {
    var i := DigitsStart(p, neg);
    && SignStands(s, p, neg) && NumberRun(s, i) && digits == s[i..RunEnd(s, i)]
    && Fits(Sign(neg) * Decimal(digits)) && EndsToken(s, RunEnd(s, i))
  }

  /** Any other number: its text is what the conversion to floating point takes. */
  predicate RealStands(lib: Library, s: Bytes, p: nat, neg: bool, size: nat, bits: nat) {
    var i := DigitsStart(p, neg);
    && SignStands(s, p, neg) && NumberRun(s, i)
    && (!Fits(Sign(neg) * RunValue(s, i)) || Fraction(s, RunEnd(s, i)))
    && size > 0 && lib.toDouble(s[p..]) == Scanned(bits, size)
    && !(p + size < |s| && IsExponent(s[p + size]))
  }

  /** A number of the grammar is read as that number. */
  lemma ReadsInt(lib: Library, s: Bytes, p: nat, c: Context, depth: nat, json: Json, neg: bool, digits: Bytes)
    requires lib.Valid() && depth > 0 && !Blocked(c) && IntStands(s, p, neg, digits)
    ensures Loop(lib, s, p, p, 1, c, depth, json)
         == Parsed(Success, Long(Sign(neg) * Decimal(digits)), DigitsStart(p, neg) + |digits|)
  {
    hide Loop, ValueAt, Decimal;
    ReachesDigits(lib, s, p, c, depth, json, neg);
    DigitCase(lib, s, DigitsStart(p, neg), p, Sign(neg), depth, json);
    NoFraction(s, RunEnd(s, DigitsStart(p, neg)));
  }

  lemma NoFraction(s: Bytes, q: nat)
    requires EndsToken(s, q)
    ensures !Fraction(s, q)
  {
  }

  lemma ReachesDigits(lib: Library, s: Bytes, p: nat, c: Context, depth: nat, json: Json, neg: bool)
    requires lib.Valid() && depth > 0 && !Blocked(c) && SignStands(s, p, neg) && NumberRun(s, DigitsStart(p, neg))
    ensures Loop(lib, s, p, p, 1, c, depth, json) == ValueAt(lib, s, DigitsStart(p, neg), p, Sign(neg), depth, json)
  {
    hide Loop, ValueAt, RunEnd;
    if neg {
      LoopAtMinus(lib, s, p, p, 1, c, depth, json);
      LoopAtValue(lib, s, p + 1, p, -1, c, depth, json);
    } else {
      LoopAtValue(lib, s, p, p, 1, c, depth, json);
    }
  }

  lemma ReadsReal(lib: Library, s: Bytes, p: nat, c: Context, depth: nat, json: Json, neg: bool, size: nat, bits: nat)
    requires lib.Valid() && depth > 0 && !Blocked(c) && RealStands(lib, s, p, neg, size, bits)
    ensures Loop(lib, s, p, p, 1, c, depth, json) == Parsed(Success, Double(bits), p + size)
  {
    hide Loop, ValueAt, Decimal;
    ReachesDigits(lib, s, p, c, depth, json, neg);
    DigitCase(lib, s, DigitsStart(p, neg), p, Sign(neg), depth, json);
  }

  /** And what the cases for digits accept is a number of the grammar. */
  lemma OnlyNumbers(lib: Library, s: Bytes, p: nat, neg: bool, depth: nat, json: Json)
    requires lib.Valid() && depth > 0 && SignStands(s, p, neg)
    requires DigitsStart(p, neg) < |s| && IsDigit(s[DigitsStart(p, neg)])
    requires ValueAt(lib, s, DigitsStart(p, neg), p, Sign(neg), depth, json).status == Success
    ensures var i, r := DigitsStart(p, neg), ValueAt(lib, s, DigitsStart(p, neg), p, Sign(neg), depth, json);
      var digits, t := s[i..RunEnd(s, i)], lib.toDouble(s[p..]);
      if IntStands(s, p, neg, digits) then r == Parsed(Success, Long(Sign(neg) * Decimal(digits)), i + |digits|)
      else t.used > 0 && RealStands(lib, s, p, neg, t.used, t.bits) && r == Parsed(Success, Double(t.bits), p + t.used)
  {
    hide ValueAt, Decimal;
    DigitCase(lib, s, DigitsStart(p, neg), p, Sign(neg), depth, json);
  }
}
