/** The printing half of llamafile/json.cpp. */
module JsonPrinter {
  import opened ByteSeq
  import opened Utf8
  import opened Json

  // ----- numbers -----

  function Pow10(n: nat): nat {
    if n == 0 then 1 else 10 * Pow10(n - 1)
  }

  lemma {:induction false} DigitsLength(x: nat, n: nat)
    requires n >= 1 && x < Pow10(n)
    ensures |Digits(x)| <= n
  {
    if x >= 10 {
      DigitsLength(x / 10, n - 1);
    }
  }

  /** A 64-bit magnitude has at most 20 digits. */
  lemma DigitsFit(x: nat)
    requires x < 0x1_0000_0000_0000_0000
    ensures |Digits(x)| <= 20
  {
    assert Pow10(5) == 100000;
    assert Pow10(10) == 100000 * 100000;
    assert Pow10(15) == 100000 * 100000 * 100000;
    assert Pow10(20) == 100000 * 100000 * 100000 * 100000;
    DigitsLength(x, 20);
  }

  /** `t` written back to front from offset `o`. */
  ghost predicate Mirrored(p: array<byte>, o: nat, t: Bytes)
    reads p
  {
    o + |t| <= p.Length && forall x :: o <= x < o + |t| ==> p[x] == t[|t| - 1 - (x - o)]
  }

  /** The swap loop of `UlongToString`: two indices walk towards each other. */
  method ReverseDigits(p: array<byte>, o: nat, i: nat, ghost t: Bytes)
    requires i == |t| && Mirrored(p, o, t)
    modifies p
    ensures p[o..o + i] == t
    ensures p[..o] == old(p[..o]) && p[o + i..] == old(p[o + i..])
  {
    if i != 0 {
      var a, b := 0, i - 1;
      while a < b
        invariant 0 <= a <= b + 1 && a + b == i - 1
        invariant forall x :: o <= x < o + i ==> p[x] == if o + a <= x <= o + b then t[i - 1 - (x - o)] else t[x - o]
        invariant p[..o] == old(p[..o]) && p[o + i..] == old(p[o + i..])
      {
        p[o + a], p[o + b] := p[o + b], p[o + a];
        a, b := a + 1, b - 1;
      }
      assert forall k :: 0 <= k < i ==> p[o..o + i][k] == p[o + k] == t[k];
    }
  }

  /** Writes the digits of `x` at `p + o`, and a NUL after them; `e` is where the NUL is. */
  method UlongToString(p: array<byte>, o: nat, x: nat) returns (e: nat)
    requires x < 0x1_0000_0000_0000_0000 && o + 21 <= p.Length
    modifies p
    ensures o <= e < p.Length && p[o..e] == Digits(x) && p[e] == 0
    ensures p[..o] == old(p[..o])
  {
    DigitsFit(x);
    var i, r: nat := 0, x;
    ghost var t: Bytes := [];
    while true
      invariant i == |t| && r <= x && |t| + |Digits(r)| <= 20
      invariant Digits(r) + t == Digits(x)
      invariant Mirrored(p, o, t)
      invariant p[..o] == old(p[..o])
      decreases r
    {
      DigitsStep(r, t);
      p[o + i] := 0x30 + r % 10;
      i := i + 1;
      t := [0x30 + r % 10] + t;
      if r / 10 == 0 {
        break;
      }
      r := r / 10;
    }
    p[o + i] := 0;
    ReverseDigits(p, o, i, t);
    e := o + i;
  }

  lemma DigitsStep(r: nat, t: Bytes)
    ensures r < 10 ==> Digits(r) + t == [0x30 + r % 10] + t
    ensures r >= 10 ==> Digits(r) + t == Digits(r / 10) + ([0x30 + r % 10] + t)
    ensures r >= 10 ==> |Digits(r)| == |Digits(r / 10)| + 1
  {
  }

  method LongToString(p: array<byte>, x: int64) returns (e: nat)
    requires p.Length >= 64
    modifies p
    ensures e < p.Length && p[..e] == LongText(x)
  {
    if x < 0 {
      p[0] := 0x2D;
      e := UlongToString(p, 1, -(x as int));
      assert p[..e] == p[..1] + p[1..e];
    } else {
      e := UlongToString(p, 0, x);
      assert p[..e] == p[0..e];
    }
  }

  // ----- strings -----

  /** The decoding loop of `serialize`: the code point read at `i0`, and the position after it. */
  method ReadRune(s: Bytes, i0: nat) returns (x: nat, i: nat)
    requires i0 < |s|
    ensures (x, i) == Rune(s, i0)
  {
    x, i := s[i0] as int, i0 + 1;
    if x >= 0xC0 {
      var lead: byte := x;
      var a: nat := LeadBits(lead);
      var m := LeadLength(lead) - 1;
      if i + m <= |s| {
        var j := 0;
        while true
          invariant 0 <= j < m && i == i0 + 1 && x == lead
          invariant AllTails(s[i..i + j]) && a == Merge(LeadBits(lead), s[i..i + j])
          decreases m - j
        {
          var b := s[i + j];
          if !Tail(b) {
            assert s[i..i + m][j] == b;
            break;
          }
          a := a * 0x40 + (b % 0x40) as int;
          assert s[i..i + j + 1] == s[i..i + j] + [b];
          j := j + 1;
          if j == m {
            x := a;
            i := i + j;
            break;
          }
        }
      }
    }
  }

  method WriteUnit(sb: Bytes, low: nat) returns (sb': Bytes)
    requires low < 0x10000
    ensures sb' == sb + UnitEscape(low)
  {
    sb' := sb + [0x5C, 0x75, HexDigit(low / 0x1000), HexDigit(low / 0x100 % 16), HexDigit(low / 0x10 % 16),
      HexDigit(low % 16)];
  }

  lemma Halves(high: nat, low: nat)
    requires high < 0x10000 && low < 0x10000
    ensures (high * 0x10000 + low) % 0x10000 == low && (high * 0x10000 + low) / 0x10000 == high
    ensures high % 0x10000 == high && high / 0x10000 == 0
  {
  }

  /** The `do ... while (w >>= 16)` loop: one `\uXXXX` for each 16-bit half of `w`. */
  method WriteUnits(sb: Bytes, x: nat) returns (sb': Bytes)
    ensures sb' == sb + UnitsEscape(x)
  {
    UnitsRange(x);
    var u := Units(x);
    var low, high := u[0], if |u| == 2 then u[1] else 0;
    Halves(high, low);
    var w := high * 0x10000 + low;
    sb' := WriteUnit(sb, w % 0x10000);
    w := w / 0x10000;
    while w != 0
      invariant w == high || w == 0
      invariant sb' == sb + UnitEscape(low) + if w == 0 && high != 0 then UnitEscape(high) else []
      decreases w
    {
      sb' := WriteUnit(sb', w % 0x10000);
      w := w / 0x10000;
    }
  }

  lemma UnitsRange(x: nat)
    ensures forall k :: 0 <= k < |Units(x)| ==> Units(x)[k] < 0x10000
    ensures |Units(x)| == 1 || (|Units(x)| == 2 && HighUnit(Units(x)[0]) && LowUnit(Units(x)[1]))
  {
  }

  method WriteRune(sb: Bytes, x: nat) returns (sb': Bytes)
    ensures sb' == sb + Escape(x)
  {
    match EscapeKind(x)
    case 0 => sb' := sb + [x];
    case 1 => sb' := sb + [0x5C, 0x74];
    case 2 => sb' := sb + [0x5C, 0x6E];
    case 3 => sb' := sb + [0x5C, 0x72];
    case 4 => sb' := sb + [0x5C, 0x66];
    case 5 => sb' := sb + [0x5C, 0x5C];
    case 6 => sb' := sb + [0x5C, 0x2F];
    case 7 => sb' := sb + [0x5C, 0x22];
    case _ => sb' := WriteUnits(sb, x);
  }

  lemma Assoc(a: Bytes, b: Bytes, c: Bytes)
    ensures a + b + c == a + (b + c)
  {
  }

  method Serialize(sb: Bytes, s: Bytes) returns (sb': Bytes)
    ensures sb' == sb + Serialized(s, 0)
  {
    sb' := sb;
    var i := 0;
    while i < |s|
      invariant 0 <= i <= |s|
      invariant sb' + Serialized(s, i) == sb + Serialized(s, 0)
    {
      var x, n := ReadRune(s, i);
      Assoc(sb', Escape(x), Serialized(s, n));
      sb' := WriteRune(sb', x);
      i := n;
    }
  }

  method Stringify(b: Bytes, s: Bytes) returns (b': Bytes)
    ensures b' == b + Quoted(s)
  {
    b' := b + [0x22];
    b' := Serialize(b', s);
    b' := b' + [0x22];
  }

  // ----- values -----

  method Indent(b: Bytes, indent: nat) returns (b': Bytes)
    ensures b' == b + Spaces(2 * indent)
  {
    b' := b;
    for j := 0 to indent
      invariant b' == b + Spaces(2 * j)
    {
      b' := b' + [0x20, 0x20];
    }
  }

  method Marshal(lib: Library, v: Json, b: Bytes, pretty: bool, indent: nat) returns (b': Bytes)
    ensures b' == b + Text(lib, v, pretty, indent)
    decreases v, 1
  {
    match v
    case Null => b' := b + [0x6E, 0x75, 0x6C, 0x6C];
    case String(s) => b' := Stringify(b, s);
    case Bool(x) => b' := b + if x then [0x74, 0x72, 0x75, 0x65] else [0x66, 0x61, 0x6C, 0x73, 0x65];
    case Long(n) => b' := MarshalLong(b, n);
    case Float(f) => b' := b + lib.floatText(f);
    case Double(d) => b' := b + lib.doubleText(d);
    case Array(elems) => b' := MarshalElems(lib, elems, b + [0x5B], pretty, indent);
    case Object(fields) => b' := MarshalFields(lib, fields, b + [0x7B], pretty, indent);
  }

  method MarshalLong(b: Bytes, n: int64) returns (b': Bytes)
    ensures b' == b + LongText(n)
  {
    var buf := new byte[64];
    var e := LongToString(buf, n);
    b' := b + buf[..e];
  }

  method MarshalElem(lib: Library, elems: seq<Json>, k: nat, b: Bytes, once: bool, pretty: bool, indent: nat)
    returns (b': Bytes)
    requires k < |elems| && (once <==> k > 0)
    ensures b' == b + ElemText(lib, elems, k, pretty, indent)
    decreases elems, 0
  {
    b' := b;
    if once {
      b' := b' + [0x2C];
      if pretty {
        b' := b' + [0x20];
      }
    }
    b' := Marshal(lib, elems[k], b', pretty, indent);
  }

  /** The loop of the `Array` case. */
  method MarshalElems(lib: Library, elems: seq<Json>, b: Bytes, pretty: bool, indent: nat) returns (b': Bytes)
    ensures b' == b + ElemsText(lib, elems, 0, pretty, indent)
    decreases elems, 1
  {
    b' := b;
    var once := false;
    for k := 0 to |elems|
      invariant once <==> k > 0
      invariant b' + ElemsText(lib, elems, k, pretty, indent) == b + ElemsText(lib, elems, 0, pretty, indent)
    {
      Assoc(b', ElemText(lib, elems, k, pretty, indent), ElemsText(lib, elems, k + 1, pretty, indent));
      b' := MarshalElem(lib, elems, k, b', once, pretty, indent);
      once := true;
    }
    b' := b' + [0x5D];
  }

  method WriteLead(fields: seq<Field>, k: nat, b: Bytes, once: bool, pretty: bool, indent: nat) returns (b': Bytes)
    requires once <==> k > 0
    ensures b' == b + FieldLead(fields, k, pretty, indent)
  {
    b' := b;
    if once {
      b' := b' + [0x2C];
    }
    if pretty && |fields| > 1 {
      b' := b' + [0x0A];
      b' := Indent(b', indent + 1);
    }
  }

  method MarshalField(lib: Library, fields: seq<Field>, k: nat, b: Bytes, pretty: bool, indent: nat) returns (b': Bytes)
    requires k < |fields|
    ensures b' == b + FieldText(lib, fields, k, pretty, indent)
    decreases fields, 0
  {
    hide Text, Quoted, FieldsText, Serialized;
    b' := Stringify(b, fields[k].key);
    b' := b' + [0x3A];
    if pretty {
      b' := b' + [0x20];
    }
    assert b' == b + (Quoted(fields[k].key) + Colon(pretty));
    b' := Marshal(lib, fields[k].value, b', pretty, if Multiline(fields, pretty) then indent + 1 else indent);
  }

  lemma FieldsStep(b: Bytes, lead: Bytes, body: Bytes, rest: Bytes)
    ensures b + (lead + body + rest) == b + lead + body + rest
  {
  }

  /** The loop of the `Object` case. */
  method MarshalFields(lib: Library, fields: seq<Field>, b: Bytes, pretty: bool, indent: nat) returns (b': Bytes)
    ensures b' == b + FieldsText(lib, fields, 0, pretty, indent)
    decreases fields, 1
  {
    b' := b;
    var once := false;
    for k := 0 to |fields|
      invariant once <==> k > 0
      invariant b' + FieldsText(lib, fields, k, pretty, indent) == b + FieldsText(lib, fields, 0, pretty, indent)
    {
      ghost var lead, body := FieldLead(fields, k, pretty, indent), FieldText(lib, fields, k, pretty, indent);
      FieldsStep(b', lead, body, FieldsText(lib, fields, k + 1, pretty, indent));
      b' := WriteLead(fields, k, b', once, pretty, indent);
      b' := MarshalField(lib, fields, k, b', pretty, indent);
      once := true;
    }
    b' := WriteClosing(fields, b', pretty, indent);
  }

  method WriteClosing(fields: seq<Field>, b: Bytes, pretty: bool, indent: nat) returns (b': Bytes)
    ensures b' == b + Closing(fields, pretty, indent)
  {
    b' := b;
    if pretty && |fields| > 1 {
      b' := b' + [0x0A];
      b' := Indent(b', indent);
    }
    b' := b' + [0x7D];
  }

  method ToString(lib: Library, v: Json) returns (b: Bytes)
    ensures b == Text(lib, v, false, 0)
  {
    b := Marshal(lib, v, [], false, 0);
  }

  method ToStringPretty(lib: Library, v: Json) returns (b: Bytes)
    ensures b == Text(lib, v, true, 0)
  {
    b := Marshal(lib, v, [], true, 0);
  }
}
