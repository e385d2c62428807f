/** Json::parse: the recursive descent over values, with its context mask and depth budget. */
module JsonParser {
  import opened ByteSeq
  import opened Utf8
  import opened Json
  import opened JsonString

  const DEPTH: nat := 20

  /** The context bit mask. */
  datatype Context = Context(key: bool, comma: bool, colon: bool, inArray: bool, inObject: bool)

  const PLAIN := Context(false, false, false, false, false)
  const ARRAY := Context(false, false, false, true, false)
  const ARRAY_COMMA := Context(false, true, false, true, false)
  const COLON := Context(false, false, true, false, false)
  const KEY_OBJECT := Context(true, false, false, false, true)
  const KEY_COMMA_OBJECT := Context(true, true, false, false, true)

  /** Status, the value of the `json` argument and the position of `p` on return. */
  datatype Parsed = Parsed(status: Status, json: Json, p: nat)

  predicate IsSpace(c: byte) { c == 0x20 || c == 0x0A || c == 0x0D || c == 0x09 }

  predicate IsDigit(c: byte) { 0x30 <= c <= 0x39 }

  predicate IsExponent(c: byte) { c == 0x65 || c == 0x45 }

  predicate Fits(x: int) { -0x8000_0000_0000_0000 <= x <= 0x7FFF_FFFF_FFFF_FFFF }

  predicate Literal(s: Bytes, p: nat, t: Bytes) {
    p + |t| <= |s| && s[p..p + |t|] == t
  }

  /** The labels `OnColonCommaKey` and `OnColonComma`. */
  function OnColonCommaKey(c: Context): Status {
    if c.key then ObjectKeyMustBeString else OnColonComma(c)
  }

  function OnColonComma(c: Context): Status {
    if c.colon then MissingColon else MissingComma
  }

  predicate Blocked(c: Context) { c.key || c.colon || c.comma }

  // ----- numbers -----

  datatype Integer = Whole(x: int64, p: nat) | UseDouble | NotANumber

  /** The digit loop: overflow, a fraction or an exponent switch to double conversion. */
  function IntegerFrom(s: Bytes, p: nat, x: int64, d: int): (r: Integer)
    requires p <= |s| && (d == 1 || d == -1)
    ensures r.Whole? ==> p <= r.p <= |s|
    decreases |s| - p
  {
    if p == |s| then Whole(x, p)
    else if IsDigit(s[p]) then
      var x10 := x as int * 10;
      var next := x10 + (s[p] as int - 0x30) * d;
      if Fits(x10) && Fits(next) then IntegerFrom(s, p + 1, next, d) else UseDouble
    else if s[p] == 0x2E then
      if p + 1 == |s| || !IsDigit(s[p + 1]) then NotANumber else UseDouble
    else if IsExponent(s[p]) then UseDouble
    else Whole(x, p)
  }

  /** The label `UseDubble`: convert the text from `a` on. */
  function DoubleFrom(lib: Library, s: Bytes, a: nat, json: Json): (r: Parsed)
    requires a <= |s|
  {
    var t := lib.toDouble(s[a..]);
    if t.used <= 0 then Parsed(BadDouble, json, a)
    else if a + t.used < |s| && IsExponent(s[a + t.used]) then Parsed(BadExponent, json, a)
    else Parsed(Success, Double(t.bits), a + t.used)
  }

  function ZeroFrom(lib: Library, s: Bytes, p: nat, a: nat, json: Json): (r: Parsed)
    requires a <= p <= |s|
  {
    if p < |s| && s[p] == 0x2E then
      if p + 1 == |s| || !IsDigit(s[p + 1]) then Parsed(BadDouble, json, p) else DoubleFrom(lib, s, a, json)
    else if p < |s| && IsExponent(s[p]) then DoubleFrom(lib, s, a, json)
    else if p < |s| && IsDigit(s[p]) then Parsed(UnexpectedOctal, json, p)
    else Parsed(Success, Long(0), p)
  }

  function NumberFrom(lib: Library, s: Bytes, p: nat, a: nat, d: int, json: Json): (r: Parsed)
    requires a <= p < |s| && (d == 1 || d == -1) && 0x31 <= s[p] <= 0x39
  {
    match IntegerFrom(s, p + 1, (s[p] as int - 0x30) * d, d)
    case Whole(x, q) => Parsed(Success, Long(x), q)
    case UseDouble => DoubleFrom(lib, s, a, json)
    case NotANumber => Parsed(BadDouble, json, p)
  }

  // ----- values -----

  /** A call of `parse`, `json` being the value of its reference argument. */
  function Parse(lib: Library, s: Bytes, p: nat, c: Context, depth: nat, json: Json): (r: Parsed)
    requires p <= |s| && lib.Valid()
    ensures r.status == Success ==> p < r.p <= |s|
    ensures r.status == AbsentValue ==> p <= r.p <= |s|
    decreases depth, 3, 0
  {
    if depth == 0 then Parsed(DepthExceeded, json, p) else Loop(lib, s, p, p, 1, c, depth, json)
  }

  /** Its loop over characters: `a` is where a number's text would start, `d` the sign seen. */
  function Loop(lib: Library, s: Bytes, p: nat, a: nat, d: int, c: Context, depth: nat, json: Json): (r: Parsed)
    requires a <= p <= |s| && (d == 1 || d == -1) && depth > 0 && lib.Valid()
    ensures r.status == Success ==> a < r.p <= |s|
    ensures r.status == AbsentValue ==> a <= r.p <= |s|
    decreases depth, 2, |s| - p
  {
    if p == |s| then Parsed(if depth == DEPTH then AbsentValue else UnexpectedEof, json, p)
    else
      var x, q := s[p], p + 1;
      if IsSpace(x) then Loop(lib, s, q, q, d, c, depth, json)
      else if x == 0x2C then
        if c.comma then Loop(lib, s, q, q, d, PLAIN, depth, json) else Parsed(UnexpectedComma, json, q)
      else if x == 0x3A then
        if c.colon then Loop(lib, s, q, q, d, PLAIN, depth, json) else Parsed(UnexpectedColon, json, q)
      else if x == 0x5D then Parsed(if c.inArray then AbsentValue else UnexpectedEndOfArray, json, q)
      else if x == 0x7D then Parsed(if c.inObject then AbsentValue else UnexpectedEndOfObject, json, q)
      else if x == 0x22 then
        if c.colon || c.comma then Parsed(OnColonComma(c), json, q) else StringAt(s, q, json)
      else if x == 0x2D || IsDigit(x) || x in {0x6E, 0x66, 0x74, 0x5B, 0x7B} then
        if Blocked(c) then Parsed(OnColonCommaKey(c), json, q)
        else if x == 0x2D then
          if q < |s| && IsDigit(s[q]) then Loop(lib, s, q, a, -1, c, depth, json)
          else Parsed(BadNegative, json, q)
        else ValueAt(lib, s, p, a, d, depth, json)
      else Parsed(IllegalCharacter, json, q)
  }

  function StringAt(s: Bytes, q: nat, json: Json): (r: Parsed)
    requires q <= |s|
    ensures r.status == Success ==> q < r.p <= |s|
    ensures r.status != AbsentValue
  {
    match ScanFrom(s, q, [])
    case Closed(b, next) => Parsed(Success, String(b), next)
    case Failed(status) => Parsed(status, json, q)
  }

  /** The cases that start a literal, a number, an array or an object. */
  function ValueAt(lib: Library, s: Bytes, p: nat, a: nat, d: int, depth: nat, json: Json): (r: Parsed)
    requires a <= p < |s| && (d == 1 || d == -1) && depth > 0 && lib.Valid()
    requires IsDigit(s[p]) || s[p] in {0x6E, 0x66, 0x74, 0x5B, 0x7B}
    ensures r.status == Success ==> a < r.p <= |s|
    ensures r.status == AbsentValue ==> a <= r.p <= |s|
    decreases depth, 1, 0
  {
    var x := s[p];
    if x == 0x6E then
      if Literal(s, p, [0x6E, 0x75, 0x6C, 0x6C]) then Parsed(Success, json, p + 4)
      else Parsed(IllegalCharacter, json, p + 1)
    else if x == 0x66 then
      if Literal(s, p + 1, [0x61, 0x6C, 0x73, 0x65]) then Parsed(Success, Bool(false), p + 5)
      else Parsed(IllegalCharacter, json, p + 1)
    else if x == 0x74 then
      if Literal(s, p, [0x74, 0x72, 0x75, 0x65]) then Parsed(Success, Bool(true), p + 4)
      else Parsed(IllegalCharacter, json, p + 1)
    else if x == 0x30 then ZeroFrom(lib, s, p + 1, a, json)
    else if x == 0x5B then ElemsAt(lib, s, p + 1, ARRAY, depth, [])
    else if x == 0x7B then FieldsAt(lib, s, p + 1, KEY_OBJECT, depth, [], Null)
    else NumberFrom(lib, s, p, a, d, json)
  }

  /** The loop of the `Array` case; `emplace_back` always leaves `value` null for the next turn. */
  function ElemsAt(lib: Library, s: Bytes, p: nat, c: Context, depth: nat, elems: seq<Json>): (r: Parsed)
    requires p <= |s| && depth > 0 && lib.Valid()
    ensures r.status == Success ==> p <= r.p <= |s|
    ensures r.status != AbsentValue
    decreases depth, 0, |s| - p
  {
    var v := Parse(lib, s, p, c, depth - 1, Null);
    if v.status == AbsentValue then Parsed(Success, Array(elems), v.p)
    else if v.status != Success then Parsed(v.status, Array(elems), p)
    else ElemsAt(lib, s, v.p, ARRAY_COMMA, depth, elems + [v.json])
  }

  /** What is left in `value` after `emplace`. */
  function Leftover(lib: Library, fields: seq<Field>, key: Bytes, value: Json): Json {
    if HasKey(fields, key) && !lib.emplaceMoves then value else Null
  }

  /** The loop of the `Object` case; `json` is what the last `emplace` left in `value`. */
  function FieldsAt(lib: Library, s: Bytes, p: nat, c: Context, depth: nat, fields: seq<Field>, json: Json): (r: Parsed)
    requires p <= |s| && depth > 0 && lib.Valid()
    ensures r.status == Success ==> p <= r.p <= |s|
    ensures r.status != AbsentValue
    decreases depth, 0, |s| - p
  {
    var k := Parse(lib, s, p, c, depth - 1, Null);
    if k.status == AbsentValue then Parsed(Success, Object(fields), k.p)
    else if k.status != Success then Parsed(k.status, Object(fields), p)
    else if !k.json.String? then Parsed(ObjectKeyMustBeString, Object(fields), k.p)
    else
      var v := Parse(lib, s, k.p, COLON, depth - 1, json);
      if v.status == AbsentValue then Parsed(ObjectMissingValue, Object(fields), k.p)
      else if v.status != Success then Parsed(v.status, Object(fields), k.p)
      else FieldsAt(lib, s, v.p, KEY_COMMA_OBJECT, depth, Emplace(fields, k.json.s, v.json),
                    Leftover(lib, fields, k.json.s, v.json))
  }

  /** `Json::parse(const std::string&)`. */
  function ParseText(lib: Library, s: Bytes): (Status, Json)
    requires lib.Valid()
  {
    var r := Parse(lib, s, 0, PLAIN, DEPTH, Null);
    if r.status != Success then (r.status, r.json)
    else if Parse(lib, s, r.p, PLAIN, DEPTH, Null).status != AbsentValue then (TrailingContent, r.json)
    else (Success, r.json)
  }

  // ----- the code -----

  /** The digit loop of the integer case. */
  method ReadInteger(s: Bytes, p0: nat, x0: int64, d: int) returns (r: Integer)
    requires p0 <= |s| && (d == 1 || d == -1)
    ensures r == IntegerFrom(s, p0, x0, d)
  {
    var x: int64, p := x0, p0;
    while p < |s|
      invariant p <= |s| && IntegerFrom(s, p, x, d) == IntegerFrom(s, p0, x0, d)
    {
      var c := s[p];
      if IsDigit(c) {
        if !Fits(x as int * 10) {
          return UseDouble;
        }
        if !Fits(x as int * 10 + (c as int - 0x30) * d) {
          return UseDouble;
        }
        x := x as int * 10 + (c as int - 0x30) * d;
      } else if c == 0x2E {
        if p + 1 == |s| || !IsDigit(s[p + 1]) {
          return NotANumber;
        }
        return UseDouble;
      } else if IsExponent(c) {
        return UseDouble;
      } else {
        break;
      }
      p := p + 1;
    }
    return Whole(x, p);
  }

  method ReadNumber(lib: Library, s: Bytes, p: nat, a: nat, d: int, json: Json) returns (r: Parsed)
    requires a <= p < |s| && (d == 1 || d == -1) && 0x31 <= s[p] <= 0x39
    ensures r == NumberFrom(lib, s, p, a, d, json)
  {
    var i := ReadInteger(s, p + 1, (s[p] as int - 0x30) * d, d);
    match i
    case Whole(x, q) => r := Parsed(Success, Long(x), q);
    case UseDouble => r := DoubleFrom(lib, s, a, json);
    case NotANumber => r := Parsed(BadDouble, json, p);
  }

  /** `parse(json, p, e, context, depth)`. */
  method ParseValue(lib: Library, s: Bytes, p0: nat, c0: Context, depth: nat, json: Json) returns (r: Parsed)
    requires p0 <= |s| && lib.Valid()
    ensures r == Parse(lib, s, p0, c0, depth, json)
    decreases depth, 2
  {
    if depth == 0 {
      return Parsed(DepthExceeded, json, p0);
    }
    var p: nat, a: nat, d, c := p0, p0, 1, c0;
    while p < |s|
      invariant a <= p <= |s| && (d == 1 || d == -1)
      invariant Loop(lib, s, p, a, d, c, depth, json) == Parse(lib, s, p0, c0, depth, json)
    {
      var x := s[p];
      p := p + 1;
      if IsSpace(x) {
        a := p;
      } else if x == 0x2C {
        if !c.comma {
          return Parsed(UnexpectedComma, json, p);
        }
        c := PLAIN;
        a := p;
      } else if x == 0x3A {
        if !c.colon {
          return Parsed(UnexpectedColon, json, p);
        }
        c := PLAIN;
        a := p;
      } else if x == 0x5D {
        return Parsed(if c.inArray then AbsentValue else UnexpectedEndOfArray, json, p);
      } else if x == 0x7D {
        return Parsed(if c.inObject then AbsentValue else UnexpectedEndOfObject, json, p);
      } else if x == 0x22 {
        if c.colon || c.comma {
          return Parsed(OnColonComma(c), json, p);
        }
        r := ReadString(s, p, json);
        return;
      } else if x == 0x2D || IsDigit(x) || x in {0x6E, 0x66, 0x74, 0x5B, 0x7B} {
        if Blocked(c) {
          return Parsed(OnColonCommaKey(c), json, p);
        }
        if x != 0x2D {
          r := ReadValue(lib, s, p - 1, a, d, depth, json);
          return;
        }
        if p == |s| || !IsDigit(s[p]) {
          return Parsed(BadNegative, json, p);
        }
        d := -1;
      } else {
        return Parsed(IllegalCharacter, json, p);
      }
    }
    return Parsed(if depth == DEPTH then AbsentValue else UnexpectedEof, json, p);
  }

  method ReadString(s: Bytes, q: nat, json: Json) returns (r: Parsed)
    requires q <= |s|
    ensures r == StringAt(s, q, json)
  {
    var t := ScanString(s, q);
    match t
    case Closed(b, next) => r := Parsed(Success, String(b), next);
    case Failed(status) => r := Parsed(status, json, q);
  }

  method ReadValue(lib: Library, s: Bytes, p: nat, a: nat, d: int, depth: nat, json: Json) returns (r: Parsed)
    requires a <= p < |s| && (d == 1 || d == -1) && depth > 0 && lib.Valid()
    requires IsDigit(s[p]) || s[p] in {0x6E, 0x66, 0x74, 0x5B, 0x7B}
    ensures r == ValueAt(lib, s, p, a, d, depth, json)
    decreases depth, 1
  {
    var x := s[p];
    if x == 0x5B {
      r := ReadElems(lib, s, p + 1, depth);
    } else if x == 0x7B {
      r := ReadFields(lib, s, p + 1, depth);
    } else if 0x31 <= x <= 0x39 {
      r := ReadNumber(lib, s, p, a, d, json);
    } else {
      r := ValueAt(lib, s, p, a, d, depth, json);
    }
  }

  /** The loop of the `Array` case. */
  method ReadElems(lib: Library, s: Bytes, p0: nat, depth: nat) returns (r: Parsed)
    requires p0 <= |s| && depth > 0 && lib.Valid()
    ensures r == ElemsAt(lib, s, p0, ARRAY, depth, [])
    decreases depth, 0
  {
    var p, c, elems: seq<Json> := p0, ARRAY, [];
    while true
      invariant p <= |s|
      invariant ElemsAt(lib, s, p, c, depth, elems) == ElemsAt(lib, s, p0, ARRAY, depth, [])
      decreases |s| - p
    {
      var v := ParseValue(lib, s, p, c, depth - 1, Null);
      if v.status == AbsentValue {
        return Parsed(Success, Array(elems), v.p);
      }
      if v.status != Success {
        return Parsed(v.status, Array(elems), p);
      }
      p, elems, c := v.p, elems + [v.json], ARRAY_COMMA;
    }
  }

  /** The loop of the `Object` case. */
  method ReadFields(lib: Library, s: Bytes, p0: nat, depth: nat) returns (r: Parsed)
    requires p0 <= |s| && depth > 0 && lib.Valid()
    ensures r == FieldsAt(lib, s, p0, KEY_OBJECT, depth, [], Null)
    decreases depth, 0
  {
    var p, c, fields: seq<Field>, value := p0, KEY_OBJECT, [], Null;
    while true
      invariant p <= |s|
      invariant FieldsAt(lib, s, p, c, depth, fields, value) == FieldsAt(lib, s, p0, KEY_OBJECT, depth, [], Null)
      decreases |s| - p
    {
      var k := ParseValue(lib, s, p, c, depth - 1, Null);
      if k.status == AbsentValue {
        return Parsed(Success, Object(fields), k.p);
      }
      if k.status != Success {
        return Parsed(k.status, Object(fields), p);
      }
      if !k.json.String? {
        return Parsed(ObjectKeyMustBeString, Object(fields), k.p);
      }
      var v := ParseValue(lib, s, k.p, COLON, depth - 1, value);
      if v.status == AbsentValue {
        return Parsed(ObjectMissingValue, Object(fields), k.p);
      }
      if v.status != Success {
        return Parsed(v.status, Object(fields), k.p);
      }
      value := Leftover(lib, fields, k.json.s, v.json);
      p, fields, c := v.p, Emplace(fields, k.json.s, v.json), KEY_COMMA_OBJECT;
    }
  }

  /** `Json::parse(const std::string&)`. */
  method ParseDocument(lib: Library, s: Bytes) returns (status: Status, json: Json)
    requires lib.Valid()
    ensures (status, json) == ParseText(lib, s)
  {
    var r := ParseValue(lib, s, 0, PLAIN, DEPTH, Null);
    status, json := r.status, r.json;
    if status == Success {
      var rest := ParseValue(lib, s, r.p, PLAIN, DEPTH, Null);
      if rest.status != AbsentValue {
        status := TrailingContent;
      }
    }
  }
}
