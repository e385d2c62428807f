/** Json values, the library calls they depend on, and the text the printer is specified to emit. */
module Json {
  import opened ByteSeq
  import opened Utf8

  type int64 = n: int | -0x8000_0000_0000_0000 <= n <= 0x7FFF_FFFF_FFFF_FFFF

  datatype Json =
    | Null
    | Bool(b: bool)
    | Long(n: int64)
    | Float(f: nat)
    | Double(d: nat)
    | String(s: Bytes)
    | Array(elems: seq<Json>)
    | Object(fields: seq<Field>)

  /** One entry of a `std::map`; a map is kept as the sequence of its entries in key order. */
  datatype Field = Field(key: Bytes, value: Json)

  /** What `StringToDouble` reports: the bits of the number and how many bytes it used. */
  datatype Scanned = Scanned(bits: nat, used: int)

  /** The parts of the C++ and double-conversion libraries the code calls, left arbitrary:
      number conversion, and whether `emplace` empties its argument when the key is taken. */
  datatype Library = Library(toDouble: Bytes -> Scanned, floatText: nat -> Bytes, doubleText: nat -> Bytes,
                             emplaceMoves: bool) {
    ghost predicate Valid() {
      forall t :: toDouble(t).used <= |t|
    }
  }

  /** The order of `std::string` keys. */
  predicate Less(a: Bytes, b: Bytes) {
    b != [] && (a == [] || a[0] < b[0] || (a[0] == b[0] && Less(a[1..], b[1..])))
  }

  ghost predicate Sorted(fields: seq<Field>) {
    forall i, j :: 0 <= i < j < |fields| ==> Less(fields[i].key, fields[j].key)
  }

  function HasKey(fields: seq<Field>, key: Bytes): bool {
    exists f :: f in fields && f.key == key
  }

  /** `std::map::emplace`: a taken key keeps its old value. */
  function Emplace(fields: seq<Field>, key: Bytes, value: Json): seq<Field> {
    if fields == [] then [Field(key, value)]
    else if fields[0].key == key then fields
    else if Less(key, fields[0].key) then [Field(key, value)] + fields
    else [fields[0]] + Emplace(fields[1..], key, value)
  }

  /** All text is UTF-8 and all maps are in key order. */
  ghost predicate Clean(v: Json) {
    match v
    case String(s) => WellFormed(s)
    case Array(elems) => forall e | e in elems :: Clean(e)
    case Object(fields) => Sorted(fields) && forall f: Field | f in fields :: WellFormed(f.key) && Clean(f.value)
    case _ => true
  }

  /** No floating point anywhere. */
  ghost predicate Exact(v: Json) {
    match v
    case Float(_) => false
    case Double(_) => false
    case Array(elems) => forall e | e in elems :: Exact(e)
    case Object(fields) => forall f: Field | f in fields :: Exact(f.value)
    case _ => true
  }

  /** Arrays and objects are nested at most `d` deep. */
  predicate Within(v: Json, d: nat) {
    match v
    case Array(elems) => d > 0 && forall e | e in elems :: Within(e, d - 1)
    case Object(fields) => d > 0 && forall f: Field | f in fields :: Within(f.value, d - 1)
    case _ => true
  }

  // ----- what is printed -----

  /** Decimal digits. */
  function Digits(x: nat): (t: Bytes)
    ensures |t| >= 1
  {
    if x < 10 then [0x30 + x] else Digits(x / 10) + [0x30 + x % 10]
  }

  function LongText(x: int): Bytes {
    if x < 0 then [0x2D] + Digits(-x) else Digits(x)
  }

  predicate HighUnit(w: int) { 0xD800 <= w <= 0xDBFF }

  predicate LowUnit(w: int) { 0xDC00 <= w <= 0xDFFF }

  predicate Surrogate(w: int) { 0xD800 <= w <= 0xDFFF }

  /** The UTF-16 code units of `EncodeUtf16`: out-of-range values become U+FFFD. */
  function Units(x: nat): seq<nat> {
    if x <= 0xFFFF then [x]
    else if x <= 0x10FFFF then [0xD800 + (x - 0x10000) / 0x400, 0xDC00 + (x - 0x10000) % 0x400]
    else [0xFFFD]
  }

  function HexDigit(d: nat): byte
    requires d < 16
  {
    if d < 10 then 0x30 + d else 0x61 + (d - 10)
  }

  /** `\uXXXX`. */
  function UnitEscape(w: nat): (t: Bytes)
    requires w < 0x10000
    ensures |t| == 6
  {
    [0x5C, 0x75, HexDigit(w / 0x1000), HexDigit(w / 0x100 % 16), HexDigit(w / 0x10 % 16), HexDigit(w % 16)]
  }

  function UnitsEscape(x: nat): Bytes {
    var u := Units(x);
    UnitEscape(u[0]) + if |u| == 2 then UnitEscape(u[1]) else []
  }

  /** The entry of `kEscapeLiteral` for `x`. */
  function EscapeKind(x: nat): nat {
    if x > 0x7F then 9
    else if x == 0x09 then 1
    else if x == 0x0A then 2
    else if x == 0x0D then 3
    else if x == 0x0C then 4
    else if x == 0x5C then 5
    else if x == 0x2F then 6
    else if x == 0x22 then 7
    else if x < 0x20 || x == 0x26 || x == 0x27 || x == 0x3C || x == 0x3D || x == 0x3E || x == 0x7F then 9
    else 0
  }

  function Escape(x: nat): Bytes {
    match EscapeKind(x)
    case 0 => [x]
    case 1 => [0x5C, 0x74]
    case 2 => [0x5C, 0x6E]
    case 3 => [0x5C, 0x72]
    case 4 => [0x5C, 0x66]
    case 5 => [0x5C, 0x5C]
    case 6 => [0x5C, 0x2F]
    case 7 => [0x5C, 0x22]
    case _ => UnitsEscape(x)
  }

  /** Total length a lead byte announces (`ThomPikeLen`). */
  function LeadLength(x: byte): (n: nat)
    requires x >= 0xC0
    ensures 2 <= n <= 6
  {
    if x < 0xE0 then 2 else if x < 0xF0 then 3 else if x < 0xF8 then 4 else if x < 0xFC then 5 else 6
  }

  /** Payload bits of a lead byte (`ThomPikeByte`). */
  function LeadBits(x: byte): nat
    requires x >= 0xC0
  {
    if x < 0xE0 then x - 0xC0 else if x < 0xF0 then x - 0xE0 else if x < 0xF8 then x - 0xF0
    else if x < 0xFC then x - 0xF8 else x - 0xFC
  }

  /** `a` merged with the continuation bytes of `t` (`ThomPikeMerge`). */
  function Merge(a: nat, t: Bytes): nat {
    if t == [] then a else Merge(a, t[..|t| - 1]) * 0x40 + t[|t| - 1] % 0x40
  }

  predicate AllTails(t: Bytes) {
    forall k :: 0 <= k < |t| ==> Tail(t[k])
  }

  /** The value the printer reads at `i` and the position after it: a multi-byte sequence if the lead
      byte is followed by enough continuation bytes, otherwise the single byte. */
  function Rune(s: Bytes, i: nat): (r: (nat, nat))
    requires i < |s|
    ensures i < r.1 <= |s|
  {
    var x := s[i];
    if x < 0xC0 then (x, i + 1)
    else
      var n := LeadLength(x);
      if i + n <= |s| && AllTails(s[i + 1..i + n]) then (Merge(LeadBits(x), s[i + 1..i + n]), i + n)
      else (x, i + 1)
  }

  function Serialized(s: Bytes, i: nat): Bytes
    requires i <= |s|
    decreases |s| - i
  {
    if i == |s| then []
    else
      var (x, n) := Rune(s, i);
      Escape(x) + Serialized(s, n)
  }

  function Quoted(s: Bytes): (t: Bytes)
    ensures |t| >= 2
  {
    [0x22] + Serialized(s, 0) + [0x22]
  }

  function Spaces(n: nat): (t: Bytes)
    ensures |t| == n
  {
    if n == 0 then [] else Spaces(n - 1) + [0x20]
  }

  /** The text of `marshal`. */
  function Text(lib: Library, v: Json, pretty: bool, indent: nat): Bytes
    decreases v, 1
  {
    match v
    case Null => [0x6E, 0x75, 0x6C, 0x6C]
    case Bool(b) => if b then [0x74, 0x72, 0x75, 0x65] else [0x66, 0x61, 0x6C, 0x73, 0x65]
    case Long(n) => LongText(n)
    case Float(f) => lib.floatText(f)
    case Double(d) => lib.doubleText(d)
    case String(s) => Quoted(s)
    case Array(elems) => [0x5B] + ElemsText(lib, elems, 0, pretty, indent)
    case Object(fields) => [0x7B] + FieldsText(lib, fields, 0, pretty, indent)
  }

  /** Element `k` and the separator before it. */
  function ElemText(lib: Library, elems: seq<Json>, k: nat, pretty: bool, indent: nat): Bytes
    requires k < |elems|
    decreases elems, |elems| - k, 0
  {
    var comma := if k == 0 then [] else if pretty then [0x2C, 0x20] else [0x2C];
    comma + Text(lib, elems[k], pretty, indent)
  }

  /** The elements from number `k` on and the closing bracket. */
  function ElemsText(lib: Library, elems: seq<Json>, k: nat, pretty: bool, indent: nat): (t: Bytes)
    requires k <= |elems|
    ensures |t| >= 1 && (k > 0 ==> t[0] == 0x2C || t[0] == 0x5D)
    decreases elems, |elems| - k, 1
  {
    if k == |elems| then [0x5D]
    else ElemText(lib, elems, k, pretty, indent) + ElemsText(lib, elems, k + 1, pretty, indent)
  }

  function Multiline(fields: seq<Field>, pretty: bool): bool {
    pretty && |fields| > 1
  }

  /** A new line and its indentation. */
  function NewLine(indent: nat): Bytes {
    [0x0A] + Spaces(2 * indent)
  }

  /** What stands before the key of field `k`. */
  function FieldLead(fields: seq<Field>, k: nat, pretty: bool, indent: nat): Bytes {
    var comma := if k == 0 then [] else [0x2C];
    comma + if Multiline(fields, pretty) then NewLine(indent + 1) else []
  }

  function Colon(pretty: bool): Bytes {
    if pretty then [0x3A, 0x20] else [0x3A]
  }

  /** Key, colon and value of field `k`. */
  function FieldText(lib: Library, fields: seq<Field>, k: nat, pretty: bool, indent: nat): Bytes
    requires k < |fields|
    decreases fields, |fields| - k, 0
  {
    Quoted(fields[k].key) + Colon(pretty)
    + Text(lib, fields[k].value, pretty, if Multiline(fields, pretty) then indent + 1 else indent)
  }

  /** The end of an object. */
  function Closing(fields: seq<Field>, pretty: bool, indent: nat): Bytes {
    (if Multiline(fields, pretty) then NewLine(indent) else []) + [0x7D]
  }

  /** The fields from number `k` on and the closing brace. */
  function FieldsText(lib: Library, fields: seq<Field>, k: nat, pretty: bool, indent: nat): (t: Bytes)
    requires k <= |fields|
    ensures |t| >= 1 && (k > 0 ==> t[0] == 0x2C || t[0] == 0x0A || t[0] == 0x7D)
    decreases fields, |fields| - k, 1
  {
    if k == |fields| then Closing(fields, pretty, indent)
    else FieldLead(fields, k, pretty, indent) + FieldText(lib, fields, k, pretty, indent)
         + FieldsText(lib, fields, k + 1, pretty, indent)
  }
}
