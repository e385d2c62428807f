/** The string scanner inside Json::parse: UTF-8 checking, escapes, and what survives a round trip. */
module JsonString {
  import opened ByteSeq
  import opened Utf8
  import opened Json

  datatype Status =
    | Success | BadDouble | AbsentValue | BadNegative | BadExponent | MissingComma | MissingColon | MalformedUtf8
    | DepthExceeded | StackOverflow | UnexpectedEof | OverlongAscii | UnexpectedComma | UnexpectedColon
    | UnexpectedOctal | TrailingContent | IllegalCharacter | InvalidHexEscape | OverlongUtf8_0x7ff
    | OverlongUtf8_0xffff | ObjectMissingValue | IllegalUtf8Character | InvalidUnicodeEscape
    | Utf16SurrogateInUtf8 | UnexpectedEndOfArray | HexEscapeNotPrintable | InvalidEscapeCharacter
    | Utf8ExceedsUtf16Range | UnexpectedEndOfString | UnexpectedEndOfObject | ObjectKeyMustBeString
    | C1ControlCodeInString | NonDelC0ControlCodeInString

  /** A status that reports an error. */
  type Fault = st: Status | st != Success && st != AbsentValue witness MalformedUtf8

  /** One turn of the scanner's loop: bytes to append and where to go on, the closing quote, or an error. */
  datatype Step = Put(t: Bytes, next: nat) | Quote(next: nat) | Error(status: Fault)

  /** The entry of `kHexToInt`. */
  function HexVal(c: byte): (v: int)
    ensures -1 <= v < 16
  {
    if 0x30 <= c <= 0x39 then c - 0x30
    else if 0x41 <= c <= 0x46 then c - 0x41 + 10
    else if 0x61 <= c <= 0x66 then c - 0x61 + 10
    else -1
  }

  predicate HexAt(s: Bytes, p: nat, n: nat) {
    p + n <= |s| && forall k :: p <= k < p + n ==> HexVal(s[k]) != -1
  }

  function Hex4(s: Bytes, p: nat): (c: nat)
    requires HexAt(s, p, 4)
    ensures c < 0x10000
  {
    HexVal(s[p]) * 0x1000 + HexVal(s[p + 1]) * 0x100 + HexVal(s[p + 2]) * 0x10 + HexVal(s[p + 3])
  }

  predicate ContAt(s: Bytes, p: nat) {
    p < |s| && Tail(s[p])
  }

  /** The label `EncodeUtf8`: the bytes appended for the value `c`. */
  function Emit(c: int): Bytes {
    if c <= 0x7F then [c % 0x100]
    else if c <= 0x7FF then [0xC0 + c / 0x40, 0x80 + c % 0x40]
    else if c <= 0xFFFF then Emit3(if Surrogate(c) then 0xFFFD else c)
    else if c / 0x40000 % 8 != 7 then
      [(0xF0 + c / 0x40000 % 8) % 0x100, 0x80 + c / 0x1000 % 0x40, 0x80 + c / 0x40 % 0x40, 0x80 + c % 0x40]
    else Emit3(0xFFFD)
  }

  function Emit3(c: int): Bytes
    requires 0x7FF < c <= 0xFFFF
  {
    [0xE0 + c / 0x1000, 0x80 + c / 0x40 % 0x40, 0x80 + c % 0x40]
  }

  /** After a backslash. */
  function EscapeAt(s: Bytes, p: nat): (r: Step)
    requires p <= |s|
    ensures r.Put? ==> p < r.next <= |s|
    ensures !r.Quote?
  {
    if p == |s| then Error(UnexpectedEndOfString)
    else
      var c := s[p];
      if c == 0x22 || c == 0x2F || c == 0x5C then Put([c], p + 1)
      else if c == 0x62 then Put([0x08], p + 1)
      else if c == 0x66 then Put([0x0C], p + 1)
      else if c == 0x6E then Put([0x0A], p + 1)
      else if c == 0x72 then Put([0x0D], p + 1)
      else if c == 0x74 then Put([0x09], p + 1)
      else if c == 0x78 then HexEscapeAt(s, p + 1)
      else if c == 0x75 then UnicodeEscapeAt(s, p + 1)
      else Error(InvalidEscapeCharacter)
  }

  function HexEscapeAt(s: Bytes, p: nat): (r: Step)
    requires p <= |s|
    ensures r.Put? ==> p < r.next <= |s|
    ensures !r.Quote?
  {
    if !HexAt(s, p, 2) then Error(InvalidHexEscape)
    else
      var c := HexVal(s[p]) * 16 + HexVal(s[p + 1]);
      if 0x20 <= c <= 0x7E then Put([c], p + 2) else Error(HexEscapeNotPrintable)
  }

  /** `\uXXXX`, alone or as a surrogate pair; an unpaired surrogate leaves its digits to be read as text. */
  function UnicodeEscapeAt(s: Bytes, p: nat): (r: Step)
    requires p <= |s|
    ensures r.Put? ==> p <= r.next <= |s|
    ensures !r.Quote?
  {
    if !HexAt(s, p, 4) then Error(InvalidUnicodeEscape)
    else
      var c := Hex4(s, p);
      if !Surrogate(c) then Put(Emit(c), p + 4)
      else if HighUnit(c) && p + 10 <= |s| && s[p + 4] == 0x5C && s[p + 5] == 0x75 && HexAt(s, p + 6, 4)
              && LowUnit(Hex4(s, p + 6)) then
        Put(Emit((c - 0xD800) * 0x400 + (Hex4(s, p + 6) - 0xDC00) + 0x10000), p + 10)
      else Put([0x5C, 0x75], p)
  }

  function TwoBytes(s: Bytes, p: nat): (r: Step)
    requires 0 < p <= |s|
    ensures r.Put? ==> p < r.next <= |s|
    ensures !r.Quote?
  {
    if ContAt(s, p) then Put(Emit(s[p - 1] as int % 0x20 * 0x40 + s[p] as int % 0x40), p + 1)
    else Error(MalformedUtf8)
  }

  function ThreeBytes(s: Bytes, p: nat): (r: Step)
    requires 0 < p <= |s|
    ensures r.Put? ==> p < r.next <= |s|
    ensures !r.Quote?
  {
    if ContAt(s, p) && ContAt(s, p + 1) then
      Put(Emit(s[p - 1] as int % 0x10 * 0x1000 + s[p] as int % 0x40 * 0x40 + s[p + 1] as int % 0x40), p + 2)
    else Error(MalformedUtf8)
  }

  /** What the CESU-8 branch tests, for a lead byte ED just before `p`. */
  predicate CesuAt(s: Bytes, p: nat) {
    p + 5 <= |s| && s[p] >= 0xAE && Tail(s[p + 1]) && s[p + 2] == 0xED && s[p + 3] >= 0xB0 && Tail(s[p + 4])
  }

  function SurrogateLead(s: Bytes, p: nat): (r: Step)
    requires 0 < p <= |s|
    ensures r.Put? ==> p <= r.next <= |s|
    ensures !r.Quote?
  {
    if p + 2 <= |s| && s[p] >= 0xA0 then
      if CesuAt(s, p) then
        var a := 0xD000 + s[p] as int % 0x40 * 0x40 + s[p + 1] as int % 0x40;
        var b := 0xD000 + s[p + 3] as int % 0x40 * 0x40 + s[p + 4] as int % 0x40;
        Put(Emit((a - 0xDB80) * 0x400 + (b - 0xDC00) + 0x10000), p)
      else if Tail(s[p]) && Tail(s[p + 1]) then Error(Utf16SurrogateInUtf8)
      else Error(MalformedUtf8)
    else ThreeBytes(s, p)
  }

  function FourBytes(s: Bytes, p: nat): (r: Step)
    requires 0 < p <= |s|
    ensures r.Put? ==> p < r.next <= |s|
    ensures !r.Quote?
  {
    if ContAt(s, p) && ContAt(s, p + 1) && ContAt(s, p + 2) then
      var c := s[p - 1] as int % 8 * 0x40000 + s[p] as int % 0x40 * 0x1000 + s[p + 1] as int % 0x40 * 0x40
               + s[p + 2] as int % 0x40;
      if c <= 0x10FFFF then Put(Emit(c), p + 3) else Error(Utf8ExceedsUtf16Range)
    else Error(MalformedUtf8)
  }

  /** The switch on `kJsonStr`. */
  function StepAt(s: Bytes, p: nat): (r: Step)
    requires p <= |s|
    ensures r.Put? ==> p < r.next <= |s|
    ensures r.Quote? ==> p < |s| && r.next == p + 1
  {
    if p == |s| then Error(UnexpectedEndOfString)
    else
      var c, q := s[p], p + 1;
      if c < 0x20 then Error(NonDelC0ControlCodeInString)
      else if c == 0x22 then Quote(q)
      else if c == 0x5C then EscapeAt(s, q)
      else if c <= 0x7F then Put([c], q)
      else if c <= 0x9F then Error(C1ControlCodeInString)
      else if c <= 0xBF then Error(IllegalUtf8Character)
      else if c <= 0xC1 then Error(if ContAt(s, q) then OverlongAscii else IllegalUtf8Character)
      else if c <= 0xDF then TwoBytes(s, q)
      else if c == 0xE0 && ContAt(s, q) && ContAt(s, q + 1) && s[q] < 0xA0 then Error(OverlongUtf8_0x7ff)
      else if c == 0xED then SurrogateLead(s, q)
      else if c <= 0xEF then ThreeBytes(s, q)
      else if c == 0xF0 && ContAt(s, q) && ContAt(s, q + 1) && ContAt(s, q + 2) && s[q] < 0x90 then
        Error(OverlongUtf8_0xffff)
      else if c <= 0xF4 then FourBytes(s, q)
      else Error(IllegalUtf8Character)
  }

  datatype Scan = Closed(b: Bytes, next: nat) | Failed(status: Fault)

  /** The whole loop: from `p`, with `b` already read. */
  function ScanFrom(s: Bytes, p: nat, b: Bytes): (r: Scan)
    requires p <= |s|
    ensures r.Closed? ==> p < r.next <= |s|
    decreases |s| - p
  {
    match StepAt(s, p)
    case Error(status) => Failed(status)
    case Quote(next) => Closed(b, next)
    case Put(t, next) => ScanFrom(s, next, b + t)
  }

  method ScanString(s: Bytes, p0: nat) returns (r: Scan)
    requires p0 <= |s|
    ensures r == ScanFrom(s, p0, [])
  {
    var b: Bytes, p := [], p0;
    while true
      invariant p <= |s| && ScanFrom(s, p, b) == ScanFrom(s, p0, [])
      decreases |s| - p
    {
      match StepAt(s, p)
      case Error(status) => return Failed(status);
      case Quote(next) => return Closed(b, next);
      case Put(t, next) => b, p := b + t, next;
    }
  }

  // ----- accepted strings are well-formed UTF-8 -----

  lemma EmitIsEncode(c: int)
    requires Scalar(c)
    ensures Emit(c) == Encode(c)
  {
    DivDiv(c);
  }

  lemma DivDiv(c: int)
    requires 0 <= c
    ensures c / 0x1000 == c / 0x40 / 0x40
    ensures c / 0x40000 == c / 0x40 / 0x40 / 0x40
  {
  }

  lemma EmitWellFormed(c: int)
    requires 0 <= c <= 0x10FFFF
    ensures WellFormed(Emit(c))
  {
    var e := if Surrogate(c) then 0xFFFD else c;
    EmitIsEncode(e);
    EncodeWellFormed(e);
  }

  /** Once the CESU-8 branch has been taken, the scanner reads the same bytes again and always ends in an
      error: no accepted string passes through it. */
  lemma {:induction false} CesuFails(s: Bytes, p: nat, b: Bytes)
    requires p < |s| && s[p] == 0xED && CesuAt(s, p + 1)
    ensures ScanFrom(s, p + 1, b).Failed?
    decreases |s| - p
  {
    var c := s[p + 1];
    if 0xC2 <= c <= 0xDF {
      var r := StepAt(s, p + 1);
      assert r.Put? && r.next == p + 3;
      if CesuAt(s, p + 4) {
        var again := StepAt(s, p + 3);
        CesuFails(s, p + 3, b + r.t + again.t);
      }
    }
  }

  lemma TwoWellFormed(s: Bytes, q: nat)
    requires 0 < q <= |s| && TwoBytes(s, q).Put?
    ensures WellFormed(TwoBytes(s, q).t)
  {
    hide Emit, WellFormed;
    EmitWellFormed(s[q - 1] as int % 0x20 * 0x40 + s[q] as int % 0x40);
  }

  lemma ThreeWellFormed(s: Bytes, q: nat)
    requires 0 < q <= |s| && ThreeBytes(s, q).Put?
    ensures WellFormed(ThreeBytes(s, q).t)
  {
    hide Emit, WellFormed;
    EmitWellFormed(s[q - 1] as int % 0x10 * 0x1000 + s[q] as int % 0x40 * 0x40 + s[q + 1] as int % 0x40);
  }

  lemma FourWellFormed(s: Bytes, q: nat)
    requires 0 < q <= |s| && FourBytes(s, q).Put?
    ensures WellFormed(FourBytes(s, q).t)
  {
    hide Emit, WellFormed;
    EmitWellFormed(s[q - 1] as int % 8 * 0x40000 + s[q] as int % 0x40 * 0x1000 + s[q + 1] as int % 0x40 * 0x40
                   + s[q + 2] as int % 0x40);
  }

  lemma StepWellFormed(s: Bytes, p: nat)
    requires p < |s| && StepAt(s, p).Put?
    requires !(s[p] == 0xED && CesuAt(s, p + 1))
    ensures WellFormed(StepAt(s, p).t)
  {
    hide WellFormed, EscapeAt, TwoBytes, ThreeBytes, FourBytes;
    if s[p] == 0x5C {
      EscapeWellFormed(s, p + 1);
    } else if s[p] <= 0x7F {
      AsciiWellFormed(s[p]);
    } else if s[p] <= 0xDF {
      TwoWellFormed(s, p + 1);
    } else if s[p] <= 0xEF {
      ThreeWellFormed(s, p + 1);
    } else {
      FourWellFormed(s, p + 1);
    }
  }

  lemma EscapeWellFormed(s: Bytes, p: nat)
    requires p <= |s| && EscapeAt(s, p).Put?
    ensures WellFormed(EscapeAt(s, p).t)
  {
    var t := EscapeAt(s, p).t;
    if s[p] == 0x75 {
      var c := Hex4(s, p + 1);
      if !Surrogate(c) {
        EmitWellFormed(c);
      } else if t == [0x5C, 0x75] {
        AsciiWellFormed(0x75);
        assert t[1..] == [0x75];
      } else {
        EmitWellFormed((c - 0xD800) * 0x400 + (Hex4(s, p + 7) - 0xDC00) + 0x10000);
      }
    } else {
      AsciiWellFormed(t[0]);
    }
  }

  /** Whatever the bytes, a string the scanner accepts is well-formed UTF-8. */
  lemma {:induction false} AcceptedIsUtf8(s: Bytes, p: nat, b: Bytes)
    requires p <= |s| && WellFormed(b) && ScanFrom(s, p, b).Closed?
    ensures WellFormed(ScanFrom(s, p, b).b)
    decreases |s| - p
  {
    var r := StepAt(s, p);
    if r.Put? {
      if s[p] == 0xED && CesuAt(s, p + 1) {
        CesuFails(s, p, b + r.t);
      } else {
        StepWellFormed(s, p);
        WellFormedConcat(b, r.t);
        AcceptedIsUtf8(s, r.next, b + r.t);
      }
    }
  }
}
