/** What the printed text looks like: which characters are escaped and how, and where the pretty layout adds white
    space. */
module JsonLayout {
  import opened ByteSeq
  import opened Utf8
  import opened Json
  import opened JsonPrinter

  // ----- escapes -----

  /** The characters printed as they are: printable ASCII, but not what would end a string or an HTML context. */
  predicate Literally(x: nat) {
    ' ' as int <= x <= '~' as int && x != '"' as int && x != '\\' as int && x != '/' as int
    && x != '<' as int && x != '>' as int && x != '&' as int && x != '\'' as int && x != '=' as int
  }

  /** The escapes of two characters. */
  function Shortly(x: nat): Bytes
    requires x < 0x80
  {
    match x as char
    case '\t' => [0x5C, 't' as int]
    case '\n' => [0x5C, 'n' as int]
    case '\r' => [0x5C, 'r' as int]
    case '\\' => [0x5C, 0x5C]
    case '/' => [0x5C, 0x2F]
    case '"' => [0x5C, 0x22]
    case _ => if x == 0x0C then [0x5C, 'f' as int] else []
  }

  /** The printer's table: a character stands for itself, has a short escape, or is written in UTF-16. */
  lemma EscapeTable(x: nat)
    ensures Escape(x)
         == if Literally(x) then [x] else if x < 0x80 && Shortly(x) != [] then Shortly(x) else UnitsEscape(x)
  {
  }

  /** Bytes that may stand in a printed text: printable ASCII without the five that mean something to HTML. */
  predicate Safe(t: Bytes) {
    forall k :: 0 <= k < |t| ==> 0x20 <= t[k] <= 0x7E && t[k] !in [0x3C, 0x3E, 0x26, 0x27, 0x3D]
  }

  lemma SafeJoin(a: Bytes, b: Bytes)
    requires Safe(a) && Safe(b)
    ensures Safe(a + b)
  {
  }

  lemma UnitIsSafe(w: nat)
    requires w < 0x10000
    ensures Safe(UnitEscape(w))
  {
  }

  lemma EscapeIsSafe(x: nat)
    ensures Safe(Escape(x))
  {
    if EscapeKind(x) == 9 {
      var u := Units(x);
      UnitIsSafe(u[0]);
      if |u| == 2 {
        UnitIsSafe(u[1]);
        SafeJoin(UnitEscape(u[0]), UnitEscape(u[1]));
      } else {
        assert UnitEscape(u[0]) + [] == UnitEscape(u[0]);
      }
    }
  }

  /** Whatever bytes a string holds, its text is printable ASCII that no HTML parser takes for markup. */
  lemma {:induction false} StringsAreSafe(s: Bytes, i: nat)
    requires i <= |s|
    ensures Safe(Serialized(s, i))
    decreases |s| - i
  {
    hide Escape, Rune, Safe;
    if i < |s| {
      var (x, n) := Rune(s, i);
      EscapeIsSafe(x);
      StringsAreSafe(s, n);
      SafeJoin(Escape(x), Serialized(s, n));
    } else {
      NothingIsSafe();
    }
  }

  lemma NothingIsSafe()
    ensures Safe([])
  {
  }

  // ----- white space outside strings -----

  /** Inside a string or not, and just behind a backslash in it or not. */
  datatype Mode = Outside | Inside | Escaping

  function After(m: Mode, b: byte): Mode {
    match m
    case Outside => if b == 0x22 then Inside else Outside
    case Inside => if b == 0x22 then Outside else if b == 0x5C then Escaping else Inside
    case Escaping => Inside
  }

  function Ends(m: Mode, t: Bytes): Mode {
    if t == [] then m else After(Ends(m, t[..|t| - 1]), t[|t| - 1])
  }

  /** The text without the white space that is not in a string. */
  function Squeezed(m: Mode, t: Bytes): Bytes {
    if t == [] then []
    else
      var n := |t| - 1;
      Squeezed(m, t[..n])
      + if Ends(m, t[..n]).Outside? && (t[n] == 0x20 || t[n] == 0x0A) then [] else [t[n]]
  }

  lemma {:induction false} Concat(m: Mode, a: Bytes, b: Bytes)
    ensures Ends(m, a + b) == Ends(Ends(m, a), b)
    ensures Squeezed(m, a + b) == Squeezed(m, a) + Squeezed(Ends(m, a), b)
  {
    if b == [] {
      assert a + b == a;
    } else {
      var n := |b| - 1;
      assert (a + b)[..|a + b| - 1] == a + b[..n];
      Concat(m, a, b[..n]);
    }
  }

  lemma OneByte(m: Mode, b: byte)
    ensures Ends(m, [b]) == After(m, b)
    ensures Squeezed(m, [b]) == if m.Outside? && (b == 0x20 || b == 0x0A) then [] else [b]
  {
    assert [b][..0] == [];
  }

  lemma TwoBytes(m: Mode, a: byte, b: byte)
    ensures Ends(m, [a, b]) == After(After(m, a), b)
    ensures Squeezed(m, [a, b]) == Squeezed(m, [a]) + Squeezed(After(m, a), [b])
  {
    assert [a, b] == [a] + [b];
    Concat(m, [a], [b]);
    OneByte(m, a);
    OneByte(After(m, a), b);
  }

  /** A piece of text that is kept, and leads from one mode to another. */
  ghost predicate Keeps(m: Mode, t: Bytes, e: Mode) {
    Ends(m, t) == e && Squeezed(m, t) == t
  }

  lemma KeepsJoin(m: Mode, a: Bytes, n: Mode, b: Bytes, e: Mode)
    requires Keeps(m, a, n) && Keeps(n, b, e)
    ensures Keeps(m, a + b, e)
  {
    Concat(m, a, b);
  }

  lemma KeepsByte(m: Mode, b: byte)
    requires !(m.Outside? && (b == 0x20 || b == 0x0A))
    ensures Keeps(m, [b], After(m, b))
  {
    OneByte(m, b);
  }

  predicate Plainly(t: Bytes) {
    forall k :: 0 <= k < |t| ==> t[k] != 0x22 && t[k] != 0x5C && t[k] != 0x20 && t[k] != 0x0A
  }

  /** Bytes that neither end a string nor escape anything stay where they are. */
  lemma {:induction false} KeepsPlain(t: Bytes, m: Mode)
    requires !m.Escaping? && Plainly(t)
    ensures Keeps(m, t, m)
  {
    hide *;
    if t == [] {
      KeepsNothing(m);
    } else {
      var n := |t| - 1;
      PlainFront(t, m);
      KeepsPlain(t[..n], m);
      KeepsByte(m, t[n]);
      KeepsJoin(m, t[..n], m, [t[n]], m);
    }
  }

  lemma PlainFront(t: Bytes, m: Mode)
    requires t != [] && Plainly(t) && !m.Escaping?
    ensures var n := |t| - 1;
      Plainly(t[..n]) && t == t[..n] + [t[n]] && t[n] != 0x20 && t[n] != 0x0A && After(m, t[n]) == m
  {
    var n := |t| - 1;
    assert t == t[..n] + [t[n]];
  }

  lemma KeepsNothing(m: Mode)
    ensures Keeps(m, [], m)
  {
  }

  lemma KeepsUnit(w: nat)
    requires w < 0x10000
    ensures Keeps(Inside, UnitEscape(w), Inside)
  {
    var d := UnitEscape(w)[2..];
    assert UnitEscape(w) == [0x5C] + [0x75] + d;
    KeepsByte(Inside, 0x5C);
    KeepsByte(Escaping, 0x75);
    KeepsJoin(Inside, [0x5C], Escaping, [0x75], Inside);
    KeepsPlain(d, Inside);
    KeepsJoin(Inside, [0x5C] + [0x75], Inside, d, Inside);
  }

  lemma KeepsEscape(x: nat)
    ensures Keeps(Inside, Escape(x), Inside)
  {
    EscapeShapes(x);
    hide Escape, Keeps, UnitsEscape;
    if EscapeKind(x) == 0 {
      KeepsByte(Inside, x);
    } else if EscapeKind(x) == 9 {
      KeepsUnits(x);
    } else {
      KeepsShort(Escape(x)[1]);
    }
  }

  lemma EscapeShapes(x: nat)
    ensures EscapeKind(x) == 0 ==> Escape(x) == [x] && 0x20 <= x < 0x7F && x != 0x22 && x != 0x5C
    ensures EscapeKind(x) == 9 ==> Escape(x) == UnitsEscape(x)
    ensures EscapeKind(x) != 0 && EscapeKind(x) != 9 ==> |Escape(x)| == 2 && Escape(x) == [0x5C, Escape(x)[1]]
  {
    hide UnitsEscape;
  }

  lemma KeepsUnits(x: nat)
    ensures Keeps(Inside, UnitsEscape(x), Inside)
  {
    hide Keeps, UnitEscape;
    var u := Units(x);
    KeepsUnit(u[0]);
    if |u| == 2 {
      KeepsUnit(u[1]);
      KeepsJoin(Inside, UnitEscape(u[0]), Inside, UnitEscape(u[1]), Inside);
    } else {
      assert UnitEscape(u[0]) + [] == UnitEscape(u[0]);
    }
  }

  lemma KeepsShort(b: byte)
    ensures Keeps(Inside, [0x5C, b], Inside)
  {
    hide Keeps;
    assert [0x5C, b] == [0x5C] + [b];
    KeepsByte(Inside, 0x5C);
    KeepsByte(Escaping, b);
    KeepsJoin(Inside, [0x5C], Escaping, [b], Inside);
  }

  lemma {:induction false} KeepsSerialized(s: Bytes, i: nat)
    requires i <= |s|
    ensures Keeps(Inside, Serialized(s, i), Inside)
    decreases |s| - i
  {
    hide Escape, Rune, Keeps;
    if i < |s| {
      var (x, n) := Rune(s, i);
      KeepsEscape(x);
      KeepsSerialized(s, n);
      KeepsJoin(Inside, Escape(x), Inside, Serialized(s, n), Inside);
    } else {
      KeepsPlain([], Inside);
    }
  }

  lemma KeepsQuoted(s: Bytes)
    ensures Keeps(Outside, Quoted(s), Outside)
  {
    KeepsByte(Outside, 0x22);
    KeepsSerialized(s, 0);
    KeepsByte(Inside, 0x22);
    KeepsJoin(Outside, [0x22], Inside, Serialized(s, 0), Inside);
    KeepsJoin(Outside, [0x22] + Serialized(s, 0), Inside, [0x22], Outside);
  }

  // ----- the two layouts -----

  /** Outside strings, `t` is `u` with white space put in. */
  ghost predicate Spreads(t: Bytes, u: Bytes) {
    Ends(Outside, t) == Outside && Squeezed(Outside, t) == u
  }

  lemma SpreadsJoin(a: Bytes, x: Bytes, b: Bytes, y: Bytes)
    requires Spreads(a, x) && Spreads(b, y)
    ensures Spreads(a + b, x + y)
  {
    Concat(Outside, a, b);
  }

  lemma KeptSpreads(t: Bytes)
    requires Keeps(Outside, t, Outside)
    ensures Spreads(t, t)
  {
  }

  lemma {:induction false} SpacesVanish(n: nat)
    ensures Spreads(Spaces(n), [])
  {
    if n > 0 {
      SpacesVanish(n - 1);
      OneByte(Outside, 0x20);
      SpreadsJoin(Spaces(n - 1), [], [0x20], []);
    }
  }

  lemma NewLineVanishes(indent: nat)
    ensures Spreads(NewLine(indent), [])
  {
    SpacesVanish(2 * indent);
    OneByte(Outside, 0x0A);
    SpreadsJoin([0x0A], [], Spaces(2 * indent), []);
  }

  lemma MarkStays(b: byte)
    requires b != 0x22 && b != 0x20 && b != 0x0A
    ensures Spreads([b], [b])
  {
    OneByte(Outside, b);
  }

  lemma MarkAndSpace(b: byte)
    requires b != 0x22 && b != 0x20 && b != 0x0A
    ensures Spreads([b, 0x20], [b])
  {
    TwoBytes(Outside, b, 0x20);
    OneByte(Outside, b);
    OneByte(Outside, 0x20);
  }

  lemma NothingSpreads()
    ensures Spreads([], [])
  {
  }

  lemma {:induction false} DigitsStay(n: nat)
    ensures Spreads(Digits(n), Digits(n))
  {
    if n >= 10 {
      DigitsStay(n / 10);
      MarkStays(0x30 + n % 10);
      SpreadsJoin(Digits(n / 10), Digits(n / 10), [0x30 + n % 10], [0x30 + n % 10]);
    } else {
      MarkStays(0x30 + n);
    }
  }

  lemma LeafSpreads(lib: Library, v: Json, pretty: bool, indent: nat)
    requires Exact(v) && !v.Array? && !v.Object?
    ensures Spreads(Text(lib, v, pretty, indent), Text(lib, v, false, 0))
  {
    hide Spreads, Keeps, Quoted, Digits;
    match v
    case Long(n) => LongStays(n);
    case String(s) =>
      KeepsQuoted(s);
      KeptSpreads(Quoted(s));
    case _ =>
      KeepsPlain(Text(lib, v, pretty, indent), Outside);
      KeptSpreads(Text(lib, v, pretty, indent));
  }

  lemma LongStays(n: int)
    ensures Spreads(LongText(n), LongText(n))
  {
    hide Spreads, Digits;
    if n < 0 {
      MarkStays(0x2D);
      DigitsStay(-n);
      SpreadsJoin([0x2D], [0x2D], Digits(-n), Digits(-n));
    } else {
      DigitsStay(n);
    }
  }

  /** Printing pretty only puts white space between the tokens of the compact text: taken out again, outside strings, it
      leaves exactly that. */
  lemma {:induction false} PrettySpreads(lib: Library, v: Json, pretty: bool, indent: nat)
    requires Exact(v)
    ensures Spreads(Text(lib, v, pretty, indent), Text(lib, v, false, 0))
    decreases v, 2
  {
    hide Spreads;
    if v.Array? {
      ExactElems(v);
      MarkStays(0x5B);
      ElemsSpread(lib, v.elems, 0, pretty, indent);
      SpreadsJoin([0x5B], [0x5B], ElemsText(lib, v.elems, 0, pretty, indent), ElemsText(lib, v.elems, 0, false, 0));
    } else if v.Object? {
      ExactFields(v);
      MarkStays(0x7B);
      FieldsSpread(lib, v.fields, 0, pretty, indent);
      SpreadsJoin([0x7B], [0x7B], FieldsText(lib, v.fields, 0, pretty, indent), FieldsText(lib, v.fields, 0, false, 0));
    } else {
      LeafSpreads(lib, v, pretty, indent);
    }
  }

  lemma ExactElems(v: Json)
    requires Exact(v) && v.Array?
    ensures forall e :: e in v.elems ==> Exact(e)
  {
  }

  lemma ExactFields(v: Json)
    requires Exact(v) && v.Object?
    ensures forall f: Field :: f in v.fields ==> Exact(f.value)
  {
  }

  lemma {:induction false} ElemsSpread(lib: Library, elems: seq<Json>, k: nat, pretty: bool, indent: nat)
    requires k <= |elems| && forall e :: e in elems ==> Exact(e)
    ensures Spreads(ElemsText(lib, elems, k, pretty, indent), ElemsText(lib, elems, k, false, 0))
    decreases elems, 1, |elems| - k
  {
    hide Spreads, Text, Exact;
    if k == |elems| {
      MarkStays(0x5D);
    } else {
      assert elems[k] in elems;
      var a, b := Text(lib, elems[k], pretty, indent), Text(lib, elems[k], false, 0);
      var c := if k == 0 then [] else if pretty then [0x2C, 0x20] else [0x2C];
      var d := if k == 0 then [] else [0x2C];
      CommaSpreads(k, pretty);
      PrettySpreads(lib, elems[k], pretty, indent);
      SpreadsJoin(c, d, a, b);
      ElemsSpread(lib, elems, k + 1, pretty, indent);
      SpreadsJoin(c + a, d + b, ElemsText(lib, elems, k + 1, pretty, indent), ElemsText(lib, elems, k + 1, false, 0));
    }
  }

  lemma CommaSpreads(k: nat, pretty: bool)
    ensures Spreads(if k == 0 then [] else if pretty then [0x2C, 0x20] else [0x2C], if k == 0 then [] else [0x2C])
  {
    NothingSpreads();
    MarkStays(0x2C);
    MarkAndSpace(0x2C);
  }

  lemma LeadSpreads(fields: seq<Field>, k: nat, pretty: bool, indent: nat)
    ensures Spreads(FieldLead(fields, k, pretty, indent), FieldLead(fields, k, false, 0))
  {
    hide Spreads;
    NothingSpreads();
    MarkStays(0x2C);
    NewLineVanishes(indent + 1);
    var c := if k == 0 then [] else [0x2C];
    SpreadsJoin(c, c, NewLine(indent + 1), []);
    SpreadsJoin(c, c, [], []);
  }

  lemma ClosingSpreads(fields: seq<Field>, pretty: bool, indent: nat)
    ensures Spreads(Closing(fields, pretty, indent), Closing(fields, false, 0))
  {
    hide Spreads;
    MarkStays(0x7D);
    NewLineVanishes(indent);
    NothingSpreads();
    SpreadsJoin(NewLine(indent), [], [0x7D], [0x7D]);
    SpreadsJoin([], [], [0x7D], [0x7D]);
  }

  lemma {:induction false} FieldsSpread(lib: Library, fields: seq<Field>, k: nat, pretty: bool, indent: nat)
    requires k <= |fields| && forall f: Field :: f in fields ==> Exact(f.value)
    ensures Spreads(FieldsText(lib, fields, k, pretty, indent), FieldsText(lib, fields, k, false, 0))
    decreases fields, 1, |fields| - k
  {
    hide Spreads, Text, Exact, FieldLead, Closing, Quoted;
    if k == |fields| {
      ClosingSpreads(fields, pretty, indent);
    } else {
      assert fields[k] in fields;
      LeadSpreads(fields, k, pretty, indent);
      FieldSpreads(lib, fields, k, pretty, indent);
      FieldsSpread(lib, fields, k + 1, pretty, indent);
      SpreadsJoin(FieldLead(fields, k, pretty, indent), FieldLead(fields, k, false, 0),
                  FieldText(lib, fields, k, pretty, indent), FieldText(lib, fields, k, false, 0));
      SpreadsJoin(FieldLead(fields, k, pretty, indent) + FieldText(lib, fields, k, pretty, indent),
                  FieldLead(fields, k, false, 0) + FieldText(lib, fields, k, false, 0),
                  FieldsText(lib, fields, k + 1, pretty, indent), FieldsText(lib, fields, k + 1, false, 0));
    }
  }

  lemma {:induction false} FieldSpreads(lib: Library, fields: seq<Field>, k: nat, pretty: bool, indent: nat)
    requires k < |fields| && Exact(fields[k].value)
    ensures Spreads(FieldText(lib, fields, k, pretty, indent), FieldText(lib, fields, k, false, 0))
    decreases fields, 0
  {
    hide Spreads, Text, Exact, Quoted;
    var q, v, inner := Quoted(fields[k].key), fields[k].value, if Multiline(fields, pretty) then indent + 1 else indent;
    KeepsQuoted(fields[k].key);
    KeptSpreads(q);
    MarkStays(0x3A);
    MarkAndSpace(0x3A);
    PrettySpreads(lib, v, pretty, inner);
    SpreadsJoin(q, q, Colon(pretty), [0x3A]);
    SpreadsJoin(q + Colon(pretty), q + [0x3A], Text(lib, v, pretty, inner), Text(lib, v, false, 0));
  }
}
