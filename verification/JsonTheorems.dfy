/** The promises of the Json class as a whole. */
module JsonTheorems {
  import opened ByteSeq
  import opened Utf8
  import opened Json
  import opened JsonString
  import opened JsonParser
  import opened JsonRoundTrip

  // ----- everything the parser accepts is clean -----

  /** What a successful call of `parse` at this depth may return. */
  ghost predicate Good(v: Json, depth: nat) {
    depth > 0 && Clean(v) && Within(v, depth - 1)
  }

  lemma {:induction false} ParseSound(lib: Library, s: Bytes, p: nat, c: Context, depth: nat, json: Json)
    requires lib.Valid() && p <= |s| && (depth > 0 ==> Good(json, depth))
    ensures var r := Parse(lib, s, p, c, depth, json); r.status == Success ==> Good(r.json, depth)
    decreases depth, 3, 0
  {
    hide Loop, Good;
    if depth > 0 {
      LoopSound(lib, s, p, p, 1, c, depth, json);
    }
  }

  lemma {:induction false} LoopSound(lib: Library, s: Bytes, p: nat, a: nat, d: int, c: Context, depth: nat, json: Json)
    requires lib.Valid() && a <= p <= |s| && (d == 1 || d == -1) && Good(json, depth)
    ensures var r := Loop(lib, s, p, a, d, c, depth, json); r.status == Success ==> Good(r.json, depth)
    decreases depth, 2, |s| - p
  {
    assert depth > 0;
    hide Loop, ValueAt, StringAt, Good;
    LoopTurn(lib, s, p, a, d, c, depth, json);
    if p < |s| {
      var x, q := s[p], p + 1;
      if IsSpace(x) {
        LoopSound(lib, s, q, q, d, c, depth, json);
      } else if x == 0x2C || x == 0x3A {
        LoopSound(lib, s, q, q, d, PLAIN, depth, json);
      } else if x == 0x22 {
        StringSound(s, q, depth, json);
      } else if x == 0x2D {
        LoopSound(lib, s, q, a, -1, c, depth, json);
      } else if IsDigit(x) || x in {0x6E, 0x66, 0x74, 0x5B, 0x7B} {
        ValueSound(lib, s, p, a, d, depth, json);
      }
    }
  }

  lemma StringSound(s: Bytes, q: nat, depth: nat, json: Json)
    requires q <= |s| && depth > 0
    ensures var r := StringAt(s, q, json); r.status == Success ==> Good(r.json, depth)
  {
    if ScanFrom(s, q, []).Closed? {
      AcceptedIsUtf8(s, q, []);
    }
  }

  lemma {:induction false} ValueSound(lib: Library, s: Bytes, p: nat, a: nat, d: int, depth: nat, json: Json)
    requires lib.Valid() && a <= p < |s| && (d == 1 || d == -1) && Good(json, depth)
    requires IsDigit(s[p]) || s[p] in {0x6E, 0x66, 0x74, 0x5B, 0x7B}
    ensures var r := ValueAt(lib, s, p, a, d, depth, json); r.status == Success ==> Good(r.json, depth)
    decreases depth, 1, 0
  {
    hide ElemsAt, FieldsAt;
    if s[p] == 0x5B {
      ElemsSound(lib, s, p + 1, ARRAY, depth, []);
    } else if s[p] == 0x7B {
      FieldsSound(lib, s, p + 1, KEY_OBJECT, depth, [], Null);
    }
  }

  lemma NotTooDeep(lib: Library, s: Bytes, p: nat, c: Context, depth: nat)
    requires lib.Valid() && p <= |s| && Parse(lib, s, p, c, depth, Null).status == AbsentValue
    ensures depth > 0
  {
  }

  lemma ArrayGood(elems: seq<Json>, depth: nat)
    requires depth > 1 && forall e | e in elems :: Good(e, depth - 1)
    ensures Good(Array(elems), depth)
  {
  }

  lemma ObjectGood(fields: seq<Field>, depth: nat)
    requires depth > 1 && Sorted(fields) && forall f | f in fields :: WellFormed(f.key) && Good(f.value, depth - 1)
    ensures Good(Object(fields), depth)
  {
  }

  lemma {:induction false} ElemsSound(lib: Library, s: Bytes, p: nat, c: Context, depth: nat, elems: seq<Json>)
    requires lib.Valid() && p <= |s| && depth > 0 && forall e | e in elems :: Good(e, depth - 1)
    ensures var r := ElemsAt(lib, s, p, c, depth, elems); r.status == Success ==> Good(r.json, depth)
    decreases depth, 0, |s| - p
  {
    hide Parse;
    ParseSound(lib, s, p, c, depth - 1, Null);
    var v := Parse(lib, s, p, c, depth - 1, Null);
    if v.status == Success {
      ElemsSound(lib, s, v.p, ARRAY_COMMA, depth, elems + [v.json]);
    } else if v.status == AbsentValue {
      NotTooDeep(lib, s, p, c, depth - 1);
      ArrayGood(elems, depth);
    }
  }

  lemma {:induction false} FieldsSound(lib: Library, s: Bytes, p: nat, c: Context, depth: nat, fields: seq<Field>,
                                       json: Json)
    requires lib.Valid() && p <= |s| && depth > 0 && (depth > 1 ==> Good(json, depth - 1))
    requires Sorted(fields) && forall f | f in fields :: WellFormed(f.key) && Good(f.value, depth - 1)
    ensures var r := FieldsAt(lib, s, p, c, depth, fields, json); r.status == Success ==> Good(r.json, depth)
    decreases depth, 0, |s| - p
  {
    hide Parse, Emplace, HasKey, Sorted;
    ParseSound(lib, s, p, c, depth - 1, Null);
    var k := Parse(lib, s, p, c, depth - 1, Null);
    if k.status == Success && k.json.String? {
      ParseSound(lib, s, k.p, COLON, depth - 1, json);
      var v := Parse(lib, s, k.p, COLON, depth - 1, json);
      if v.status == Success {
        EmplaceSorted(fields, k.json.s, v.json);
        FieldsSound(lib, s, v.p, KEY_COMMA_OBJECT, depth, Emplace(fields, k.json.s, v.json),
                    Leftover(lib, fields, k.json.s, v.json));
      }
    } else if k.status == AbsentValue {
      NotTooDeep(lib, s, p, c, depth - 1);
      ObjectGood(fields, depth);
    }
  }

  /** Any document the parser accepts, whatever its bytes, holds only well-formed UTF-8, has its keys in
      order without repetition, and is nested at most 19 deep. */
  lemma AcceptedDocument(lib: Library, s: Bytes)
    requires lib.Valid() && ParseText(lib, s).0 == Success
    ensures Clean(ParseText(lib, s).1) && Within(ParseText(lib, s).1, 19)
  {
    hide Parse;
    ParseSound(lib, s, 0, PLAIN, DEPTH, Null);
  }

  // ----- round trips -----

  /** A printed value, compact or pretty, reads back as itself if it is nested at most 19 deep, and
      otherwise as `depth_exceeded`. */
  lemma RoundTrip(lib: Library, v: Json, pretty: bool)
    requires lib.Valid() && Clean(v) && Exact(v)
    ensures var r := ParseText(lib, Text(lib, v, pretty, 0));
      if Within(v, 19) then r == (Success, v) else r.0 == DepthExceeded
  {
    hide Loop, Text;
    var s := Text(lib, v, pretty, 0);
    ValueRoundTrip(lib, s, 0, 0, PLAIN, DEPTH, v, pretty, 0);
    if Within(v, 19) {
      EndOfText(lib, s);
    }
  }

  /** Asking for a second value at the end of the text finds none. */
  lemma EndOfText(lib: Library, s: Bytes)
    requires lib.Valid()
    ensures Parse(lib, s, |s|, PLAIN, DEPTH, Null).status == AbsentValue
  {
  }

  /** Print what was parsed and parse it again: the same value, for every text the parser accepts. */
  lemma Reparse(lib: Library, s: Bytes, pretty: bool)
    requires lib.Valid() && ParseText(lib, s).0 == Success && Exact(ParseText(lib, s).1)
    ensures ParseText(lib, Text(lib, ParseText(lib, s).1, pretty, 0)) == (Success, ParseText(lib, s).1)
  {
    hide ParseText;
    AcceptedDocument(lib, s);
    RoundTrip(lib, ParseText(lib, s).1, pretty);
  }
}
