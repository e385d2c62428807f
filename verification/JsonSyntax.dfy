/** The parser against the grammar of RFC 8259 (sections 2 to 7): it accepts exactly the texts the grammar derives, up
    to its depth, and returns what they stand for. */
module JsonSyntax {
  import opened ByteSeq
  import opened Json
  import opened JsonString
  import opened JsonParser
  import opened JsonRoundTrip
  import opened JsonGrammar
  import opened JsonNumbers

  // ----- the grammar -----

  /** A value in the source text. Each item and member carries the white space around it. */
  datatype Tree =
    | NullLit
    | BoolLit(b: bool)
    | IntLit(neg: bool, digits: Bytes)
    | RealLit(neg: bool, size: nat, bits: nat)
    | StrLit(ps: seq<Piece>)
    | ArrLit(items: seq<Item>, close: Bytes)
    | ObjLit(members: seq<Member>, close: Bytes)

  /** White space, the comma unless it is the first, white space, the value. */
  datatype Item = Item(before: Bytes, lead: Bytes, tree: Tree)

  /** The same, with a key, white space, a colon and white space before the value. */
  datatype Member = Member(before: Bytes, lead: Bytes, key: seq<Piece>, colon: Bytes, after: Bytes, tree: Tree)

  function WordText(t: Tree): Bytes {
    match t
    case NullLit => [0x6E, 0x75, 0x6C, 0x6C]
    case BoolLit(b) => if b then [0x74, 0x72, 0x75, 0x65] else [0x66, 0x61, 0x6C, 0x73, 0x65]
    case _ => []
  }

  function Gap(first: bool, before: Bytes): Bytes {
    if first then [] else before + [0x2C]
  }

  /** How many bytes it takes. */
  function Size(t: Tree): nat
    decreases t, 1
  {
    match t
    case IntLit(neg, digits) => DigitsStart(0, neg) + |digits|
    case RealLit(_, size, _) => size
    case StrLit(ps) => |PiecesText(ps)| + 2
    case ArrLit(items, close) => 1 + ItemsSize(items, true) + |close| + 1
    case ObjLit(members, close) => 1 + MembersSize(members, true) + |close| + 1
    case _ => |WordText(t)|
  }

  function ItemsSize(items: seq<Item>, first: bool): nat
    decreases items, 0
  {
    if items == [] then 0
    else |Gap(first, items[0].before)| + |items[0].lead| + Size(items[0].tree) + ItemsSize(items[1..], false)
  }

  function MembersSize(members: seq<Member>, first: bool): nat
    decreases members, 0
  {
    if members == [] then 0
    else KeySize(members[0], first) + Size(members[0].tree) + MembersSize(members[1..], false)
  }

  /** All of a member but its value. */
  function KeySize(m: Member, first: bool): nat {
    |Gap(first, m.before)| + |m.lead| + |PiecesText(m.key)| + 2 + |m.colon| + 1 + |m.after|
  }

  /** The value stands at `p`. */
  ghost predicate Stands(lib: Library, s: Bytes, p: nat, t: Tree)
    decreases t, 1
  {
    match t
    case IntLit(neg, digits) => IntStands(s, p, neg, digits)
    case RealLit(neg, size, bits) => RealStands(lib, s, p, neg, size, bits)
    case StrLit(ps) => p < |s| && s[p] == 0x22 && StringStands(s, p + 1, ps)
    case ArrLit(items, close) => p < |s| && s[p] == 0x5B && ItemsStand(lib, s, p + 1, items, true, close)
    case ObjLit(members, close) => p < |s| && s[p] == 0x7B && MembersStand(lib, s, p + 1, members, true, close)
    case _ => At(s, p, WordText(t))
  }

  /** White space, after a comma unless it is the first. */
  ghost predicate GapStands(s: Bytes, p: nat, first: bool, before: Bytes, lead: Bytes) {
    && At(s, p, Gap(first, before)) && AllSpaces(before) && (first ==> before == [])
    && At(s, p + |Gap(first, before)|, lead) && AllSpaces(lead)
  }

  ghost predicate CloseStands(s: Bytes, p: nat, close: Bytes, x: byte) {
    At(s, p, close) && AllSpaces(close) && p + |close| < |s| && s[p + |close|] == x
  }

  ghost predicate ItemsStand(lib: Library, s: Bytes, p: nat, items: seq<Item>, first: bool, close: Bytes)
    decreases items, 0
  {
    if items == [] then CloseStands(s, p, close, 0x5D)
    else
      var i := items[0];
      var q := p + |Gap(first, i.before)| + |i.lead|;
      && GapStands(s, p, first, i.before, i.lead) && Stands(lib, s, q, i.tree)
      && ItemsStand(lib, s, q + Size(i.tree), items[1..], false, close)
  }

  /** A member up to its value. */
  ghost predicate KeyStands(s: Bytes, p: nat, m: Member, first: bool) {
    var q := p + |Gap(first, m.before)| + |m.lead|;
    var r := q + |PiecesText(m.key)| + 2;
    && GapStands(s, p, first, m.before, m.lead)
    && q < |s| && s[q] == 0x22 && StringStands(s, q + 1, m.key)
    && At(s, r, m.colon) && AllSpaces(m.colon) && r + |m.colon| < |s| && s[r + |m.colon|] == 0x3A
    && At(s, r + |m.colon| + 1, m.after) && AllSpaces(m.after)
  }

  ghost predicate MembersStand(lib: Library, s: Bytes, p: nat, members: seq<Member>, first: bool, close: Bytes)
    decreases members, 0
  {
    if members == [] then CloseStands(s, p, close, 0x7D)
    else
      var m := members[0];
      var q := p + KeySize(m, first);
      && KeyStands(s, p, m, first) && Stands(lib, s, q, m.tree)
      && MembersStand(lib, s, q + Size(m.tree), members[1..], false, close)
  }

  /** Nested at most `d` deep. */
  predicate TreeWithin(t: Tree, d: nat)
    decreases t, 1
  {
    match t
    case ArrLit(items, _) => d > 0 && ItemsAllWithin(items, d - 1)
    case ObjLit(members, _) => d > 0 && MembersAllWithin(members, d - 1)
    case _ => true
  }

  predicate ItemsAllWithin(items: seq<Item>, d: nat)
    decreases items, 0
  {
    items != [] ==> TreeWithin(items[0].tree, d) && ItemsAllWithin(items[1..], d)
  }

  predicate MembersAllWithin(members: seq<Member>, d: nat)
    decreases members, 0
  {
    members != [] ==> TreeWithin(members[0].tree, d) && MembersAllWithin(members[1..], d)
  }

  // ----- what it stands for -----

  function Text(ps: seq<Piece>): Bytes {
    if AllProper(ps) then PiecesMeaning(ps) else []
  }

  /** The value; `left` is what `null` leaves in place, which is null itself unless a key repeats and the library says
      otherwise. Of repeated keys the first counts. */
  function Value(lib: Library, t: Tree, left: Json): Json
    decreases t, 1
  {
    match t
    case NullLit => left
    case BoolLit(b) => Bool(b)
    case IntLit(neg, digits) => var v := Sign(neg) * Decimal(digits); if Fits(v) then Long(v) else Null
    case RealLit(_, _, bits) => Double(bits)
    case StrLit(ps) => String(Text(ps))
    case ArrLit(items, _) => Array(ItemValues(lib, items))
    case ObjLit(members, _) => Object(MemberValues(lib, members, [], Null))
  }

  function ItemValues(lib: Library, items: seq<Item>): seq<Json>
    decreases items, 0
  {
    if items == [] then [] else [Value(lib, items[0].tree, Null)] + ItemValues(lib, items[1..])
  }

  function MemberValues(lib: Library, members: seq<Member>, fields: seq<Field>, left: Json): seq<Field>
    decreases members, 0
  {
    if members == [] then fields
    else
      var key, v := Text(members[0].key), Value(lib, members[0].tree, left);
      MemberValues(lib, members[1..], Emplace(fields, key, v), Leftover(lib, fields, key, v))
  }

  // ----- lists, item by item -----

  lemma NoItems(lib: Library, s: Bytes, p: nat, close: Bytes, first: bool, d: nat)
    ensures ItemsStand(lib, s, p, [], first, close) <==> CloseStands(s, p, close, 0x5D)
    ensures ItemsSize([], first) == 0 && ItemsAllWithin([], d) && ItemValues(lib, []) == []
  {
  }

  lemma FirstItem(lib: Library, s: Bytes, p: nat, i: Item, rest: seq<Item>, first: bool, close: Bytes, d: nat)
    ensures var items, q := [i] + rest, p + |Gap(first, i.before)| + |i.lead|;
      && (ItemsStand(lib, s, p, items, first, close)
          <==> GapStands(s, p, first, i.before, i.lead) && Stands(lib, s, q, i.tree)
               && ItemsStand(lib, s, q + Size(i.tree), rest, false, close))
      && ItemsSize(items, first) == |Gap(first, i.before)| + |i.lead| + Size(i.tree) + ItemsSize(rest, false)
      && (ItemsAllWithin(items, d) <==> TreeWithin(i.tree, d) && ItemsAllWithin(rest, d))
      && ItemValues(lib, items) == [Value(lib, i.tree, Null)] + ItemValues(lib, rest)
  {
    hide Stands, GapStands, Size, TreeWithin, Value, Gap;
    assert ([i] + rest)[1..] == rest && ([i] + rest)[0] == i;
  }

  lemma NoMembers(lib: Library, s: Bytes, p: nat, close: Bytes, first: bool, d: nat, fields: seq<Field>, left: Json)
    ensures MembersStand(lib, s, p, [], first, close) <==> CloseStands(s, p, close, 0x7D)
    ensures MembersSize([], first) == 0 && MembersAllWithin([], d) && MemberValues(lib, [], fields, left) == fields
  {
  }

  lemma FirstMember(lib: Library, s: Bytes, p: nat, m: Member, rest: seq<Member>, first: bool, close: Bytes, d: nat,
                    fields: seq<Field>, left: Json)
    ensures var members, q := [m] + rest, p + KeySize(m, first);
      var key, v := Text(m.key), Value(lib, m.tree, left);
      && (MembersStand(lib, s, p, members, first, close)
          <==> KeyStands(s, p, m, first) && Stands(lib, s, q, m.tree)
               && MembersStand(lib, s, q + Size(m.tree), rest, false, close))
      && MembersSize(members, first) == KeySize(m, first) + Size(m.tree) + MembersSize(rest, false)
      && (MembersAllWithin(members, d) <==> TreeWithin(m.tree, d) && MembersAllWithin(rest, d))
      && MemberValues(lib, members, fields, left)
         == MemberValues(lib, rest, Emplace(fields, key, v), Leftover(lib, fields, key, v))
  {
    hide Stands, KeyStands, KeySize, Size, TreeWithin, Value, Text, Emplace, Leftover;
    assert ([m] + rest)[1..] == rest && ([m] + rest)[0] == m;
  }

  lemma HeadAndRest<T>(t: seq<T>)
    requires t != []
    ensures t == [t[0]] + t[1..]
  {
  }

  lemma OneMore(a: seq<Json>, v: Json, b: seq<Json>)
    ensures a + [v] + b == a + ([v] + b) && a + [] == a
  {
  }

  // ----- every text of the grammar is accepted -----

  lemma ReadsWord(lib: Library, s: Bytes, p: nat, c: Context, depth: nat, t: Tree, left: Json)
    requires lib.Valid() && depth > 0 && !Blocked(c) && (t.NullLit? || t.BoolLit?) && At(s, p, WordText(t))
    ensures Loop(lib, s, p, p, 1, c, depth, left) == Parsed(Success, Value(lib, t, left), p + Size(t))
  {
    hide Loop, ElemsAt, FieldsAt, At;
    var w := WordText(t);
    AtRange(s, p, w);
    AtByte(s, p, w, 0);
    AtSlice(s, p, w);
    LoopAtValue(lib, s, p, p, 1, c, depth, left);
    if t == BoolLit(false) {
      assert w == [0x66] + [0x61, 0x6C, 0x73, 0x65];
      AtSplit(s, p, [0x66], [0x61, 0x6C, 0x73, 0x65]);
      AtSlice(s, p + 1, [0x61, 0x6C, 0x73, 0x65]);
    }
  }

  /** A string, also where a key is expected. */
  lemma ReadsQuoted(lib: Library, s: Bytes, p: nat, c: Context, depth: nat, ps: seq<Piece>, json: Json)
    requires lib.Valid() && depth > 0 && !c.colon && !c.comma && p < |s| && s[p] == 0x22 && StringStands(s, p + 1, ps)
    ensures Loop(lib, s, p, p, 1, c, depth, json) == Parsed(Success, String(Text(ps)), p + |PiecesText(ps)| + 2)
  {
    hide StringStands, PiecesText, PiecesMeaning, ScanFrom, ValueAt;
    ReadsString(s, p + 1, ps, []);
    assert [] + PiecesMeaning(ps) == PiecesMeaning(ps);
  }

  lemma LoopAtClose(lib: Library, s: Bytes, p: nat, c: Context, depth: nat, json: Json)
    requires lib.Valid() && p < |s| && depth > 0
    requires (s[p] == 0x5D && c.inArray) || (s[p] == 0x7D && c.inObject)
    ensures Loop(lib, s, p, p, 1, c, depth, json) == Parsed(AbsentValue, json, p + 1)
  {
    hide ValueAt, StringAt;
  }

  /** The context once the separator is behind. */
  function Behind(c: Context, first: bool): Context {
    if first then c else PLAIN
  }

  lemma SkipsGap(lib: Library, s: Bytes, p: nat, c: Context, depth: nat, json: Json, first: bool, before: Bytes,
                 lead: Bytes)
    requires lib.Valid() && depth > 0 && GapStands(s, p, first, before, lead) && (!first ==> c.comma)
    ensures var q := p + |Gap(first, before)| + |lead|;
      q <= |s| && Loop(lib, s, p, p, 1, c, depth, json) == Loop(lib, s, q, q, 1, Behind(c, first), depth, json)
  {
    hide Loop, At, AllSpaces;
    var r := p + |Gap(first, before)|;
    AtRange(s, p, Gap(first, before));
    AtRange(s, r, lead);
    if !first {
      AtSplit(s, p, before, [0x2C]);
      AtByte(s, p + |before|, [0x2C], 0);
      SkipSpaces(lib, s, p, c, depth, json, before);
      LoopAtSeparator(lib, s, p + |before|, c, depth, json);
    }
    SkipSpaces(lib, s, r, Behind(c, first), depth, json, lead);
  }

  lemma SkipsClose(lib: Library, s: Bytes, p: nat, c: Context, depth: nat, close: Bytes, x: byte)
    requires lib.Valid() && depth > 0 && CloseStands(s, p, close, x)
    requires (x == 0x5D && c.inArray) || (x == 0x7D && c.inObject)
    ensures p <= |s| && Parse(lib, s, p, c, depth, Null) == Parsed(AbsentValue, Null, p + |close| + 1)
  {
    hide Loop, At, AllSpaces;
    SkipSpaces(lib, s, p, c, depth, Null, close);
    LoopAtClose(lib, s, p + |close|, c, depth, Null);
  }

  lemma SkipsColon(lib: Library, s: Bytes, p: nat, depth: nat, json: Json, colon: Bytes, after: Bytes)
    requires lib.Valid() && depth > 0 && At(s, p, colon) && AllSpaces(colon)
    requires p + |colon| < |s| && s[p + |colon|] == 0x3A && At(s, p + |colon| + 1, after) && AllSpaces(after)
    ensures var q := p + |colon| + 1 + |after|;
      q <= |s| && Loop(lib, s, p, p, 1, COLON, depth, json) == Loop(lib, s, q, q, 1, PLAIN, depth, json)
  {
    hide Loop, At, AllSpaces;
    SkipSpaces(lib, s, p, COLON, depth, json, colon);
    LoopAtSeparator(lib, s, p + |colon|, COLON, depth, json);
    AtRange(s, p + |colon| + 1, after);
    SkipSpaces(lib, s, p + |colon| + 1, PLAIN, depth, json, after);
  }

  /** One turn of the array loop. */
  lemma ElemsTurn(lib: Library, s: Bytes, p: nat, c: Context, depth: nat, elems: seq<Json>)
    requires lib.Valid() && p <= |s| && depth > 0
    ensures var v, r := Parse(lib, s, p, c, depth - 1, Null), ElemsAt(lib, s, p, c, depth, elems);
      && (v.status == AbsentValue ==> r == Parsed(Success, Array(elems), v.p))
      && (v.status == Success ==>
            p < v.p <= |s| && r == ElemsAt(lib, s, v.p, ARRAY_COMMA, depth, elems + [v.json]))
      && (v.status != AbsentValue && v.status != Success ==> r.status == v.status)
  {
    hide Parse;
  }

  /** One turn of the object loop. */
  lemma FieldsTurn(lib: Library, s: Bytes, p: nat, c: Context, depth: nat, fields: seq<Field>, left: Json)
    requires lib.Valid() && p <= |s| && depth > 0
    ensures var k, r := Parse(lib, s, p, c, depth - 1, Null), FieldsAt(lib, s, p, c, depth, fields, left);
      && (k.status == AbsentValue ==> r == Parsed(Success, Object(fields), k.p))
      && (r.status == Success && k.status != AbsentValue ==>
            && k.status == Success && k.json.String? && p < k.p <= |s|
            && Parse(lib, s, k.p, COLON, depth - 1, left).status == Success)
      && (k.status == Success && k.json.String? ==>
            p < k.p <= |s| &&
            var v := Parse(lib, s, k.p, COLON, depth - 1, left);
            v.status == Success ==>
              && k.p < v.p <= |s|
              && r == FieldsAt(lib, s, v.p, KEY_COMMA_OBJECT, depth, Emplace(fields, k.json.s, v.json),
                               Leftover(lib, fields, k.json.s, v.json)))
  {
    hide Parse;
  }

  lemma ParseIsLoop(lib: Library, s: Bytes, p: nat, c: Context, depth: nat, json: Json)
    requires lib.Valid() && p <= |s|
    ensures depth > 0 ==> Parse(lib, s, p, c, depth, json) == Loop(lib, s, p, p, 1, c, depth, json)
    ensures depth == 0 ==> Parse(lib, s, p, c, depth, json).status == DepthExceeded
  {
    hide Loop;
  }

  lemma {:induction false} ReadsTree(lib: Library, s: Bytes, p: nat, c: Context, depth: nat, t: Tree, left: Json)
    requires lib.Valid() && depth > 0 && !Blocked(c) && Stands(lib, s, p, t) && TreeWithin(t, depth - 1)
    ensures p <= |s| && Loop(lib, s, p, p, 1, c, depth, left) == Parsed(Success, Value(lib, t, left), p + Size(t))
    decreases t, 1
  {
    hide Loop, ElemsAt, FieldsAt, ItemsStand, MembersStand, StringStands, IntStands, RealStands, At, PiecesText;
    match t
    case IntLit(neg, digits) =>
      IntFits(s, p, neg, digits);
      ReadsInt(lib, s, p, c, depth, left, neg, digits);
    case RealLit(neg, size, bits) =>
      RealInside(lib, s, p, neg, size, bits);
      ReadsReal(lib, s, p, c, depth, left, neg, size, bits);
    case StrLit(ps) => ReadsQuoted(lib, s, p, c, depth, ps, left);
    case ArrLit(items, close) =>
      BracketOpens(lib, s, p, c, depth, left);
      ReadsItems(lib, s, p + 1, depth, items, true, close, []);
      assert [] + ItemValues(lib, items) == ItemValues(lib, items);
    case ObjLit(members, close) =>
      BracketOpens(lib, s, p, c, depth, left);
      ReadsMembers(lib, s, p + 1, depth, members, true, close, [], Null);
    case _ =>
      AtRange(s, p, WordText(t));
      ReadsWord(lib, s, p, c, depth, t, left);
  }

  lemma IntFits(s: Bytes, p: nat, neg: bool, digits: Bytes)
    requires IntStands(s, p, neg, digits)
    ensures p < |s| && Fits(Sign(neg) * Decimal(digits))
    ensures DigitsStart(p, neg) + |digits| == p + DigitsStart(0, neg) + |digits|
  {
    hide Decimal;
  }

  lemma RealInside(lib: Library, s: Bytes, p: nat, neg: bool, size: nat, bits: nat)
    requires RealStands(lib, s, p, neg, size, bits)
    ensures p < |s|
  {
    hide Decimal, RunEnd;
  }

  lemma BracketOpens(lib: Library, s: Bytes, p: nat, c: Context, depth: nat, json: Json)
    requires lib.Valid() && p < |s| && depth > 0 && !Blocked(c) && (s[p] == 0x5B || s[p] == 0x7B)
    ensures Loop(lib, s, p, p, 1, c, depth, json)
         == if s[p] == 0x5B then ElemsAt(lib, s, p + 1, ARRAY, depth, [])
            else FieldsAt(lib, s, p + 1, KEY_OBJECT, depth, [], Null)
  {
    hide Loop, ElemsAt, FieldsAt;
    LoopAtValue(lib, s, p, p, 1, c, depth, json);
  }

  function ItemsContext(first: bool): Context {
    if first then ARRAY else ARRAY_COMMA
  }

  function MembersContext(first: bool): Context {
    if first then KEY_OBJECT else KEY_COMMA_OBJECT
  }

  lemma {:induction false} ReadsItems(lib: Library, s: Bytes, p: nat, depth: nat, items: seq<Item>, first: bool,
                                      close: Bytes, elems: seq<Json>)
    requires lib.Valid() && depth > 1 && ItemsStand(lib, s, p, items, first, close) && ItemsAllWithin(items, depth - 2)
    ensures p <= |s|
    ensures ElemsAt(lib, s, p, ItemsContext(first), depth, elems)
         == Parsed(Success, Array(elems + ItemValues(lib, items)), p + ItemsSize(items, first) + |close| + 1)
    decreases items, 0
  {
    hide *;
    var c := ItemsContext(first);
    ContextsAre(first);
    if items == [] {
      NoItems(lib, s, p, close, first, depth - 2);
      SkipsClose(lib, s, p, c, depth - 1, close, 0x5D);
      ElemsTurn(lib, s, p, c, depth, elems);
      OneMore(elems, Null, []);
    } else {
      var i := items[0];
      var q := p + |Gap(first, i.before)| + |i.lead|;
      HeadAndRest(items);
      FirstItem(lib, s, p, i, items[1..], first, close, depth - 2);
      SkipsGap(lib, s, p, c, depth - 1, Null, first, i.before, i.lead);
      ParseIsLoop(lib, s, p, c, depth - 1, Null);
      ReadsTree(lib, s, q, Behind(c, first), depth - 1, i.tree, Null);
      ElemsTurn(lib, s, p, c, depth, elems);
      var v := Value(lib, i.tree, Null);
      ReadsItems(lib, s, q + Size(i.tree), depth, items[1..], false, close, elems + [v]);
      OneMore(elems, v, ItemValues(lib, items[1..]));
    }
  }

  lemma ContextsAre(first: bool)
    ensures var c, o := ItemsContext(first), MembersContext(first);
      && c.inArray && !c.inObject && !c.colon && (c.comma <==> !first) && !Blocked(Behind(c, first))
      && o.inObject && !o.inArray && !o.colon && (o.comma <==> !first)
    ensures ItemsContext(false) == ARRAY_COMMA && MembersContext(false) == KEY_COMMA_OBJECT
    ensures !Blocked(PLAIN) && !PLAIN.comma && !PLAIN.colon
  {
  }

  /** The key of a member and the way to its value. */
  lemma ReadsKey(lib: Library, s: Bytes, p: nat, depth: nat, m: Member, first: bool, left: Json)
    requires lib.Valid() && depth > 0 && KeyStands(s, p, m, first)
    ensures p + KeySize(m, first) <= |s|
    ensures var k, q := Parse(lib, s, p, MembersContext(first), depth, Null), p + KeySize(m, first);
      && k.status == Success && k.json == String(Text(m.key)) && p <= k.p <= |s|
      && Parse(lib, s, k.p, COLON, depth, left) == Loop(lib, s, q, q, 1, PLAIN, depth, left)
  {
    hide Loop, Parse, StringStands, GapStands, At, AllSpaces, Gap, PiecesText, Text;
    var c := MembersContext(first);
    var q := p + |Gap(first, m.before)| + |m.lead|;
    var r := q + |PiecesText(m.key)| + 2;
    SkipsGap(lib, s, p, c, depth, Null, first, m.before, m.lead);
    ParseIsLoop(lib, s, p, c, depth, Null);
    ReadsQuoted(lib, s, q, Behind(c, first), depth, m.key, Null);
    AtRange(s, r, m.colon);
    ParseIsLoop(lib, s, r, COLON, depth, left);
    SkipsColon(lib, s, r, depth, left, m.colon, m.after);
  }

  lemma {:induction false} ReadsMembers(lib: Library, s: Bytes, p: nat, depth: nat, members: seq<Member>, first: bool,
                                        close: Bytes, fields: seq<Field>, left: Json)
    requires lib.Valid() && depth > 1 && MembersStand(lib, s, p, members, first, close)
    requires MembersAllWithin(members, depth - 2)
    ensures p <= |s|
    ensures FieldsAt(lib, s, p, MembersContext(first), depth, fields, left)
         == Parsed(Success, Object(MemberValues(lib, members, fields, left)),
                   p + MembersSize(members, first) + |close| + 1)
    decreases members, 0
  {
    hide *;
    var c := MembersContext(first);
    ContextsAre(first);
    if members == [] {
      NoMembers(lib, s, p, close, first, depth - 2, fields, left);
      SkipsClose(lib, s, p, c, depth - 1, close, 0x7D);
      FieldsTurn(lib, s, p, c, depth, fields, left);
    } else {
      var m := members[0];
      var q := p + KeySize(m, first);
      HeadAndRest(members);
      FirstMember(lib, s, p, m, members[1..], first, close, depth - 2, fields, left);
      ReadsKey(lib, s, p, depth - 1, m, first, left);
      ReadsTree(lib, s, q, PLAIN, depth - 1, m.tree, left);
      FieldsTurn(lib, s, p, c, depth, fields, left);
      var key, v := Text(m.key), Value(lib, m.tree, left);
      ReadsMembers(lib, s, q + Size(m.tree), depth, members[1..], false, close, Emplace(fields, key, v),
                   Leftover(lib, fields, key, v));
    }
  }

  // ----- every accepted text is of the grammar -----

  /** Where the loop gives up without a value. */
  lemma AbsentTurn(lib: Library, s: Bytes, p: nat, c: Context, depth: nat, json: Json)
    requires lib.Valid() && p <= |s| && depth > 0 && Loop(lib, s, p, p, 1, c, depth, json).status == AbsentValue
    ensures var r, q := Loop(lib, s, p, p, 1, c, depth, json), p + 1;
      if p == |s| then depth == DEPTH
      else if IsSpace(s[p]) then r == Loop(lib, s, q, q, 1, c, depth, json)
      else if s[p] == 0x2C then c.comma && r == Loop(lib, s, q, q, 1, PLAIN, depth, json)
      else if s[p] == 0x3A then c.colon && r == Loop(lib, s, q, q, 1, PLAIN, depth, json)
      else r.p == q && ((s[p] == 0x5D && c.inArray) || (s[p] == 0x7D && c.inObject))
  {
    hide ValueAt, StringAt;
    if p < |s| && s[p] == 0x2D {
      if !Blocked(c) && p + 1 < |s| && IsDigit(s[p + 1]) {
        LoopAtValue(lib, s, p + 1, p, -1, c, depth, json);
        ValueIsThere(lib, s, p + 1, p, -1, depth, json);
      }
    } else if p < |s| && (IsDigit(s[p]) || s[p] in {0x6E, 0x66, 0x74, 0x5B, 0x7B}) {
      ValueIsThere(lib, s, p, p, 1, depth, json);
    }
  }

  lemma ValueIsThere(lib: Library, s: Bytes, p: nat, a: nat, d: int, depth: nat, json: Json)
    requires lib.Valid() && a <= p < |s| && (d == 1 || d == -1) && depth > 0
    requires IsDigit(s[p]) || s[p] in {0x6E, 0x66, 0x74, 0x5B, 0x7B}
    ensures ValueAt(lib, s, p, a, d, depth, json).status != AbsentValue
  {
    hide ElemsAt, FieldsAt, IntegerFrom;
  }

  lemma SpaceMore(s: Bytes, p: nat, t: Bytes)
    requires p < |s| && IsSpace(s[p]) && At(s, p + 1, t) && AllSpaces(t)
    ensures At(s, p, [s[p]] + t) && AllSpaces([s[p]] + t)
  {
    var u := [s[p]] + t;
    forall k | 0 <= k < |u|
      ensures s[p + k] == u[k]
    {
      if k > 0 {
        assert s[p + 1 + (k - 1)] == t[k - 1];
      }
    }
  }

  lemma NoSpace(s: Bytes, p: nat)
    requires p <= |s|
    ensures At(s, p, []) && AllSpaces([])
  {
  }

  /** The end of an array or object: white space and its bracket. */
  lemma {:induction false} OnlyClose(lib: Library, s: Bytes, p: nat, c: Context, depth: nat, json: Json)
    returns (close: Bytes)
    requires lib.Valid() && p <= |s| && 0 < depth < DEPTH && Loop(lib, s, p, p, 1, c, depth, json).status == AbsentValue
    requires !c.colon && (c.inArray <==> !c.inObject)
    ensures CloseStands(s, p, close, if c.inArray then 0x5D else 0x7D)
    ensures Loop(lib, s, p, p, 1, c, depth, json).p == p + |close| + 1
    decreases |s| - p
  {
    hide Loop, At, AllSpaces;
    AbsentTurn(lib, s, p, c, depth, json);
    if IsSpace(s[p]) {
      var rest := OnlyClose(lib, s, p + 1, c, depth, json);
      SpaceMore(s, p, rest);
      close := [s[p]] + rest;
    } else {
      if s[p] == 0x2C {
        PlainIsThere(lib, s, p + 1, depth, json);
      }
      NoSpace(s, p);
      close := [];
    }
  }

  /** Without a bracket to close, inside a document, there is no absent value. */
  lemma {:induction false} PlainIsThere(lib: Library, s: Bytes, p: nat, depth: nat, json: Json)
    requires lib.Valid() && p <= |s| && 0 < depth < DEPTH
    ensures Loop(lib, s, p, p, 1, PLAIN, depth, json).status != AbsentValue
    decreases |s| - p
  {
    hide Loop;
    if Loop(lib, s, p, p, 1, PLAIN, depth, json).status == AbsentValue {
      AbsentTurn(lib, s, p, PLAIN, depth, json);
      PlainIsThere(lib, s, p + 1, depth, json);
    }
  }

  /** The separator a context demands. */
  lemma {:induction false} OnlySeparator(lib: Library, s: Bytes, p: nat, c: Context, depth: nat, json: Json)
    returns (before: Bytes)
    requires lib.Valid() && p <= |s| && depth > 0 && (c.comma <==> !c.colon)
    requires Loop(lib, s, p, p, 1, c, depth, json).status == Success
    ensures At(s, p, before) && AllSpaces(before) && p + |before| < |s|
    ensures s[p + |before|] == if c.comma then 0x2C else 0x3A
    ensures var q := p + |before| + 1;
      Loop(lib, s, p, p, 1, c, depth, json) == Loop(lib, s, q, q, 1, PLAIN, depth, json)
    decreases |s| - p
  {
    hide Loop, At, AllSpaces;
    LoopTurn(lib, s, p, p, 1, c, depth, json);
    if IsSpace(s[p]) {
      var rest := OnlySeparator(lib, s, p + 1, c, depth, json);
      SpaceMore(s, p, rest);
      before := [s[p]] + rest;
    } else {
      NoSpace(s, p);
      before := [];
    }
  }

  /** A value where one may stand: white space, then a value of the grammar. */
  lemma {:induction false} OnlyTrees(lib: Library, s: Bytes, p: nat, c: Context, depth: nat, json: Json)
    returns (lead: Bytes, t: Tree)
    requires lib.Valid() && p <= |s| && 0 < depth <= DEPTH && !c.comma && !c.colon
    requires Loop(lib, s, p, p, 1, c, depth, json).status == Success
    ensures At(s, p, lead) && AllSpaces(lead) && Stands(lib, s, p + |lead|, t) && TreeWithin(t, depth - 1)
    ensures Loop(lib, s, p, p, 1, c, depth, json) == Parsed(Success, Value(lib, t, json), p + |lead| + Size(t))
    ensures c.key ==> t.StrLit?
    decreases depth, 2, |s| - p
  {
    hide Loop, At, AllSpaces, Stands, TreeWithin, Value, Size, ValueAt, StringAt;
    LoopTurn(lib, s, p, p, 1, c, depth, json);
    var x := s[p];
    if IsSpace(x) {
      var rest;
      rest, t := OnlyTrees(lib, s, p + 1, c, depth, json);
      SpaceMore(s, p, rest);
      lead := [x] + rest;
    } else {
      NoSpace(s, p);
      lead := [];
      if x == 0x22 {
        t := OnlyQuoted(lib, s, p, depth, json);
      } else if x == 0x2D {
        LoopAtValue(lib, s, p + 1, p, -1, c, depth, json);
        t := OnlyNumberTrees(lib, s, p, true, depth, json);
      } else if IsDigit(x) {
        t := OnlyNumberTrees(lib, s, p, false, depth, json);
      } else if x == 0x5B || x == 0x7B {
        t := OnlyNests(lib, s, p, depth, json);
      } else {
        t := OnlyWords(lib, s, p, depth, json);
      }
    }
  }

  lemma OnlyQuoted(lib: Library, s: Bytes, p: nat, depth: nat, json: Json) returns (t: Tree)
    requires p < |s| && s[p] == 0x22 && depth > 0 && StringAt(s, p + 1, json).status == Success
    ensures t.StrLit? && Stands(lib, s, p, t) && TreeWithin(t, depth - 1)
    ensures StringAt(s, p + 1, json) == Parsed(Success, Value(lib, t, json), p + Size(t))
  {
    hide StringStands, PiecesMeaning, PiecesText, ScanFrom;
    var ps := OnlyStrings(s, p + 1, []);
    assert [] + PiecesMeaning(ps) == PiecesMeaning(ps);
    t := StrLit(ps);
  }

  lemma OnlyNumberTrees(lib: Library, s: Bytes, p: nat, neg: bool, depth: nat, json: Json) returns (t: Tree)
    requires lib.Valid() && depth > 0 && SignStands(s, p, neg)
    requires DigitsStart(p, neg) < |s| && IsDigit(s[DigitsStart(p, neg)])
    requires ValueAt(lib, s, DigitsStart(p, neg), p, Sign(neg), depth, json).status == Success
    ensures Stands(lib, s, p, t) && TreeWithin(t, depth - 1)
    ensures ValueAt(lib, s, DigitsStart(p, neg), p, Sign(neg), depth, json)
         == Parsed(Success, Value(lib, t, json), p + Size(t))
  {
    hide ValueAt, IntStands, RealStands, RunEnd, Decimal;
    OnlyNumbers(lib, s, p, neg, depth, json);
    var i := DigitsStart(p, neg);
    var digits, u := s[i..RunEnd(s, i)], lib.toDouble(s[p..]);
    if IntStands(s, p, neg, digits) {
      IntFits(s, p, neg, digits);
      t := IntLit(neg, digits);
    } else {
      t := RealLit(neg, u.used, u.bits);
    }
  }

  lemma OnlyWords(lib: Library, s: Bytes, p: nat, depth: nat, json: Json) returns (t: Tree)
    requires lib.Valid() && p < |s| && s[p] in {0x6E, 0x66, 0x74} && depth > 0
    requires ValueAt(lib, s, p, p, 1, depth, json).status == Success
    ensures Stands(lib, s, p, t) && TreeWithin(t, depth - 1)
    ensures ValueAt(lib, s, p, p, 1, depth, json) == Parsed(Success, Value(lib, t, json), p + Size(t))
  {
    hide At, ElemsAt, FieldsAt, NumberFrom, ZeroFrom;
    if s[p] == 0x6E {
      t := NullLit;
      AtSlice(s, p, [0x6E, 0x75, 0x6C, 0x6C]);
    } else if s[p] == 0x74 {
      t := BoolLit(true);
      AtSlice(s, p, [0x74, 0x72, 0x75, 0x65]);
    } else {
      t := BoolLit(false);
      FalseStands(s, p);
    }
  }

  lemma FalseStands(s: Bytes, p: nat)
    requires p < |s| && s[p] == 0x66 && Literal(s, p + 1, [0x61, 0x6C, 0x73, 0x65])
    ensures At(s, p, [0x66, 0x61, 0x6C, 0x73, 0x65])
  {
    var w := [0x61, 0x6C, 0x73, 0x65];
    assert s[p + 1] == s[p + 1..p + 5][0] && s[p + 2] == s[p + 1..p + 5][1];
    assert s[p + 3] == s[p + 1..p + 5][2] && s[p + 4] == s[p + 1..p + 5][3];
  }

  lemma {:induction false} OnlyNests(lib: Library, s: Bytes, p: nat, depth: nat, json: Json) returns (t: Tree)
    requires lib.Valid() && p < |s| && (s[p] == 0x5B || s[p] == 0x7B) && 0 < depth <= DEPTH
    requires ValueAt(lib, s, p, p, 1, depth, json).status == Success
    ensures Stands(lib, s, p, t) && TreeWithin(t, depth - 1)
    ensures ValueAt(lib, s, p, p, 1, depth, json) == Parsed(Success, Value(lib, t, json), p + Size(t))
    decreases depth, 1, 0
  {
    hide ElemsAt, FieldsAt, ItemsStand, MembersStand, ItemsAllWithin, MembersAllWithin, ItemValues, MemberValues,
      ItemsSize, MembersSize;
    if s[p] == 0x5B {
      var items, close := OnlyItems(lib, s, p + 1, depth, true, []);
      assert [] + ItemValues(lib, items) == ItemValues(lib, items);
      t := ArrLit(items, close);
    } else {
      var members, close := OnlyMembers(lib, s, p + 1, depth, true, [], Null);
      t := ObjLit(members, close);
    }
  }

  lemma {:induction false} OnlyItems(lib: Library, s: Bytes, p: nat, depth: nat, first: bool, elems: seq<Json>)
    returns (items: seq<Item>, close: Bytes)
    requires lib.Valid() && p <= |s| && 0 < depth <= DEPTH
    requires ElemsAt(lib, s, p, ItemsContext(first), depth, elems).status == Success
    ensures depth > 1 && ItemsStand(lib, s, p, items, first, close) && ItemsAllWithin(items, depth - 2)
    ensures ElemsAt(lib, s, p, ItemsContext(first), depth, elems)
         == Parsed(Success, Array(elems + ItemValues(lib, items)), p + ItemsSize(items, first) + |close| + 1)
    decreases depth, 0, |s| - p
  {
    hide *;
    var c := ItemsContext(first);
    ContextsAre(first);
    ElemsTurn(lib, s, p, c, depth, elems);
    ParseIsLoop(lib, s, p, c, depth - 1, Null);
    var v := Parse(lib, s, p, c, depth - 1, Null);
    if v.status == AbsentValue {
      close := OnlyClose(lib, s, p, c, depth - 1, Null);
      items := [];
      NoItems(lib, s, p, close, first, depth - 2);
      OneMore(elems, Null, []);
    } else {
      var before, lead, t := OnlyGapTree(lib, s, p, c, depth - 1, first, Null);
      var rest;
      rest, close := OnlyItems(lib, s, v.p, depth, false, elems + [v.json]);
      var i := Item(before, lead, t);
      items := [i] + rest;
      FirstItem(lib, s, p, i, rest, first, close, depth - 2);
      OneMore(elems, v.json, ItemValues(lib, rest));
    }
  }

  /** White space, the comma where one is due, white space, a value. */
  lemma {:induction false} OnlyGapTree(lib: Library, s: Bytes, p: nat, c: Context, depth: nat, first: bool, json: Json)
    returns (before: Bytes, lead: Bytes, t: Tree)
    requires lib.Valid() && p <= |s| && 0 < depth < DEPTH && !c.colon && (c.comma <==> !first)
    requires Loop(lib, s, p, p, 1, c, depth, json).status == Success
    ensures GapStands(s, p, first, before, lead)
    ensures var q := p + |Gap(first, before)| + |lead|;
      && Stands(lib, s, q, t) && TreeWithin(t, depth - 1)
      && Loop(lib, s, p, p, 1, c, depth, json) == Parsed(Success, Value(lib, t, json), q + Size(t))
    ensures first && c.key ==> t.StrLit?
    decreases depth, 3, 0
  {
    hide Loop, Stands, At, AllSpaces, Value, Size, TreeWithin;
    if first {
      lead, t := OnlyTrees(lib, s, p, c, depth, json);
      NoSpace(s, p);
      before := [];
    } else {
      before := OnlySeparator(lib, s, p, c, depth, json);
      GapIs(s, p, before);
      lead, t := OnlyTrees(lib, s, p + |before| + 1, PLAIN, depth, json);
    }
  }

  lemma GapIs(s: Bytes, p: nat, before: Bytes)
    requires At(s, p, before) && p + |before| < |s| && s[p + |before|] == 0x2C
    ensures At(s, p, before + [0x2C])
  {
  }

  lemma {:induction false} OnlyMembers(lib: Library, s: Bytes, p: nat, depth: nat, first: bool, fields: seq<Field>,
                                       left: Json)
    returns (members: seq<Member>, close: Bytes)
    requires lib.Valid() && p <= |s| && 0 < depth <= DEPTH
    requires FieldsAt(lib, s, p, MembersContext(first), depth, fields, left).status == Success
    ensures depth > 1 && MembersStand(lib, s, p, members, first, close) && MembersAllWithin(members, depth - 2)
    ensures FieldsAt(lib, s, p, MembersContext(first), depth, fields, left)
         == Parsed(Success, Object(MemberValues(lib, members, fields, left)),
                   p + MembersSize(members, first) + |close| + 1)
    decreases depth, 0, |s| - p
  {
    hide *;
    var c := MembersContext(first);
    ContextsAre(first);
    FieldsTurn(lib, s, p, c, depth, fields, left);
    ParseIsLoop(lib, s, p, c, depth - 1, Null);
    var k := Parse(lib, s, p, c, depth - 1, Null);
    if k.status == AbsentValue {
      close := OnlyClose(lib, s, p, c, depth - 1, Null);
      members := [];
      NoMembers(lib, s, p, close, first, depth - 2, fields, left);
    } else {
      var m := OnlyMember(lib, s, p, depth - 1, first, left);
      var v := Parse(lib, s, k.p, COLON, depth - 1, left);
      var rest;
      rest, close := OnlyMembers(lib, s, v.p, depth, false, Emplace(fields, k.json.s, v.json),
                                 Leftover(lib, fields, k.json.s, v.json));
      members := [m] + rest;
      FirstMember(lib, s, p, m, rest, first, close, depth - 2, fields, left);
    }
  }

  /** A key where one is due. */
  lemma {:induction false} OnlyKey(lib: Library, s: Bytes, p: nat, depth: nat, first: bool)
    returns (before: Bytes, lead: Bytes, ps: seq<Piece>)
    requires lib.Valid() && p <= |s| && 0 < depth < DEPTH
    requires var k := Parse(lib, s, p, MembersContext(first), depth, Null); k.status == Success && k.json.String?
    ensures GapStands(s, p, first, before, lead)
    ensures var k, q := Parse(lib, s, p, MembersContext(first), depth, Null), p + |Gap(first, before)| + |lead|;
      && q < |s| && s[q] == 0x22 && StringStands(s, q + 1, ps)
      && k.json == String(Text(ps)) && k.p == q + |PiecesText(ps)| + 2
    decreases depth, 4, 0
  {
    hide Loop, Parse, Stands, Value, Size, TreeWithin, GapStands, Gap, StringStands, Text, PiecesText;
    ParseIsLoop(lib, s, p, MembersContext(first), depth, Null);
    var key;
    before, lead, key := OnlyGapTree(lib, s, p, MembersContext(first), depth, first, Null);
    KeyIsQuoted(lib, s, p + |Gap(first, before)| + |lead|, key);
    ps := key.ps;
  }

  /** A colon and the value behind it. */
  lemma {:induction false} OnlyColonTree(lib: Library, s: Bytes, p: nat, depth: nat, left: Json)
    returns (colon: Bytes, after: Bytes, t: Tree)
    requires lib.Valid() && p <= |s| && 0 < depth < DEPTH && Parse(lib, s, p, COLON, depth, left).status == Success
    ensures At(s, p, colon) && AllSpaces(colon) && p + |colon| < |s| && s[p + |colon|] == 0x3A
    ensures At(s, p + |colon| + 1, after) && AllSpaces(after)
    ensures var q := p + |colon| + 1 + |after|;
      && Stands(lib, s, q, t) && TreeWithin(t, depth - 1)
      && Parse(lib, s, p, COLON, depth, left) == Parsed(Success, Value(lib, t, left), q + Size(t))
    decreases depth, 4, 0
  {
    hide Loop, Parse, At, AllSpaces, Stands, Value, Size, TreeWithin;
    ParseIsLoop(lib, s, p, COLON, depth, left);
    colon := OnlySeparator(lib, s, p, COLON, depth, left);
    after, t := OnlyTrees(lib, s, p + |colon| + 1, PLAIN, depth, left);
  }

  /** One member: a key, its colon, its value. */
  lemma {:induction false} OnlyMember(lib: Library, s: Bytes, p: nat, depth: nat, first: bool, left: Json)
    returns (m: Member)
    requires lib.Valid() && p <= |s| && 0 < depth < DEPTH
    requires var k := Parse(lib, s, p, MembersContext(first), depth, Null);
      k.status == Success && k.json.String? && k.p <= |s| && Parse(lib, s, k.p, COLON, depth, left).status == Success
    ensures KeyStands(s, p, m, first)
    ensures var k, q := Parse(lib, s, p, MembersContext(first), depth, Null), p + KeySize(m, first);
      && k.json == String(Text(m.key)) && k.p <= |s|
      && Stands(lib, s, q, m.tree) && TreeWithin(m.tree, depth - 1)
      && Parse(lib, s, k.p, COLON, depth, left) == Parsed(Success, Value(lib, m.tree, left), q + Size(m.tree))
    decreases depth, 5, 0
  {
    hide *;
    var before, lead, ps := OnlyKey(lib, s, p, depth, first);
    var q := p + |Gap(first, before)| + |lead|;
    var colon, after, t := OnlyColonTree(lib, s, q + |PiecesText(ps)| + 2, depth, left);
    m := Member(before, lead, ps, colon, after, t);
    KeyAssembles(s, p, m, first, q);
  }

  lemma KeyAssembles(s: Bytes, p: nat, m: Member, first: bool, q: nat)
    requires GapStands(s, p, first, m.before, m.lead) && q == p + |Gap(first, m.before)| + |m.lead|
    requires q < |s| && s[q] == 0x22 && StringStands(s, q + 1, m.key)
    requires var r := q + |PiecesText(m.key)| + 2;
      && At(s, r, m.colon) && AllSpaces(m.colon) && r + |m.colon| < |s| && s[r + |m.colon|] == 0x3A
      && At(s, r + |m.colon| + 1, m.after) && AllSpaces(m.after)
    ensures KeyStands(s, p, m, first)
    ensures p + KeySize(m, first) == q + |PiecesText(m.key)| + 2 + |m.colon| + 1 + |m.after|
  {
    hide GapStands, StringStands, At, AllSpaces, PiecesText, Gap;
  }

  lemma KeyIsQuoted(lib: Library, s: Bytes, p: nat, t: Tree)
    requires Stands(lib, s, p, t) && Value(lib, t, Null).String?
    ensures t.StrLit? && p < |s| && s[p] == 0x22 && StringStands(s, p + 1, t.ps)
    ensures Value(lib, t, Null) == String(Text(t.ps)) && Size(t) == |PiecesText(t.ps)| + 2
  {
    hide StringStands, Text, PiecesText;
  }

  // ----- documents -----

  /** The whole text is white space, one value of the grammar nested at most 19 deep, and white space. */
  ghost predicate Document(lib: Library, s: Bytes, lead: Bytes, t: Tree) {
    && At(s, 0, lead) && AllSpaces(lead) && Stands(lib, s, |lead|, t) && TreeWithin(t, DEPTH - 1)
    && |lead| + Size(t) <= |s| && AllSpaces(s[|lead| + Size(t)..])
  }

  lemma {:induction false} OnlyTail(lib: Library, s: Bytes, p: nat, json: Json)
    requires lib.Valid() && p <= |s|
    ensures Loop(lib, s, p, p, 1, PLAIN, DEPTH, json).status == AbsentValue <==> AllSpaces(s[p..])
    decreases |s| - p
  {
    hide Loop, AllSpaces;
    if Loop(lib, s, p, p, 1, PLAIN, DEPTH, json).status == AbsentValue {
      AbsentTurn(lib, s, p, PLAIN, DEPTH, json);
    }
    SpacesFrom(s, p);
    if p == |s| {
      LoopAtEnd(lib, s, json);
    } else if IsSpace(s[p]) {
      LoopAtSpace(lib, s, p, PLAIN, DEPTH, json);
      OnlyTail(lib, s, p + 1, json);
    }
  }

  lemma LoopAtEnd(lib: Library, s: Bytes, json: Json)
    requires lib.Valid()
    ensures Loop(lib, s, |s|, |s|, 1, PLAIN, DEPTH, json).status == AbsentValue
  {
  }

  lemma SpacesFrom(s: Bytes, p: nat)
    requires p <= |s|
    ensures AllSpaces(s[p..]) <==> (p < |s| ==> IsSpace(s[p]) && AllSpaces(s[p + 1..]))
  {
    if p < |s| {
      FirstSpace(s[p], s[p + 1..]);
      assert s[p..] == [s[p]] + s[p + 1..];
    }
  }

  lemma FirstSpace(x: byte, t: Bytes)
    ensures AllSpaces([x] + t) <==> IsSpace(x) && AllSpaces(t)
  {
    var u := [x] + t;
    if AllSpaces(u) {
      assert u[0] == x;
      forall k | 0 <= k < |t|
        ensures IsSpace(t[k])
      {
        assert u[k + 1] == t[k];
      }
    }
  }

  lemma DocumentParses(lib: Library, s: Bytes, lead: Bytes, t: Tree)
    requires lib.Valid() && Document(lib, s, lead, t)
    ensures ParseText(lib, s) == (Success, Value(lib, t, Null))
  {
    hide Loop, Parse, At, AllSpaces, Stands, Value, Size, TreeWithin;
    ParseIsLoop(lib, s, 0, PLAIN, DEPTH, Null);
    AtRange(s, 0, lead);
    SkipSpaces(lib, s, 0, PLAIN, DEPTH, Null, lead);
    ReadsTree(lib, s, |lead|, PLAIN, DEPTH, t, Null);
    ParseIsLoop(lib, s, |lead| + Size(t), PLAIN, DEPTH, Null);
    OnlyTail(lib, s, |lead| + Size(t), Null);
  }

  lemma OnlyDocuments(lib: Library, s: Bytes) returns (lead: Bytes, t: Tree)
    requires lib.Valid() && ParseText(lib, s).0 == Success
    ensures Document(lib, s, lead, t) && ParseText(lib, s).1 == Value(lib, t, Null)
  {
    hide Loop, Parse, At, AllSpaces, Stands, Value, Size, TreeWithin;
    ParseIsLoop(lib, s, 0, PLAIN, DEPTH, Null);
    lead, t := OnlyTrees(lib, s, 0, PLAIN, DEPTH, Null);
    ParseIsLoop(lib, s, |lead| + Size(t), PLAIN, DEPTH, Null);
    OnlyTail(lib, s, |lead| + Size(t), Null);
  }

  /** The parser and the grammar say the same, for every text and every value: parsing succeeds with `v` if and only if
      the text is a document of the grammar that stands for `v`. */
  lemma ParserIsGrammar(lib: Library, s: Bytes, v: Json)
    requires lib.Valid()
    ensures ParseText(lib, s) == (Success, v)
       <==> exists lead, t :: Document(lib, s, lead, t) && v == Value(lib, t, Null)
  {
    hide ParseText, Document, Value;
    if ParseText(lib, s) == (Success, v) {
      var lead, t := OnlyDocuments(lib, s);
    }
    if exists lead, t :: Document(lib, s, lead, t) && v == Value(lib, t, Null) {
      var lead, t :| Document(lib, s, lead, t) && v == Value(lib, t, Null);
      DocumentParses(lib, s, lead, t);
    }
  }
}
