/** Percent decoding in data URIs (llamafile/datauri.cpp:83-143; section 2.1 of RFC 3986). */
module PercentDecode {
  import opened ByteSeq

  const PERCENT: byte := 37

  /** `kHexToInt`. */
  function Hex(c: byte): (h: int)
    ensures -1 <= h < 16
  {
    if 48 <= c <= 57 then c as int - 48
    else if 65 <= c <= 70 then c as int - 55
    else if 97 <= c <= 102 then c as int - 87
    else -1
  }

  /** The hexadecimal digits, upper and lower case. */
  lemma HexMeans(c: byte)
    ensures var x := c as char;
      Hex(c) == if '0' <= x <= '9' then c - '0' as int
                else if 'A' <= x <= 'F' then 10 + (c - 'A' as int)
                else if 'a' <= x <= 'f' then 10 + (c - 'a' as int)
                else -1
  {
  }

  predicate Escape(s: Bytes) {
    |s| >= 3 && s[0] == PERCENT && Hex(s[1]) != -1 && Hex(s[2]) != -1
  }

  /** The rule: a leading `%HH` stands for its byte, anything else for itself. */
  function Decoded(s: Bytes): Bytes {
    if s == [] then []
    else if Escape(s) then [(16 * Hex(s[1]) + Hex(s[2])) as byte] + Decoded(s[3..])
    else [s[0]] + Decoded(s[1..])
  }

  datatype Mode = Normal | Percent1 | Percent2

  /** What the machine has read but not yet settled. */
  function Pending(t: Mode, ac: byte): Bytes {
    match t
    case Normal => []
    case Percent1 => [PERCENT]
    case Percent2 => [PERCENT, ac]
  }

  lemma Copied(c: byte, rest: Bytes)
    requires !Escape([c] + rest)
    ensures Decoded([c] + rest) == [c] + Decoded(rest)
  {
    assert ([c] + rest)[1..] == rest;
  }

  lemma Unescaped(ac: byte, c: byte, rest: Bytes)
    requires Hex(ac) != -1 && Hex(c) != -1
    ensures Decoded([PERCENT, ac, c] + rest) == [(16 * Hex(ac) + Hex(c)) as byte] + Decoded(rest)
  {
    assert ([PERCENT, ac, c] + rest)[3..] == rest;
  }

  /** A `%` and one hex digit, then something that is no hex digit. */
  lemma TwoCopied(ac: byte, rest: Bytes)
    requires ac != PERCENT && (rest == [] || Hex(rest[0]) == -1)
    ensures Decoded([PERCENT, ac] + rest) == [PERCENT, ac] + Decoded(rest)
  {
    assert [PERCENT, ac] + rest == [PERCENT] + ([ac] + rest);
    Copied(PERCENT, [ac] + rest);
    Copied(ac, rest);
  }

  /** One step of the machine: what it adds to the output, and its new mode and first digit. */
  function Step(t: Mode, ac: byte, c: byte): (Bytes, Mode, byte) {
    match t
    case Normal => if c == PERCENT then ([], Percent1, ac) else ([c], Normal, ac)
    case Percent1 =>
      if Hex(c) != -1 then ([], Percent2, c)
      else if c == PERCENT then ([PERCENT], Percent1, c)
      else ([PERCENT, c], Normal, c)
    case Percent2 =>
      if Hex(c) != -1 && Hex(ac) != -1 then ([(16 * Hex(ac) + Hex(c)) as byte], Normal, ac)
      else if c == PERCENT then ([PERCENT, ac], Percent1, ac)
      else ([PERCENT, ac, c], Normal, ac)
  }

  /** A step changes nothing of what the rule makes of the whole. */
  lemma StepKeepsRule(t: Mode, ac: byte, c: byte, rest: Bytes)
    requires t.Percent2? ==> Hex(ac) != -1
    ensures var (out, u, bc) := Step(t, ac, c);
      && Decoded(Pending(t, ac) + ([c] + rest)) == out + Decoded(Pending(u, bc) + rest)
      && (u.Percent2? ==> Hex(bc) != -1)
  {
    hide Decoded;
    match t {
      case Normal =>
        assert [] + ([c] + rest) == [c] + rest && [] + rest == rest;
        if c != PERCENT {
          Copied(c, rest);
        }
      case Percent1 =>
        assert [PERCENT] + ([c] + rest) == [PERCENT, c] + rest && [] + rest == rest;
        if Hex(c) == -1 {
          Copied(PERCENT, [c] + rest);
          if c != PERCENT {
            Copied(c, rest);
          }
        }
      case Percent2 =>
        assert [PERCENT, ac] + ([c] + rest) == [PERCENT, ac, c] + rest && [] + rest == rest;
        if Hex(c) != -1 {
          Unescaped(ac, c, rest);
        } else {
          TwoCopied(ac, [c] + rest);
          if c != PERCENT {
            Copied(c, rest);
          }
        }
    }
  }

  /** The three-state machine computes the rule, on every input. */
  method Decode(data: Bytes) returns (r: Bytes)
    ensures r == Decoded(data)
  {
    hide Decoded, Pending, Hex, Escape;
    r := [];
    var t, a, ac: byte := Normal, 0, 0;
    NothingPending(data);
    var i := 0;
    while i < |data|
      invariant i <= |data|
      invariant t.Percent2? ==> a == Hex(ac) && a != -1
      invariant Decoded(data) == r + Decoded(Pending(t, ac) + data[i..])
    {
      var c := data[i];
      ghost var before, step := r, Step(t, ac, c);
      Consumes(data, i, r, t, ac);
      match t {
        case Normal =>
          if c == PERCENT {
            t := Percent1;
          } else {
            r := r + [c];
          }
        case Percent1 =>
          ac := c;
          a := Hex(c);
          if a != -1 {
            t := Percent2;
          } else if c == PERCENT {
            r := r + [PERCENT];
          } else {
            t := Normal;
            r := r + [PERCENT, c];
          }
        case Percent2 =>
          var b := Hex(c);
          if b != -1 {
            t := Normal;
            r := r + [(16 * a + b) as byte];
          } else if c == PERCENT {
            t := Percent1;
            r := r + [PERCENT, ac];
          } else {
            t := Normal;
            r := r + [PERCENT, ac, c];
          }
      }
      assert r == before + step.0 && t == step.1 && ac == step.2;
      i := i + 1;
    }
    Rest(t, ac);
    assert Pending(t, ac) + data[i..] == Pending(t, ac);
    match t {
      case Percent1 => r := r + [PERCENT];
      case Percent2 => r := r + [PERCENT, ac];
      case Normal =>
    }
  }

  /** What one step does to the loop's invariant. */
  lemma Consumes(data: Bytes, i: nat, r: Bytes, t: Mode, ac: byte)
    requires i < |data| && (t.Percent2? ==> Hex(ac) != -1)
    ensures var (out, u, bc) := Step(t, ac, data[i]);
      && r + Decoded(Pending(t, ac) + data[i..]) == r + out + Decoded(Pending(u, bc) + data[i + 1..])
      && (u.Percent2? ==> Hex(bc) != -1)
  {
    hide Step, Decoded, Pending;
    var c, rest := data[i], data[i + 1..];
    assert data[i..] == [c] + rest;
    StepKeepsRule(t, ac, c, rest);
    var (out, u, bc) := Step(t, ac, c);
    assert r + (out + Decoded(Pending(u, bc) + rest)) == r + out + Decoded(Pending(u, bc) + rest);
  }

  lemma NothingPending(data: Bytes)
    ensures Pending(Normal, 0) + data[0..] == data
  {
  }

  lemma Rest(t: Mode, ac: byte)
    requires t.Percent2? ==> Hex(ac) != -1
    ensures Decoded(Pending(t, ac)) == Pending(t, ac)
    ensures Pending(t, ac) == if t.Normal? then [] else if t.Percent1? then [PERCENT] else [PERCENT, ac]
  {
    assert Decoded([]) == [] && [PERCENT] + [] == [PERCENT] && [PERCENT, ac] + [] == [PERCENT, ac];
    match t {
      case Normal =>
      case Percent1 => Copied(PERCENT, []);
      case Percent2 => TwoCopied(ac, []);
    }
  }

  function HexDigit(h: nat): byte
    requires h < 16
  {
    if h < 10 then (48 + h) as byte else (55 + h) as byte
  }

  /** Escaping as section 2.1 of RFC 3986 asks: every `%`, and any other byte one likes. */
  function Encoded(s: Bytes, more: set<byte>): Bytes {
    if s == [] then []
    else if s[0] == PERCENT || s[0] in more then
      [PERCENT, HexDigit(s[0] as int / 16), HexDigit(s[0] as int % 16)] + Encoded(s[1..], more)
    else [s[0]] + Encoded(s[1..], more)
  }

  /** Decoding gives back whatever was escaped, whichever bytes were. */
  lemma {:induction false} RoundTrip(s: Bytes, more: set<byte>)
    ensures Decoded(Encoded(s, more)) == s
  {
    if s != [] {
      RoundTrip(s[1..], more);
      var b, rest := s[0], Encoded(s[1..], more);
      if b == PERCENT || b in more {
        assert 16 * (b as int / 16) + b as int % 16 == b as int;
        Unescaped(HexDigit(b as int / 16), HexDigit(b as int % 16), rest);
      } else {
        Copied(b, rest);
      }
    }
  }
}
