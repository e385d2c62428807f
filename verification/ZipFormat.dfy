/** The records of a ZIP64 archive (PKWARE APPNOTE, sections 4.3.7, 4.3.12, 4.3.14 to 4.3.16 and 4.5.3), as
    zipalign writes them and as the readers of llamafile/zip.h take them apart. */
module ZipFormat {
  import opened Arith
  import opened ByteSeq

  // ----- little-endian numbers -----

  /** `ZIP_WRITE16`, `ZIP_WRITE32`, `ZIP_WRITE64`: the low `k` bytes of `v`. */
  function Le(v: nat, k: nat): (t: Bytes)
    ensures |t| == k
  {
    if k == 0 then [] else [v % 256] + Le(v / 256, k - 1)
  }

  /** `ZIP_READ16`, `ZIP_READ32`, `ZIP_READ64`. */
  function Read(s: Bytes, p: nat, k: nat): nat
    requires p + k <= |s|
    decreases k
  {
    if k == 0 then 0 else s[p] + 256 * Read(s, p + 1, k - 1)
  }

  function Pow256(k: nat): (p: nat)
    ensures p >= 1
  {
    if k == 0 then 1 else 256 * Pow256(k - 1)
  }

  const FULL32: nat := 0xFFFF_FFFF
  const MAX16: nat := 0xFFFF
  const INT_MAX: nat := 0x7FFF_FFFF

  /** What was written is read back, truncated to its width. */
  lemma {:induction false} ReadLe(s: Bytes, p: nat, v: nat, k: nat)
    requires At(s, p, Le(v, k))
    ensures Read(s, p, k) == v % Pow256(k)
    decreases k
  {
    if k > 0 {
      AtSplit(s, p, [v % 256], Le(v / 256, k - 1));
      AtByte(s, p, [v % 256], 0);
      ReadLe(s, p + 1, v / 256, k - 1);
      ModSplit(v, Pow256(k - 1));
    }
  }

  lemma ModSplit(v: nat, m: nat)
    requires m >= 1
    ensures v % (256 * m) == v % 256 + 256 * (v / 256 % m)
  {
    var q := v / 256 / m;
    assert v / 256 == q * m + v / 256 % m;
    assert v == q * (256 * m) + (v % 256 + 256 * (v / 256 % m));
    DivUnique(v, 256 * m, q, v % 256 + 256 * (v / 256 % m));
  }

  lemma ReadSmall(s: Bytes, p: nat, v: nat, k: nat)
    requires At(s, p, Le(v, k)) && v < Pow256(k)
    ensures Read(s, p, k) == v
  {
    ReadLe(s, p, v, k);
    DivUnique(v, Pow256(k), 0, v);
  }

  lemma Powers()
    ensures Pow256(2) == 0x10000
    ensures Pow256(4) == 0x1_0000_0000
    ensures Pow256(8) == 0x1_0000_0000_0000_0000
  {
    assert Pow256(3) == 0x1000000;
    assert Pow256(5) == 0x100_0000_0000;
    assert Pow256(6) == 0x1_0000_0000_0000;
    assert Pow256(7) == 0x100_0000_0000_0000;
  }

  /** A read depends on its own bytes only. */
  lemma {:induction false} ReadSame(s: Bytes, p: nat, t: Bytes, q: nat, k: nat)
    requires p + k <= |s| && q + k <= |t| && s[p..p + k] == t[q..q + k]
    ensures Read(s, p, k) == Read(t, q, k)
    decreases k
  {
    if k > 0 {
      assert s[p] == s[p..p + k][0] && t[q] == t[q..q + k][0];
      assert s[p + 1..p + k] == s[p..p + k][1..];
      assert t[q + 1..q + k] == t[q..q + k][1..];
      ReadSame(s, p + 1, t, q + 1, k - 1);
    }
  }

  // ----- records as lists of fields -----

  function Concat(parts: seq<Bytes>): Bytes {
    if parts == [] then [] else Concat(parts[..|parts| - 1]) + parts[|parts| - 1]
  }

  /** Where field `k` starts. */
  function Off(parts: seq<Bytes>, k: nat): nat
    requires k <= |parts|
  {
    if k == 0 then 0 else Off(parts, k - 1) + |parts[k - 1]|
  }

  lemma {:induction false} OffPrefix(parts: seq<Bytes>, n: nat, k: nat)
    requires k <= n <= |parts|
    ensures Off(parts[..n], k) == Off(parts, k)
  {
    if k > 0 {
      OffPrefix(parts, n, k - 1);
    }
  }

  lemma {:induction false} ConcatLength(parts: seq<Bytes>)
    ensures |Concat(parts)| == Off(parts, |parts|)
  {
    if parts != [] {
      var n := |parts| - 1;
      ConcatLength(parts[..n]);
      OffPrefix(parts, n, n);
    }
  }

  /** Every field of a record stands at its offset. */
  lemma {:induction false} FieldAt(s: Bytes, p: nat, parts: seq<Bytes>, k: nat)
    requires At(s, p, Concat(parts)) && k < |parts|
    ensures At(s, p + Off(parts, k), parts[k])
  {
    var n := |parts| - 1;
    AtSplit(s, p, Concat(parts[..n]), parts[n]);
    if k < n {
      FieldAt(s, p, parts[..n], k);
      OffPrefix(parts, n, k);
    } else {
      ConcatLength(parts[..n]);
      OffPrefix(parts, n, n);
    }
  }

  lemma {:induction false} ConcatAppend(a: seq<Bytes>, b: seq<Bytes>)
    ensures Concat(a + b) == Concat(a) + Concat(b)
  {
    if b == [] {
      assert a + b == a;
    } else {
      var n := |b| - 1;
      ConcatAppend(a, b[..n]);
      assert (a + b)[..|a + b| - 1] == a + b[..n];
    }
  }

  /** Neighbouring fields stand together. */
  lemma FieldsAt(s: Bytes, p: nat, parts: seq<Bytes>, i: nat, j: nat)
    requires i <= j <= |parts| && At(s, p, Concat(parts))
    ensures At(s, p + Off(parts, i), Concat(parts[i..j]))
  {
    hide Concat, At, Off;
    var a, b, c := parts[..i], parts[i..j], parts[j..];
    assert parts == a + b + c;
    ConcatAppend(a + b, c);
    ConcatAppend(a, b);
    AtSplit(s, p, Concat(a) + Concat(b), Concat(c));
    AtSplit(s, p, Concat(a), Concat(b));
    ConcatLength(a);
    OffPrefix(parts, i, i);
  }

  // ----- the records zipalign writes -----

  /** A file added to an archive: where its local header is, and fields the model only carries along. */
  datatype Entry = Entry(name: Bytes, content: Bytes, offset: nat, crc: nat, mtime: nat, mdate: nat, mode: nat)

  const LFILE_MAGIC: nat := 0x04034b50
  const CFILE_MAGIC: nat := 0x02014b50
  const CDIR_MAGIC: nat := 0x06054b50
  const CDIR64_MAGIC: nat := 0x06064b50
  const LOCATOR_MAGIC: nat := 0x07064b50

  function LocalFields(e: Entry): seq<Bytes> {
    [Le(LFILE_MAGIC, 4), Le(45, 2), Le(0x800, 2), Le(0, 2), Le(e.mtime, 2), Le(e.mdate, 2), Le(e.crc, 4),
     Le(FULL32, 4), Le(FULL32, 4), Le(|e.name|, 2), Le(20, 2), e.name,
     Le(1, 2), Le(16, 2), Le(|e.content|, 8), Le(|e.content|, 8)]
  }

  function LocalHeader(e: Entry): Bytes { Concat(LocalFields(e)) }

  function CentralFields(e: Entry): seq<Bytes> {
    [Le(CFILE_MAGIC, 4), Le(3 * 256 + 45, 2), Le(45, 2), Le(0x800, 2), Le(0, 2), Le(e.mtime, 2), Le(e.mdate, 2),
     Le(e.crc, 4), Le(FULL32, 4), Le(FULL32, 4), Le(|e.name|, 2), Le(28, 2), Le(0, 2), Le(0, 2), Le(0, 2),
     Le(e.mode * 0x10000, 4), Le(FULL32, 4), e.name,
     Le(1, 2), Le(24, 2), Le(|e.content|, 8), Le(|e.content|, 8), Le(e.offset, 8)]
  }

  function CentralHeader(e: Entry): Bytes { Concat(CentralFields(e)) }

  /** The zip64 end of central directory record, its locator, and the legacy end record. */
  function End64Fields(cnt: nat, size: nat, offset: nat): seq<Bytes> {
    [Le(CDIR64_MAGIC, 4), Le(44, 8), Le(3 * 256 + 45, 2), Le(45, 2), Le(0, 4), Le(0, 4), Le(cnt, 8), Le(cnt, 8),
     Le(size, 8), Le(offset, 8)]
  }

  function LocatorFields(at: nat): seq<Bytes> {
    [Le(LOCATOR_MAGIC, 4), Le(0, 4), Le(at, 8), Le(1, 4)]
  }

  function EndFields(cnt: nat, size: nat): seq<Bytes> {
    LegacyFields(cnt, size, FULL32)
  }

  /** The end record of an archive without zip64 records. */
  function LegacyFields(cnt: nat, size: nat, offset: nat): seq<Bytes> {
    [Le(CDIR_MAGIC, 4), Le(0, 2), Le(0, 2), Le(cnt, 2), Le(cnt, 2), Le(size, 4), Le(offset, 4), Le(0, 2)]
  }

  function EndRecords(cnt: nat, size: nat, offset: nat): Bytes {
    Concat(End64Fields(cnt, size, offset)) + Concat(LocatorFields(offset + size)) + Concat(EndFields(cnt, size))
  }

  // ----- field readers -----

  function CfileHdrSize(s: Bytes, p: nat): nat
    requires p + 46 <= |s|
  {
    Read(s, p + 28, 2) + Read(s, p + 30, 2) + Read(s, p + 32, 2) + 46
  }

  function LfileHdrSize(s: Bytes): nat
    requires |s| == 30
  {
    Read(s, 26, 2) + Read(s, 28, 2) + 30
  }

  lemma LocalOffsets(e: Entry)
    ensures var f := LocalFields(e);
      && Off(f, 9) == 26 && Off(f, 10) == 28 && Off(f, 11) == 30 && Off(f, 12) == 30 + |e.name|
      && |LocalHeader(e)| == 50 + |e.name|
  {
    var f := LocalFields(e);
    assert Off(f, 1) == 4;
    assert Off(f, 2) == 6;
    assert Off(f, 3) == 8;
    assert Off(f, 4) == 10;
    assert Off(f, 5) == 12;
    assert Off(f, 6) == 14;
    assert Off(f, 7) == 18;
    assert Off(f, 8) == 22;
    assert Off(f, 9) == 26;
    assert Off(f, 10) == 28;
    assert Off(f, 11) == 30;
    assert Off(f, 12) == 30 + |e.name|;
    assert Off(f, 13) == 32 + |e.name|;
    assert Off(f, 14) == 34 + |e.name|;
    assert Off(f, 15) == 42 + |e.name|;
    assert Off(f, 16) == 50 + |e.name|;
    ConcatLength(f);
  }

  lemma CentralOffsets(e: Entry)
    ensures var f, n := CentralFields(e), |e.name|;
      && Off(f, 4) == 10 && Off(f, 8) == 20 && Off(f, 9) == 24 && Off(f, 10) == 28 && Off(f, 11) == 30
      && Off(f, 12) == 32 && Off(f, 16) == 42 && Off(f, 17) == 46
      && Off(f, 18) == 46 + n && Off(f, 19) == 48 + n && Off(f, 20) == 50 + n && Off(f, 21) == 58 + n
      && Off(f, 22) == 66 + n
      && |CentralHeader(e)| == 74 + n
  {
    hide Le, Concat;
    var f, n := CentralFields(e), |e.name|;
    assert Off(f, 1) == 4;
    assert Off(f, 2) == 6;
    assert Off(f, 3) == 8;
    assert Off(f, 4) == 10;
    assert Off(f, 5) == 12;
    assert Off(f, 6) == 14;
    assert Off(f, 7) == 16;
    assert Off(f, 8) == 20;
    assert Off(f, 9) == 24;
    assert Off(f, 10) == 28;
    assert Off(f, 11) == 30;
    assert Off(f, 12) == 32;
    assert Off(f, 13) == 34;
    assert Off(f, 14) == 36;
    assert Off(f, 15) == 38;
    assert Off(f, 16) == 42;
    assert Off(f, 17) == 46;
    assert Off(f, 18) == 46 + n;
    assert Off(f, 19) == 48 + n;
    assert Off(f, 20) == 50 + n;
    assert Off(f, 21) == 58 + n;
    assert Off(f, 22) == 66 + n;
    assert Off(f, 23) == 74 + n;
    ConcatLength(f);
  }

  lemma FieldRead(s: Bytes, p: nat, parts: seq<Bytes>, k: nat, off: nat, v: nat, w: nat)
    requires At(s, p, Concat(parts)) && k < |parts| && parts[k] == Le(v, w) && Off(parts, k) == off && v < Pow256(w)
    ensures p + off + w <= |s| && Read(s, p + off, w) == v
  {
    FieldAt(s, p, parts, k);
    ReadSmall(s, p + off, v, w);
  }

  /** Sizes the format can carry. */
  ghost predicate EntryFits(e: Entry) {
    |e.name| <= MAX16 && |e.content| < 0x8000_0000_0000_0000 && e.offset < 0x8000_0000_0000_0000
  }

  /** A directory entry, field by field, as the reader's macros see it. */
  lemma CentralReads(s: Bytes, p: nat, e: Entry)
    requires At(s, p, CentralHeader(e)) && EntryFits(e)
    ensures p + 74 + |e.name| <= |s|
    ensures Read(s, p, 4) == CFILE_MAGIC && Read(s, p + 10, 2) == 0
    ensures Read(s, p + 20, 4) == FULL32 && Read(s, p + 24, 4) == FULL32 && Read(s, p + 42, 4) == FULL32
    ensures Read(s, p + 28, 2) == |e.name| && Read(s, p + 30, 2) == 28 && Read(s, p + 32, 2) == 0
    ensures At(s, p + 46, e.name)
    ensures var x := p + 46 + |e.name|;
      && Read(s, x, 2) == 1 && Read(s, x + 2, 2) == 24
      && Read(s, x + 4, 8) == |e.content| && Read(s, x + 12, 8) == |e.content| && Read(s, x + 20, 8) == e.offset
  {
    var f, n := CentralFields(e), |e.name|;
    CentralOffsets(e);
    Powers();
    hide Le, Concat, Off, Read, At, Pow256;
    assert p + |CentralHeader(e)| <= |s| by { AtRange(s, p, CentralHeader(e)); }
    OffZero(f);
    FieldRead(s, p, f, 0, 0, CFILE_MAGIC, 4);
    FieldRead(s, p, f, 4, 10, 0, 2);
    FieldRead(s, p, f, 8, 20, FULL32, 4);
    FieldRead(s, p, f, 9, 24, FULL32, 4);
    FieldRead(s, p, f, 10, 28, n, 2);
    FieldRead(s, p, f, 11, 30, 28, 2);
    FieldRead(s, p, f, 12, 32, 0, 2);
    FieldRead(s, p, f, 16, 42, FULL32, 4);
    FieldAt(s, p, f, 17);
    FieldRead(s, p, f, 18, 46 + n, 1, 2);
    FieldRead(s, p, f, 19, 48 + n, 24, 2);
    FieldRead(s, p, f, 20, 50 + n, |e.content|, 8);
    FieldRead(s, p, f, 21, 58 + n, |e.content|, 8);
    FieldRead(s, p, f, 22, 66 + n, e.offset, 8);
  }

  lemma OffZero(f: seq<Bytes>)
    ensures Off(f, 0) == 0
  {
  }

  lemma LocalReads(s: Bytes, p: nat, e: Entry)
    requires At(s, p, LocalHeader(e)) && |e.name| <= MAX16
    ensures p + 50 + |e.name| <= |s|
    ensures Read(s, p, 4) == LFILE_MAGIC && Read(s, p + 26, 2) == |e.name| && Read(s, p + 28, 2) == 20
  {
    var f := LocalFields(e);
    LocalOffsets(e);
    Powers();
    hide Le, Concat, Off, Read, At, Pow256;
    assert p + |LocalHeader(e)| <= |s| by { AtRange(s, p, LocalHeader(e)); }
    OffZero(f);
    FieldRead(s, p, f, 0, 0, LFILE_MAGIC, 4);
    FieldRead(s, p, f, 9, 26, |e.name|, 2);
    FieldRead(s, p, f, 10, 28, 20, 2);
  }

  lemma EndOffsets(cnt: nat, size: nat, offset: nat)
    ensures var f := End64Fields(cnt, size, offset);
      Off(f, 6) == 24 && Off(f, 7) == 32 && Off(f, 8) == 40 && Off(f, 9) == 48 && |Concat(f)| == 56
    ensures var f := LocatorFields(offset + size);
      Off(f, 1) == 4 && Off(f, 2) == 8 && Off(f, 3) == 16 && |Concat(f)| == 20
    ensures var f := EndFields(cnt, size);
      Off(f, 1) == 4 && Off(f, 2) == 6 && Off(f, 3) == 8 && Off(f, 4) == 10 && Off(f, 5) == 12 && Off(f, 6) == 16
        && Off(f, 7) == 20
      && |Concat(f)| == 22
  {
    hide Le, Concat;
    var f := End64Fields(cnt, size, offset);
    assert Off(f, 1) == 4;
    assert Off(f, 2) == 12;
    assert Off(f, 3) == 14;
    assert Off(f, 4) == 16;
    assert Off(f, 5) == 20;
    assert Off(f, 6) == 24;
    assert Off(f, 7) == 32;
    assert Off(f, 8) == 40;
    assert Off(f, 9) == 48;
    assert Off(f, 10) == 56;
    ConcatLength(f);
    var g := LocatorFields(offset + size);
    assert Off(g, 1) == 4;
    assert Off(g, 2) == 8;
    assert Off(g, 3) == 16;
    assert Off(g, 4) == 20;
    ConcatLength(g);
    var h := EndFields(cnt, size);
    assert Off(h, 1) == 4;
    assert Off(h, 2) == 6;
    assert Off(h, 3) == 8;
    assert Off(h, 4) == 10;
    assert Off(h, 5) == 12;
    assert Off(h, 6) == 16;
    assert Off(h, 7) == 20;
    assert Off(h, 8) == 22;
    ConcatLength(h);
  }

  /** The zip64 end record, as the search reads it. */
  lemma End64Reads(s: Bytes, p: nat, cnt: nat, size: nat, offset: nat)
    requires At(s, p, Concat(End64Fields(cnt, size, offset)))
    requires cnt < Pow256(8) && size < Pow256(8) && offset < Pow256(8)
    ensures p + 56 <= |s| && Read(s, p, 4) == CDIR64_MAGIC && Read(s, p + 24, 8) == cnt && Read(s, p + 32, 8) == cnt
    ensures Read(s, p + 40, 8) == size && Read(s, p + 48, 8) == offset
  {
    var f := End64Fields(cnt, size, offset);
    EndOffsets(cnt, size, offset);
    Powers();
    hide Le, Concat, Off, Read, At, Pow256;
    assert p + |Concat(f)| <= |s| by { AtRange(s, p, Concat(f)); }
    OffZero(f);
    FieldRead(s, p, f, 0, 0, CDIR64_MAGIC, 4);
    FieldRead(s, p, f, 6, 24, cnt, 8);
    FieldRead(s, p, f, 7, 32, cnt, 8);
    FieldRead(s, p, f, 8, 40, size, 8);
    FieldRead(s, p, f, 9, 48, offset, 8);
  }

  lemma End64Size(s: Bytes, p: nat, cnt: nat, size: nat, offset: nat)
    requires At(s, p, Concat(End64Fields(cnt, size, offset))) && size < Pow256(8)
    ensures p + 56 <= |s| && Read(s, p + 40, 8) == size
  {
    var f := End64Fields(cnt, size, offset);
    EndOffsets(cnt, size, offset);
    hide Le, Concat, Off, Read, At, Pow256;
    AtRange(s, p, Concat(f));
    FieldRead(s, p, f, 8, 40, size, 8);
  }

  // ----- the zip64 extra field (llamafile/zip.c) -----

  function ToInt64(v: nat): int {
    if v < 0x8000_0000_0000_0000 then v else v - 0x1_0000_0000_0000_0000
  }

  /** The loop over extra fields: the 64-bit number `skip` bytes into the first zip64 field big enough, or -1.
      The code reads a field's size before it knows the field fits; that read cannot change the outcome. */
  function Zip64From(s: Bytes, q: nat, pe: nat, skip: nat): int
    requires pe <= |s|
    decreases pe - q
  {
    if q + 4 > pe then -1
    else
      var size := Read(s, q + 2, 2);
      if q + 4 + size > pe then -1
      else if Read(s, q, 2) == 1 && skip + 8 <= size then ToInt64(Read(s, q + 4 + skip, 8))
      else Zip64From(s, q + 4 + size, pe, skip)
  }

  predicate CfileInside(s: Bytes, z: nat) {
    z + 46 <= |s| && z + CfileHdrSize(s, z) <= |s|
  }

  function ExtraStart(s: Bytes, z: nat): nat
    requires CfileInside(s, z)
  {
    z + 46 + Read(s, z + 28, 2)
  }

  /** `get_zip_cfile_compressed_size`. */
  function CompressedSize(s: Bytes, z: nat): int
    requires CfileInside(s, z)
  {
    if Read(s, z + 20, 4) != FULL32 then Read(s, z + 20, 4)
    else
      var skip := if Read(s, z + 24, 4) == FULL32 then 8 else 0;
      Zip64From(s, ExtraStart(s, z), ExtraStart(s, z) + Read(s, z + 30, 2), skip)
  }

  /** `get_zip_cfile_offset`. */
  function LocalOffset(s: Bytes, z: nat): int
    requires CfileInside(s, z)
  {
    if Read(s, z + 42, 4) != FULL32 then Read(s, z + 42, 4)
    else
      var skip := (if Read(s, z + 24, 4) == FULL32 then 8 else 0) + if Read(s, z + 20, 4) == FULL32 then 8 else 0;
      Zip64From(s, ExtraStart(s, z), ExtraStart(s, z) + Read(s, z + 30, 2), skip)
  }

  method FindZip64(s: Bytes, q0: nat, pe: nat, skip: nat) returns (v: int)
    requires pe <= |s|
    ensures v == Zip64From(s, q0, pe, skip)
  {
    var q := q0;
    while q + 4 <= pe && q + 4 + Read(s, q + 2, 2) <= pe
      invariant Zip64From(s, q, pe, skip) == Zip64From(s, q0, pe, skip)
      decreases pe - q
    {
      if Read(s, q, 2) == 1 && skip + 8 <= Read(s, q + 2, 2) {
        return ToInt64(Read(s, q + 4 + skip, 8));
      }
      q := q + 4 + Read(s, q + 2, 2);
    }
    return -1;
  }

  lemma ExtraInside(s: Bytes, z: nat)
    requires CfileInside(s, z)
    ensures ExtraStart(s, z) + Read(s, z + 30, 2) <= z + CfileHdrSize(s, z) <= |s|
  {
  }

  method GetCompressedSize(s: Bytes, z: nat) returns (v: int)
    requires CfileInside(s, z)
    ensures v == CompressedSize(s, z)
  {
    hide Read, Zip64From;
    ExtraInside(s, z);
    v := Read(s, z + 20, 4);
    if v == FULL32 {
      var skip: nat := if Read(s, z + 24, 4) == FULL32 then 8 else 0;
      v := FindZip64(s, ExtraStart(s, z), ExtraStart(s, z) + Read(s, z + 30, 2), skip);
    }
  }

  method GetOffset(s: Bytes, z: nat) returns (v: int)
    requires CfileInside(s, z)
    ensures v == LocalOffset(s, z)
  {
    hide Read, Zip64From;
    ExtraInside(s, z);
    v := Read(s, z + 42, 4);
    if v == FULL32 {
      var skip: nat := 0;
      if Read(s, z + 24, 4) == FULL32 {
        skip := skip + 8;
      }
      if Read(s, z + 20, 4) == FULL32 {
        skip := skip + 8;
      }
      v := FindZip64(s, ExtraStart(s, z), ExtraStart(s, z) + Read(s, z + 30, 2), skip);
    }
  }

  /** On an entry zipalign wrote, the three readers give back what was written. */
  lemma CentralDecodes(s: Bytes, p: nat, e: Entry)
    requires At(s, p, CentralHeader(e)) && EntryFits(e)
    ensures CfileInside(s, p) && CfileHdrSize(s, p) == |CentralHeader(e)| == 74 + |e.name|
    ensures CompressedSize(s, p) == |e.content| && LocalOffset(s, p) == e.offset
  {
    hide Read, At;
    CentralReads(s, p, e);
    CentralOffsets(e);
  }

  // ----- the two headers of a file agree -----

  /** What a local header and a directory entry have in common, from the version needed to the length of the name. */
  function CommonFields(e: Entry): seq<Bytes> {
    LocalFields(e)[1..10]
  }

  /** Field for field the local header says what the directory entry says, and both end in the file's name and its size,
      given twice. */
  lemma HeadersAgree(e: Entry)
    requires EntryFits(e)
    ensures |Concat(CommonFields(e))| == 24
    ensures At(LocalHeader(e), 4, Concat(CommonFields(e))) && At(CentralHeader(e), 6, Concat(CommonFields(e)))
    ensures At(LocalHeader(e), 30, e.name) && At(CentralHeader(e), 46, e.name)
    ensures var x, y, h, d := 30 + |e.name|, 46 + |e.name|, LocalHeader(e), CentralHeader(e);
      && |h| == x + 20 && |d| == y + 28
      && Read(h, x, 2) == Read(d, y, 2) == 1 && Read(h, x + 2, 2) == 16
      && Read(h, x + 4, 8) == Read(d, y + 4, 8) == |e.content|
      && Read(h, x + 12, 8) == Read(d, y + 12, 8) == |e.content|
    ensures Read(LocalHeader(e), 8, 2) == 0 && Read(LocalHeader(e), 14, 4) == e.crc % 0x1_0000_0000
  {
    var h, d, f, g := LocalHeader(e), CentralHeader(e), LocalFields(e), CentralFields(e);
    AtSelf(h);
    AtSelf(d);
    LocalOffsets(e);
    CentralOffsets(e);
    SameFields(e);
    Powers();
    hide *;
    HeaderFields(e);
    FieldsAt(h, 0, f, 1, 10);
    FieldsAt(d, 0, g, 2, 11);
    CommonLength(e);
    FieldAt(h, 0, f, 11);
    LocalTail(h, 0, e);
    CentralReads(d, 0, e);
    LocalCrc(h, 0, e);
  }

  lemma AtSelf(s: Bytes)
    ensures At(s, 0, s)
  {
  }

  lemma SameFields(e: Entry)
    ensures CommonFields(e) == LocalFields(e)[1..10] == CentralFields(e)[2..11]
    ensures Off(LocalFields(e), 1) == 4 && Off(CentralFields(e), 2) == 6
  {
    hide Le;
    var f, g := LocalFields(e), CentralFields(e);
    assert Off(f, 1) == 4;
    assert Off(g, 1) == 4;
    assert Off(g, 2) == 6;
  }

  lemma HeaderFields(e: Entry)
    ensures LocalHeader(e) == Concat(LocalFields(e)) && CentralHeader(e) == Concat(CentralFields(e))
    ensures |LocalFields(e)| == 16 && |CentralFields(e)| == 23 && LocalFields(e)[11] == e.name
  {
    hide Concat, Le;
  }

  lemma CommonLength(e: Entry)
    ensures |Concat(CommonFields(e))| == 24
  {
    hide Le, Concat;
    var c := CommonFields(e);
    assert Off(c, 1) == 2;
    assert Off(c, 2) == 4;
    assert Off(c, 3) == 6;
    assert Off(c, 4) == 8;
    assert Off(c, 5) == 10;
    assert Off(c, 6) == 14;
    assert Off(c, 7) == 18;
    assert Off(c, 8) == 22;
    assert Off(c, 9) == 24;
    ConcatLength(c);
  }

  /** The zip64 field at the end of a local header. */
  lemma LocalTail(s: Bytes, p: nat, e: Entry)
    requires At(s, p, LocalHeader(e)) && EntryFits(e)
    ensures p + 50 + |e.name| <= |s|
    ensures var x := p + 30 + |e.name|;
      && Read(s, x, 2) == 1 && Read(s, x + 2, 2) == 16
      && Read(s, x + 4, 8) == |e.content| && Read(s, x + 12, 8) == |e.content|
  {
    var f, n := LocalFields(e), |e.name|;
    LocalOffsets(e);
    TailOffsets(e);
    Powers();
    hide Le, Concat, Off, Read, At, Pow256;
    AtRange(s, p, LocalHeader(e));
    FieldRead(s, p, f, 12, 30 + n, 1, 2);
    FieldRead(s, p, f, 13, 32 + n, 16, 2);
    FieldRead(s, p, f, 14, 34 + n, |e.content|, 8);
    FieldRead(s, p, f, 15, 42 + n, |e.content|, 8);
  }

  lemma TailOffsets(e: Entry)
    ensures var f, n := LocalFields(e), |e.name|;
      Off(f, 13) == 32 + n && Off(f, 14) == 34 + n && Off(f, 15) == 42 + n && Off(f, 3) == 8 && Off(f, 6) == 14
  {
    hide Le, Concat;
    LocalOffsets(e);
    var f := LocalFields(e);
    assert Off(f, 13) == Off(f, 12) + 2;
    assert Off(f, 14) == Off(f, 13) + 2;
    assert Off(f, 15) == Off(f, 14) + 8;
    assert Off(f, 8) == Off(f, 9) - 4;
    assert Off(f, 7) == Off(f, 8) - 4;
    assert Off(f, 6) == Off(f, 7) - 4;
    assert Off(f, 5) == Off(f, 6) - 2;
    assert Off(f, 4) == Off(f, 5) - 2;
    assert Off(f, 3) == Off(f, 4) - 2;
  }

  /** The file is stored, and its checksum is written down. */
  lemma LocalCrc(s: Bytes, p: nat, e: Entry)
    requires At(s, p, LocalHeader(e))
    ensures p + 18 <= |s| && Read(s, p + 8, 2) == 0 && Read(s, p + 14, 4) == e.crc % 0x1_0000_0000
  {
    var f := LocalFields(e);
    TailOffsets(e);
    LocalOffsets(e);
    Powers();
    hide Le, Concat, Off, Read, At, Pow256;
    AtRange(s, p, LocalHeader(e));
    FieldRead(s, p, f, 3, 8, 0, 2);
    FieldAt(s, p, f, 6);
    ReadLe(s, p + 14, e.crc, 4);
  }
}
