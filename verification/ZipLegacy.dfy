/** Archives written by other programs: the legacy end record, and directory entries with 32-bit fields or with just
    those zip64 fields they need (PKWARE APPNOTE, sections 4.3.12, 4.3.16 and 4.5.3). */
module ZipLegacy {
  import opened ByteSeq
  import opened ZipFormat
  import opened ZipSearch
  import opened ZipDirectory
  import opened ZipReader

  // ----- the legacy end record -----

  lemma LegacyOffsets(cnt: nat, size: nat, offset: nat)
    ensures var h := LegacyFields(cnt, size, offset);
      && Off(h, 3) == 8 && Off(h, 4) == 10 && Off(h, 5) == 12 && Off(h, 6) == 16 && |Concat(h)| == 22
  {
    hide Le, Concat;
    var h := LegacyFields(cnt, size, offset);
    assert Off(h, 1) == 4;
    assert Off(h, 2) == 6;
    assert Off(h, 3) == 8;
    assert Off(h, 4) == 10;
    assert Off(h, 5) == 12;
    assert Off(h, 6) == 16;
    assert Off(h, 7) == 20;
    assert Off(h, 8) == 22;
    ConcatLength(h);
  }

  /** The record, field by field. */
  lemma LegacyRecordReads(s: Bytes, p: nat, cnt: nat, size: nat, offset: nat)
    requires At(s, p, Concat(LegacyFields(cnt, size, offset))) && cnt <= MAX16 && size <= FULL32 && offset <= FULL32
    ensures p + 22 <= |s| && Read(s, p, 4) == CDIR_MAGIC && Read(s, p + 8, 2) == cnt && Read(s, p + 10, 2) == cnt
    ensures Read(s, p + 12, 4) == size && Read(s, p + 16, 4) == offset
  {
    var h := LegacyFields(cnt, size, offset);
    LegacyOffsets(cnt, size, offset);
    Powers();
    hide Le, Concat, Off, Read, At, Pow256;
    AtRange(s, p, Concat(h));
    OffZero(h);
    FieldRead(s, p, h, 0, 0, CDIR_MAGIC, 4);
    FieldRead(s, p, h, 3, 8, cnt, 2);
    FieldRead(s, p, h, 4, 10, cnt, 2);
    FieldRead(s, p, h, 5, 12, size, 4);
    FieldRead(s, p, h, 6, 16, offset, 4);
  }

  /** Two bytes into a magic number none can start. */
  lemma MagicAlone(s: Bytes, p: nat)
    requires p + 6 <= |s| && Read(s, p, 4) == CDIR_MAGIC
    ensures NoMagic(s, p + 1) && NoMagic(s, p + 2)
  {
    hide Read;
    Bytes4(s, p);
  }

  /** The record as the search sees it, at the end of its buffer. */
  lemma LegacyMoves(file: Bytes, buf: Bytes, l: nat, m: nat, cnt: nat, size: nat, offset: nat)
    requires m + 22 <= |file| && l + 22 <= |buf| && buf[l..l + 22] == file[m..m + 22]
    requires At(file, m, Concat(LegacyFields(cnt, size, offset)))
    requires 0 < cnt <= MAX16 && size <= INT_MAX && offset < FULL32
    ensures GoodEnd(buf, l + 22, l) && Read(buf, l, 4) == CDIR_MAGIC
    ensures Read(buf, l + 10, 2) == cnt && Read(buf, l + 12, 4) == size && Read(buf, l + 16, 4) == offset
  {
    LegacyRecordReads(file, m, cnt, size, offset);
    hide Read, At, Concat, LegacyFields;
    Moved(buf, l, file, m, 22, 0, 4);
    Moved(buf, l, file, m, 22, 8, 2);
    Moved(buf, l, file, m, 22, 10, 2);
    Moved(buf, l, file, m, 22, 12, 4);
    Moved(buf, l, file, m, 22, 16, 4);
  }

  /** In a file that ends with a legacy record the search returns what the record says: the number of entries, the
      directory's offset and its size. */
  lemma FindsLegacy(file: Bytes, junk: Bytes, cnt: nat, size: nat, offset: nat)
    requires |junk| == BUFFER && |file| >= 22 && At(file, |file| - 22, Concat(LegacyFields(cnt, size, offset)))
    requires 0 < cnt <= MAX16 && size <= INT_MAX && offset < FULL32
    ensures Locate(file, junk) == Directory(cnt, offset, size)
  {
    var buf, amt := Filled(file, junk), TailSize(file);
    assert Locate(file, junk) == Search(file, buf, amt, amt as int - 20);
    assert amt >= 22;
    var l: nat := amt - 22;
    hide *;
    TailIs(file, junk, 22);
    LegacyMoves(file, buf, l, |file| - 22, cnt, size, offset);
    MagicAlone(buf, l);
    SkipPlain(file, buf, amt, l + 2);
    SkipPlain(file, buf, amt, l + 1);
    LegacyStops(file, buf, amt, l);
  }

  lemma TailIs(file: Bytes, junk: Bytes, n: nat)
    requires |junk| == BUFFER && n <= TailSize(file)
    ensures TailSize(file) <= BUFFER && n <= |file|
    ensures Filled(file, junk)[TailSize(file) - n..TailSize(file)] == file[|file| - n..|file|]
  {
  }

  lemma LegacyStops(file: Bytes, buf: Bytes, amt: nat, i: nat)
    requires |buf| == BUFFER && i + 22 <= amt <= BUFFER && GoodEnd(buf, amt, i)
    ensures Search(file, buf, amt, i) == Directory(Read(buf, i + 10, 2), Read(buf, i + 16, 4), Read(buf, i + 12, 4))
  {
    hide Read;
  }

  // ----- directory entries -----

  /** An extra field that is not the zip64 one. */
  datatype Extra = Extra(id: nat, data: Bytes)

  function ExtraBytes(x: Extra): Bytes {
    Le(x.id, 2) + Le(|x.data|, 2) + x.data
  }

  function Others(xs: seq<Extra>): Bytes {
    if xs == [] then [] else ExtraBytes(xs[0]) + Others(xs[1..])
  }

  /** What a directory entry says. A size or offset that is `wide` is in the zip64 field, in its place among those that
      are; `made`, `stamp` and `disk` are fields nobody reads. */
  datatype Listed = Listed(name: Bytes, compression: nat, whole: nat, size: nat, offset: nat,
                           wideWhole: bool, wideSize: bool, wideOffset: bool,
                           others: seq<Extra>, rest: Bytes, comment: Bytes, made: Bytes, stamp: Bytes, disk: Bytes)

  function Narrow(v: nat, wide: bool): nat {
    if wide then FULL32 else v
  }

  function Wides(l: Listed): Bytes {
    (if l.wideWhole then Le(l.whole, 8) else []) + (if l.wideSize then Le(l.size, 8) else [])
    + if l.wideOffset then Le(l.offset, 8) else []
  }

  function Zip64Field(l: Listed): Bytes {
    if l.wideWhole || l.wideSize || l.wideOffset then Le(1, 2) + Le(|Wides(l)|, 2) + Wides(l) else []
  }

  function ExtraOf(l: Listed): Bytes {
    Others(l.others) + Zip64Field(l) + l.rest
  }

  function ListedFields(l: Listed): seq<Bytes> {
    [Le(CFILE_MAGIC, 4), l.made, Le(l.compression, 2), l.stamp, Le(Narrow(l.size, l.wideSize), 4),
     Le(Narrow(l.whole, l.wideWhole), 4), Le(|l.name|, 2), Le(|ExtraOf(l)|, 2), Le(|l.comment|, 2), l.disk,
     Le(Narrow(l.offset, l.wideOffset), 4), l.name, ExtraOf(l), l.comment]
  }

  function ListedBytes(l: Listed): Bytes { Concat(ListedFields(l)) }

  predicate Carries(v: nat, wide: bool) {
    if wide then v < 0x8000_0000_0000_0000 else v < FULL32
  }

  /** What the format can carry. */
  predicate ListedFits(l: Listed) {
    && |l.name| <= MAX16 && |l.comment| <= MAX16 && |ExtraOf(l)| <= MAX16 && l.compression <= MAX16
    && |l.made| == 6 && |l.stamp| == 8 && |l.disk| == 8
    && Carries(l.whole, l.wideWhole) && Carries(l.size, l.wideSize) && Carries(l.offset, l.wideOffset)
    && forall x :: x in l.others ==> x.id <= MAX16 && x.id != 1 && |x.data| <= MAX16
  }

  lemma ListedOffsets(l: Listed)
    requires ListedFits(l)
    ensures var f, n, x := ListedFields(l), |l.name|, |ExtraOf(l)|;
      && Off(f, 2) == 10 && Off(f, 4) == 20 && Off(f, 5) == 24 && Off(f, 6) == 28 && Off(f, 7) == 30
      && Off(f, 8) == 32 && Off(f, 10) == 42 && Off(f, 11) == 46 && Off(f, 12) == 46 + n
      && |ListedBytes(l)| == 46 + n + x + |l.comment|
  {
    hide Le, Concat, ExtraOf;
    var f, n, x := ListedFields(l), |l.name|, |ExtraOf(l)|;
    assert Off(f, 1) == 4;
    assert Off(f, 2) == 10;
    assert Off(f, 3) == 12;
    assert Off(f, 4) == 20;
    assert Off(f, 5) == 24;
    assert Off(f, 6) == 28;
    assert Off(f, 7) == 30;
    assert Off(f, 8) == 32;
    assert Off(f, 9) == 34;
    assert Off(f, 10) == 42;
    assert Off(f, 11) == 46;
    assert Off(f, 12) == 46 + n;
    assert Off(f, 13) == 46 + n + x;
    assert Off(f, 14) == 46 + n + x + |l.comment|;
    ConcatLength(f);
  }

  /** The numbers of an entry. */
  lemma ListedNumbers(s: Bytes, p: nat, l: Listed)
    requires At(s, p, ListedBytes(l)) && ListedFits(l) && p + 46 <= |s|
    ensures Read(s, p, 4) == CFILE_MAGIC && Read(s, p + 10, 2) == l.compression
    ensures Read(s, p + 20, 4) == Narrow(l.size, l.wideSize) && Read(s, p + 24, 4) == Narrow(l.whole, l.wideWhole)
    ensures Read(s, p + 42, 4) == Narrow(l.offset, l.wideOffset)
  {
    var f := ListedFields(l);
    hide *;
    ListedOffsets(l);
    FieldsAre(l);
    OffZero(f);
    FieldRead(s, p, f, 0, 0, CFILE_MAGIC, 4);
    FieldRead(s, p, f, 2, 10, l.compression, 2);
    FieldRead(s, p, f, 4, 20, Narrow(l.size, l.wideSize), 4);
    FieldRead(s, p, f, 5, 24, Narrow(l.whole, l.wideWhole), 4);
    FieldRead(s, p, f, 10, 42, Narrow(l.offset, l.wideOffset), 4);
  }

  /** Its lengths. */
  lemma ListedLengths(s: Bytes, p: nat, l: Listed)
    requires At(s, p, ListedBytes(l)) && ListedFits(l) && p + 46 <= |s|
    ensures Read(s, p + 28, 2) == |l.name| && Read(s, p + 30, 2) == |ExtraOf(l)| && Read(s, p + 32, 2) == |l.comment|
  {
    var f := ListedFields(l);
    hide *;
    ListedOffsets(l);
    FieldsAre(l);
    FieldRead(s, p, f, 6, 28, |l.name|, 2);
    FieldRead(s, p, f, 7, 30, |ExtraOf(l)|, 2);
    FieldRead(s, p, f, 8, 32, |l.comment|, 2);
  }

  lemma FieldsAre(l: Listed)
    requires ListedFits(l)
    ensures var f := ListedFields(l);
      && ListedBytes(l) == Concat(f) && |f| == 14
      && f[0] == Le(CFILE_MAGIC, 4) && f[2] == Le(l.compression, 2)
      && f[4] == Le(Narrow(l.size, l.wideSize), 4) && f[5] == Le(Narrow(l.whole, l.wideWhole), 4)
      && f[6] == Le(|l.name|, 2) && f[7] == Le(|ExtraOf(l)|, 2) && f[8] == Le(|l.comment|, 2)
      && f[10] == Le(Narrow(l.offset, l.wideOffset), 4) && f[11] == l.name && f[12] == ExtraOf(l)
    ensures l.compression <= MAX16 && |l.name| <= MAX16 && |ExtraOf(l)| <= MAX16 && |l.comment| <= MAX16
    ensures Narrow(l.size, l.wideSize) <= FULL32 && Narrow(l.whole, l.wideWhole) <= FULL32
    ensures Narrow(l.offset, l.wideOffset) <= FULL32
    ensures MAX16 < Pow256(2) && FULL32 < Pow256(4) && CFILE_MAGIC < Pow256(4)
  {
    Powers();
    hide Le, Concat, ExtraOf;
  }

  /** The fixed fields of an entry, and where the others stand. */
  lemma ListedReads(s: Bytes, p: nat, l: Listed)
    requires At(s, p, ListedBytes(l)) && ListedFits(l)
    ensures p + 46 + |l.name| + |ExtraOf(l)| + |l.comment| <= |s|
    ensures Read(s, p, 4) == CFILE_MAGIC && Read(s, p + 10, 2) == l.compression
    ensures Read(s, p + 20, 4) == Narrow(l.size, l.wideSize) && Read(s, p + 24, 4) == Narrow(l.whole, l.wideWhole)
    ensures Read(s, p + 42, 4) == Narrow(l.offset, l.wideOffset)
    ensures Read(s, p + 28, 2) == |l.name| && Read(s, p + 30, 2) == |ExtraOf(l)| && Read(s, p + 32, 2) == |l.comment|
    ensures At(s, p + 46, l.name) && At(s, p + 46 + |l.name|, ExtraOf(l))
  {
    var f := ListedFields(l);
    hide *;
    ListedOffsets(l);
    FieldsAre(l);
    AtRange(s, p, ListedBytes(l));
    ListedNumbers(s, p, l);
    ListedLengths(s, p, l);
    FieldAt(s, p, f, 11);
    FieldAt(s, p, f, 12);
  }

  // ----- the zip64 field among the extra fields -----

  lemma ExtraReads(s: Bytes, q: nat, id: nat, data: Bytes)
    requires At(s, q, Le(id, 2) + Le(|data|, 2) + data) && id <= MAX16 && |data| <= MAX16
    ensures q + 4 + |data| <= |s| && Read(s, q, 2) == id && Read(s, q + 2, 2) == |data| && At(s, q + 4, data)
  {
    Powers();
    hide Le, Read, At, Pow256;
    AtRange(s, q, Le(id, 2) + Le(|data|, 2) + data);
    AtSplit(s, q, Le(id, 2) + Le(|data|, 2), data);
    AtSplit(s, q, Le(id, 2), Le(|data|, 2));
    ReadSmall(s, q, id, 2);
    ReadSmall(s, q + 2, |data|, 2);
  }

  /** Other fields are passed over. */
  lemma {:induction false} SkipsOthers(s: Bytes, q: nat, pe: nat, skip: nat, xs: seq<Extra>)
    requires At(s, q, Others(xs)) && q + |Others(xs)| <= pe <= |s|
    requires forall x :: x in xs ==> x.id <= MAX16 && x.id != 1 && |x.data| <= MAX16
    ensures Zip64From(s, q, pe, skip) == Zip64From(s, q + |Others(xs)|, pe, skip)
    decreases |xs|
  {
    if xs != [] {
      var x := xs[0];
      assert x in xs;
      hide Le, Read, At;
      AtSplit(s, q, ExtraBytes(x), Others(xs[1..]));
      ExtraReads(s, q, x.id, x.data);
      SkipsOthers(s, q + |ExtraBytes(x)|, pe, skip, xs[1..]);
    }
  }

  /** The number `skip` bytes into the zip64 field is the one that is returned. */
  lemma ReadsWide(s: Bytes, q: nat, pe: nat, skip: nat, data: Bytes, v: nat)
    requires At(s, q, Le(1, 2) + Le(|data|, 2) + data) && |data| <= MAX16 && q + 4 + |data| <= pe <= |s|
    requires skip + 8 <= |data| && data[skip..skip + 8] == Le(v, 8) && v < 0x8000_0000_0000_0000
    ensures Zip64From(s, q, pe, skip) == v
  {
    hide *;
    Powers();
    ExtraReads(s, q, 1, data);
    AtPart(s, q + 4, data, skip, 8);
    ReadSmall(s, q + 4 + skip, v, 8);
    Zip64Here(s, q, pe, skip, |data|, v);
  }

  lemma Zip64Here(s: Bytes, q: nat, pe: nat, skip: nat, size: nat, v: nat)
    requires q + 4 + size <= pe <= |s| && skip + 8 <= size && v < 0x8000_0000_0000_0000
    requires Read(s, q, 2) == 1 && Read(s, q + 2, 2) == size && Read(s, q + 4 + skip, 8) == v
    ensures Zip64From(s, q, pe, skip) == v
  {
    hide Read;
  }

  lemma AtPart(s: Bytes, p: nat, t: Bytes, k: nat, n: nat)
    requires At(s, p, t) && k + n <= |t|
    ensures At(s, p + k, t[k..k + n])
  {
  }

  /** Each wide number stands behind the wide ones before it. */
  lemma WidesAre(l: Listed)
    ensures var a, b := if l.wideWhole then 8 else 0, (if l.wideWhole then 8 else 0) + if l.wideSize then 8 else 0;
      && (l.wideSize ==> a + 8 <= |Wides(l)| && Wides(l)[a..a + 8] == Le(l.size, 8))
      && (l.wideOffset ==> b + 8 <= |Wides(l)| && Wides(l)[b..b + 8] == Le(l.offset, 8))
      && |Wides(l)| <= 24
  {
    hide Le;
  }

  lemma ExtraParts(l: Listed)
    requires ListedFits(l) && (l.wideWhole || l.wideSize || l.wideOffset)
    ensures ExtraOf(l) == Others(l.others) + Zip64Field(l) + l.rest
    ensures Zip64Field(l) == Le(1, 2) + Le(|Wides(l)|, 2) + Wides(l) && |Zip64Field(l)| == 4 + |Wides(l)|
    ensures forall x :: x in l.others ==> x.id <= MAX16 && x.id != 1 && |x.data| <= MAX16
    ensures |ExtraOf(l)| == |Others(l.others)| + |Zip64Field(l)| + |l.rest| <= MAX16
  {
    hide Le, Others, Wides;
  }

  /** The loop over the extra fields finds a wide number. */
  lemma FindsWide(s: Bytes, q: nat, l: Listed, skip: nat, v: nat)
    requires ListedFits(l) && At(s, q, ExtraOf(l)) && q + |ExtraOf(l)| <= |s| && v < 0x8000_0000_0000_0000
    requires l.wideWhole || l.wideSize || l.wideOffset
    requires skip + 8 <= |Wides(l)| <= 24 && Wides(l)[skip..skip + 8] == Le(v, 8)
    ensures Zip64From(s, q, q + |ExtraOf(l)|, skip) == v
  {
    var pe, z := q + |ExtraOf(l)|, q + |Others(l.others)|;
    hide *;
    ExtraParts(l);
    AtSplit(s, q, Others(l.others) + Zip64Field(l), l.rest);
    AtSplit(s, q, Others(l.others), Zip64Field(l));
    SkipsOthers(s, q, pe, skip, l.others);
    ReadsWide(s, z, pe, skip, Wides(l), v);
  }

  lemma SizeUnfolds(s: Bytes, z: nat)
    requires CfileInside(s, z)
    ensures ExtraStart(s, z) == z + 46 + Read(s, z + 28, 2) && ExtraStart(s, z) + Read(s, z + 30, 2) <= |s|
    ensures Read(s, z + 20, 4) != FULL32 ==> CompressedSize(s, z) == Read(s, z + 20, 4)
    ensures Read(s, z + 20, 4) == FULL32 ==>
      CompressedSize(s, z) == Zip64From(s, ExtraStart(s, z), ExtraStart(s, z) + Read(s, z + 30, 2),
                                        if Read(s, z + 24, 4) == FULL32 then 8 else 0)
    ensures Read(s, z + 42, 4) != FULL32 ==> LocalOffset(s, z) == Read(s, z + 42, 4)
    ensures Read(s, z + 42, 4) == FULL32 ==>
      LocalOffset(s, z) == Zip64From(s, ExtraStart(s, z), ExtraStart(s, z) + Read(s, z + 30, 2),
        (if Read(s, z + 24, 4) == FULL32 then 8 else 0) + if Read(s, z + 20, 4) == FULL32 then 8 else 0)
  {
    hide Read, Zip64From;
  }

  /** A number is in the 32-bit field if and only if it is not wide. */
  lemma NarrowIs(l: Listed)
    requires ListedFits(l)
    ensures (Narrow(l.whole, l.wideWhole) == FULL32 <==> l.wideWhole)
    ensures (Narrow(l.size, l.wideSize) == FULL32 <==> l.wideSize)
    ensures !l.wideSize ==> Narrow(l.size, l.wideSize) == l.size
    ensures Narrow(l.offset, l.wideOffset) == FULL32 <==> l.wideOffset
    ensures !l.wideOffset ==> Narrow(l.offset, l.wideOffset) == l.offset
    ensures l.wideSize ==> l.size < 0x8000_0000_0000_0000
    ensures l.wideOffset ==> l.offset < 0x8000_0000_0000_0000
  {
    hide ExtraOf;
  }

  lemma ListedInside(s: Bytes, p: nat, l: Listed)
    requires At(s, p, ListedBytes(l)) && ListedFits(l)
    ensures CfileInside(s, p) && CfileHdrSize(s, p) == |ListedBytes(l)|
  {
    ListedReads(s, p, l);
    ListedOffsets(l);
    hide Read, At, Concat, Off, ExtraOf, ListedFits;
  }

  /** Whatever numbers an entry keeps in 32 bits and whatever it moves to the zip64 field, wherever that field stands
      among the extra fields: the readers give back the size and the offset that were meant. */
  lemma ListedDecodes(s: Bytes, p: nat, l: Listed)
    requires At(s, p, ListedBytes(l)) && ListedFits(l)
    ensures CfileInside(s, p) && CfileHdrSize(s, p) == |ListedBytes(l)| && Read(s, p, 4) == CFILE_MAGIC
    ensures Read(s, p + 10, 2) == l.compression && At(s, p + 46, l.name) && Read(s, p + 28, 2) == |l.name|
    ensures CompressedSize(s, p) == l.size && LocalOffset(s, p) == l.offset
  {
    hide *;
    ListedReads(s, p, l);
    ListedInside(s, p, l);
    WidesAre(l);
    NarrowIs(l);
    SizeUnfolds(s, p);
    var q := p + 46 + |l.name|;
    if l.wideSize {
      FindsWide(s, q, l, if l.wideWhole then 8 else 0, l.size);
    }
    if l.wideOffset {
      FindsWide(s, q, l, (if l.wideWhole then 8 else 0) + if l.wideSize then 8 else 0, l.offset);
    }
  }

  lemma ListedIsRecord(l: Listed)
    requires ListedFits(l)
    ensures var r := ListedBytes(l);
      && Record(r) && Name(r) == l.name && CfileInside(r, 0) && Read(r, 10, 2) == l.compression
      && CompressedSize(r, 0) == l.size && LocalOffset(r, 0) == l.offset
  {
    var r := ListedBytes(l);
    assert At(r, 0, r);
    ListedOffsets(l);
    hide Concat, Read, At, Off, ExtraOf;
    ListedDecodes(r, 0, l);
    AtRange(r, 46, l.name);
    AtSlice(r, 46, l.name);
  }

  // ----- opening a file of such an archive -----

  function Directory32(ls: seq<Listed>): (rs: seq<Bytes>)
    ensures |rs| == |ls| && forall k :: 0 <= k < |rs| ==> rs[k] == ListedBytes(ls[k])
  {
    seq(|ls|, k requires 0 <= k < |ls| => ListedBytes(ls[k]))
  }

  /** A file that ends with the directory of these entries and its legacy end record. */
  ghost predicate Archive32(file: Bytes, ls: seq<Listed>, offset: nat) {
    && 0 < |ls| <= MAX16 && (forall l :: l in ls ==> ListedFits(l))
    && var d := Concat(Directory32(ls));
       && |d| <= INT_MAX && offset < FULL32 && |file| == offset + |d| + 22
       && At(file, offset, d) && At(file, offset + |d|, Concat(LegacyFields(|ls|, |d|, offset)))
  }

  lemma Archive32Is(file: Bytes, junk: Bytes, ls: seq<Listed>, offset: nat)
    requires |junk| == BUFFER && Archive32(file, ls, offset)
    ensures Archives(file, junk, Directory32(ls))
  {
    var rs := Directory32(ls);
    var d := Concat(rs);
    forall r | r in rs
      ensures Record(r)
    {
      var k :| 0 <= k < |rs| && rs[k] == r;
      assert ls[k] in ls;
      ListedIsRecord(ls[k]);
    }
    FindsLegacy(file, junk, |ls|, |d|, offset);
    AtSlice(file, offset, d);
    hide Concat, Locate, Record, At;
  }

  /** A local header: the reader looks at the magic number and the two lengths. */
  function LocalBytes(lead: Bytes, name: Bytes, extra: Bytes): Bytes {
    Concat([Le(LFILE_MAGIC, 4), lead, Le(|name|, 2), Le(|extra|, 2), name, extra])
  }

  lemma LocalBytesReads(s: Bytes, p: nat, lead: Bytes, name: Bytes, extra: Bytes)
    requires At(s, p, LocalBytes(lead, name, extra)) && |lead| == 22 && |name| <= MAX16 && |extra| <= MAX16
    ensures |LocalBytes(lead, name, extra)| == 30 + |name| + |extra| && p + 30 <= |s|
    ensures Read(s, p, 4) == LFILE_MAGIC && Read(s, p + 26, 2) == |name| && Read(s, p + 28, 2) == |extra|
  {
    var f := [Le(LFILE_MAGIC, 4), lead, Le(|name|, 2), Le(|extra|, 2), name, extra];
    Powers();
    hide Le, Concat, Read, At, Pow256;
    assert Off(f, 1) == 4;
    assert Off(f, 2) == 26;
    assert Off(f, 3) == 28;
    assert Off(f, 4) == 30;
    assert Off(f, 5) == 30 + |name|;
    assert Off(f, 6) == 30 + |name| + |extra|;
    ConcatLength(f);
    AtRange(s, p, Concat(f));
    OffZero(f);
    FieldRead(s, p, f, 0, 0, LFILE_MAGIC, 4);
    FieldRead(s, p, f, 2, 26, |name|, 2);
    FieldRead(s, p, f, 3, 28, |extra|, 2);
  }

  /** From the entry to the content, if it is stored and not compressed. */
  lemma ListedOpensAt(file: Bytes, l: Listed, lead: Bytes, name: Bytes, extra: Bytes, content: Bytes)
    requires ListedFits(l) && l.size == |content| && |lead| == 22 && |name| <= MAX16 && |extra| <= MAX16
    requires At(file, l.offset, LocalBytes(lead, name, extra) + content)
    ensures CfileInside(ListedBytes(l), 0)
    ensures var p := l.offset + 30 + |name| + |extra|;
      OpenAt(file, ListedBytes(l), 0) == if l.compression == 0 then Opened(p, |content|) else Invalid
    ensures At(file, l.offset + 30 + |name| + |extra|, content)
  {
    hide At, Concat, Read, CompressedSize, LocalOffset, LocalBytes;
    ListedIsRecord(l);
    AtSplit(file, l.offset, LocalBytes(lead, name, extra), content);
    LocalBytesReads(file, l.offset, lead, name, extra);
    var lfile := Pread(file, l.offset, 30);
    assert lfile[0..0 + 30] == file[l.offset..l.offset + 30];
    Moved(lfile, 0, file, l.offset, 30, 0, 4);
    Moved(lfile, 0, file, l.offset, 30, 26, 2);
    Moved(lfile, 0, file, l.offset, 30, 28, 2);
  }

  /** In an archive another program wrote, asked for a name, or for the only file that ends in ".gguf", the reader gives
      exactly the bytes of that file if it is stored, and refuses it if it is compressed. */
  lemma ListedFileOpens(file: Bytes, junk: Bytes, ls: seq<Listed>, offset: nat, want: Wanted, i: nat,
                        lead: Bytes, name: Bytes, extra: Bytes, content: Bytes)
    requires |junk| == BUFFER && Archive32(file, ls, offset) && i < |ls|
    requires forall j :: 0 <= j < |ls| ==> (Hit(want, ls[j].name) <==> j == i)
    requires ls[i].size == |content| && |lead| == 22 && |name| <= MAX16 && |extra| <= MAX16
    requires At(file, ls[i].offset, LocalBytes(lead, name, extra) + content)
    ensures var p, r := ls[i].offset + 30 + |name| + |extra|, OpenZip(file, junk, want);
      if ls[i].compression == 0
      then r == Opened(p, |content|) && p + |content| <= |file| && file[p..p + |content|] == content
      else r == Invalid
  {
    hide *;
    var rs := Directory32(ls);
    var p := ls[i].offset + 30 + |name| + |extra|;
    Archive32Is(file, junk, ls, offset);
    ListedAnswers(file, ls, offset, want, i);
    OpenOfRecords(file, junk, rs, want);
    EntryFitsIn(file, ls, offset, i);
    ListedOpensAt(file, ls[i], lead, name, extra, content);
    AtRange(file, p, content);
    AtSlice(file, p, content);
  }

  lemma ListedAnswers(file: Bytes, ls: seq<Listed>, offset: nat, want: Wanted, i: nat)
    requires Archive32(file, ls, offset) && i < |ls|
    requires forall j :: 0 <= j < |ls| ==> (Hit(want, ls[j].name) <==> j == i)
    ensures var rs := Directory32(ls);
      Records(rs) && Hits(rs, want, |rs|) == 1 && LastRecord(rs, want, |rs|) == ListedBytes(ls[i])
  {
    hide *;
    var rs := Directory32(ls);
    forall j | 0 <= j < |ls|
      ensures Record(rs[j]) && Name(rs[j]) == ls[j].name
    {
      EntryFitsIn(file, ls, offset, j);
      ListedIsRecord(ls[j]);
    }
    AllRecords(rs);
    OnlyRecord(rs, want, i, |rs|);
  }

  lemma AllRecords(rs: seq<Bytes>)
    requires forall j :: 0 <= j < |rs| ==> Record(rs[j])
    ensures Records(rs)
  {
  }

  lemma EntryFitsIn(file: Bytes, ls: seq<Listed>, offset: nat, j: nat)
    requires Archive32(file, ls, offset) && j < |ls|
    ensures ListedFits(ls[j])
  {
    hide ListedFits;
    assert ls[j] in ls;
  }

  // ----- the ending ".gguf" -----

  function Lowered(s: Bytes): (t: Bytes)
    ensures |t| == |s|
  {
    seq(|s|, k requires 0 <= k < |s| => Lower(s[k]))
  }

  /** A name that ends in ".gguf" in any case, with something before it. */
  lemma GgufMeans(name: Bytes)
    ensures Hit(AnyGguf, name)
       <==> exists stem: Bytes, e: Bytes :: stem != [] && name == stem + e && Lowered(e) == [46, 103, 103, 117, 102]
  {
    if Hit(AnyGguf, name) {
      var stem, e := name[..|name| - 5], name[|name| - 5..];
      assert name == stem + e && Lowered(e) == [46, 103, 103, 117, 102];
    }
    if exists stem: Bytes, e: Bytes :: stem != [] && name == stem + e && Lowered(e) == [46, 103, 103, 117, 102] {
      var stem: Bytes, e: Bytes :| stem != [] && name == stem + e && Lowered(e) == [46, 103, 103, 117, 102];
      assert |Lowered(e)| == 5 && name[|name| - 5..] == e;
      assert Lowered(e)[0] == 46 && Lowered(e)[1] == 103 && Lowered(e)[2] == 103 && Lowered(e)[3] == 117;
      assert Lowered(e)[4] == 102;
    }
  }
}
