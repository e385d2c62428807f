/** `llamafile_open_zip`: finding a stored file in an archive (llamafile/llamafile.c:101-214). */
module ZipReader {
  import opened ByteSeq
  import opened ZipFormat
  import opened ZipSearch
  import opened ZipDirectory

  /** Either of the two error exits, or the position and size of the content to be mapped. */
  datatype Outcome = Invalid | Failure | Opened(content: nat, size: int)

  /** From a directory entry to the file's content. */
  function OpenAt(file: Bytes, cdir: Bytes, z: nat): Outcome
    requires CfileInside(cdir, z)
  {
    if Read(cdir, z + 10, 2) != 0 then Invalid
    else
      var off := LocalOffset(cdir, z);
      var lfile := if off < 0 then [] else Pread(file, off, 30);
      if |lfile| != 30 then Failure
      else if Read(lfile, 0, 4) != LFILE_MAGIC then Invalid
      else Opened(off + LfileHdrSize(lfile), CompressedSize(cdir, z))
  }

  /** The hit the walk remembers is an entry of the directory. */
  lemma {:induction false} LastInside(cdir: Bytes, cnt: nat, want: Wanted, idx: nat, o: nat, found: nat, last: nat)
    requires found > 0 ==> CfileInside(cdir, last)
    ensures var w := Lookup(cdir, cnt, want, idx, o, found, last); w.Walked? && w.found > 0 ==>
      CfileInside(cdir, w.last)
    decreases cnt - idx
  {
    hide Read, Hit, CfileHdrSize;
    if idx < cnt && CfileInside(cdir, o) {
      InsideBounds(cdir, o);
      LastInside(cdir, cnt, want, idx + 1, o + CfileHdrSize(cdir, o), found + 1, o);
      LastInside(cdir, cnt, want, idx + 1, o + CfileHdrSize(cdir, o), found, last);
    }
  }

  function OpenZip(file: Bytes, junk: Bytes, want: Wanted): Outcome
    requires |junk| == BUFFER
  {
    var d := Locate(file, junk);
    if d.Missing? || d.cnt == 0 then Invalid
    else
      var cdir := Pread(file, d.off, d.size);
      if |cdir| != d.size then Failure
      else if |cdir| < 4 || Read(cdir, 0, 4) != CFILE_MAGIC then Invalid
      else
        var w := Lookup(cdir, d.cnt, want, 0, 0, 0, 0);
        if w.Corrupt? then Failure
        else if w.found != 1 then Invalid
        else
          LastInside(cdir, d.cnt, want, 0, 0, 0, 0);
          OpenAt(file, cdir, w.last)
  }

  method Open(file: Bytes, buf: array<byte>, want: Wanted) returns (r: Outcome)
    requires buf.Length == BUFFER
    modifies buf
    ensures r == OpenZip(file, old(buf[..]), want)
  {
    hide Read, Hit, Locate, Lookup, CompressedSize, LocalOffset, Zip64From;
    var d := FindDirectory(file, buf);
    if d.Missing? || d.cnt == 0 {
      return Invalid;
    }
    var cdir := Pread(file, d.off, d.size);
    if |cdir| != d.size {
      return Failure;
    }
    if |cdir| < 4 || Read(cdir, 0, 4) != CFILE_MAGIC {
      return Invalid;
    }
    var w := LookUp(cdir, d.cnt, want);
    if w.Corrupt? {
      return Failure;
    }
    if w.found != 1 {
      return Invalid;
    }
    LastInside(cdir, d.cnt, want, 0, 0, 0, 0);
    var z := w.last;
    InsideBounds(cdir, z);
    if Read(cdir, z + 10, 2) != 0 {
      return Invalid;
    }
    var off := GetOffset(cdir, z);
    var size := GetCompressedSize(cdir, z);
    var lfile := if off < 0 then [] else Pread(file, off, 30);
    if |lfile| != 30 {
      return Failure;
    }
    if Read(lfile, 0, 4) != LFILE_MAGIC {
      return Invalid;
    }
    return Opened(off + LfileHdrSize(lfile), size);
  }

  // ----- the outcome depends on the records only -----

  /** The extra-field loop sees the same inside a directory as on a record by itself. */
  lemma {:induction false} Zip64Same(s: Bytes, p: nat, r: Bytes, q: nat, pe: nat, skip: nat)
    requires At(s, p, r) && pe <= |r|
    ensures p + pe <= |s| && Zip64From(s, p + q, p + pe, skip) == Zip64From(r, q, pe, skip)
    decreases pe - q
  {
    hide At, Read;
    AtRange(s, p, r);
    if q + 4 <= pe {
      ReadIn(s, p, r, q + 2, 2);
      var size := Read(r, q + 2, 2);
      if q + 4 + size <= pe {
        ReadIn(s, p, r, q, 2);
        if skip + 8 <= size {
          ReadIn(s, p, r, q + 4 + skip, 8);
        }
        Zip64Same(s, p, r, q + 4 + size, pe, skip);
      }
    }
  }

  /** So does everything read from one entry. */
  lemma EntrySame(s: Bytes, p: nat, r: Bytes)
    requires At(s, p, r) && Record(r)
    ensures CfileInside(s, p) && CfileInside(r, 0)
    ensures CompressedSize(s, p) == CompressedSize(r, 0) && LocalOffset(s, p) == LocalOffset(r, 0)
    ensures Read(s, p + 10, 2) == Read(r, 10, 2)
  {
    hide Read, At, Zip64From;
    RecordIn(s, p, r);
    ReadIn(s, p, r, 10, 2);
    ReadIn(s, p, r, 20, 4);
    ReadIn(s, p, r, 24, 4);
    ReadIn(s, p, r, 28, 2);
    ReadIn(s, p, r, 30, 2);
    ReadIn(s, p, r, 42, 4);
    ExtraInside(r, 0);
    var q, pe := ExtraStart(r, 0), ExtraStart(r, 0) + Read(r, 30, 2);
    Zip64Same(s, p, r, q, pe, 0);
    Zip64Same(s, p, r, q, pe, 8);
    Zip64Same(s, p, r, q, pe, 16);
  }

  lemma OpenAtSame(file: Bytes, s: Bytes, p: nat, r: Bytes)
    requires At(s, p, r) && Record(r)
    ensures CfileInside(s, p) && CfileInside(r, 0) && OpenAt(file, s, p) == OpenAt(file, r, 0)
  {
    hide Read, At, CompressedSize, LocalOffset, CfileInside, LfileHdrSize;
    EntrySame(s, p, r);
  }

  /** The last of the first `k` records that answers to what is wanted. */
  function LastRecord(rs: seq<Bytes>, want: Wanted, k: nat): (r: Bytes)
    requires k <= |rs| && Records(rs) && Hits(rs, want, k) > 0
    ensures Record(r)
  {
    if Hit(want, Name(rs[k - 1])) then rs[k - 1] else LastRecord(rs, want, k - 1)
  }

  lemma NoRecordsNoHits(rs: seq<Bytes>, want: Wanted)
    requires Records(rs) && Hits(rs, want, |rs|) > 0
    ensures rs != []
  {
  }

  lemma {:induction false} LastRecordAt(rs: seq<Bytes>, want: Wanted, k: nat)
    requires k <= |rs| && Records(rs) && Hits(rs, want, k) > 0
    ensures At(Concat(rs), LastHit(rs, want, k), LastRecord(rs, want, k))
  {
    if Hit(want, Name(rs[k - 1])) {
      RecordAt(rs, k - 1);
    } else {
      LastRecordAt(rs, want, k - 1);
    }
  }

  /** A file whose search leads to a directory made of the records `rs`. */
  ghost predicate Archives(file: Bytes, junk: Bytes, rs: seq<Bytes>)
    requires |junk| == BUFFER
  {
    && Records(rs) && rs != []
    && var d := Locate(file, junk);
       d.Directory? && d.cnt == |rs| && Pread(file, d.off, d.size) == Concat(rs) && |Concat(rs)| == d.size
  }

  /** Opening such an archive opens the one record that answers, and nothing when none or several do. */
  lemma OpenOfRecords(file: Bytes, junk: Bytes, rs: seq<Bytes>, want: Wanted)
    requires |junk| == BUFFER && Archives(file, junk, rs)
    ensures Hits(rs, want, |rs|) == 1 ==> CfileInside(LastRecord(rs, want, |rs|), 0)
    ensures OpenZip(file, junk, want)
         == if Hits(rs, want, |rs|) == 1 then OpenAt(file, LastRecord(rs, want, |rs|), 0) else Invalid
  {
    hide Read, At, Hit, Concat, OpenAt, Locate, Lookup, Name, Record;
    LookupCounts(rs, want);
    FirstMagic(rs);
    if Hits(rs, want, |rs|) == 1 {
      LastRecordAt(rs, want, |rs|);
      OpenAtSame(file, Concat(rs), LastHit(rs, want, |rs|), LastRecord(rs, want, |rs|));
    }
  }

  lemma FirstMagic(rs: seq<Bytes>)
    requires Records(rs) && rs != []
    ensures |Concat(rs)| >= 46 && Read(Concat(rs), 0, 4) == CFILE_MAGIC
  {
    hide Read, At, Concat;
    RecordAt(rs, 0);
    RecordIn(Concat(rs), 0, rs[0]);
  }

  /** If just one record answers, it is the one found. */
  lemma {:induction false} OnlyRecord(rs: seq<Bytes>, want: Wanted, i: nat, k: nat)
    requires i < k <= |rs| && Records(rs) && Hit(want, Name(rs[i]))
    requires forall j :: 0 <= j < k && j != i ==> !Hit(want, Name(rs[j]))
    ensures Hits(rs, want, k) == 1 && LastRecord(rs, want, k) == rs[i]
  {
    if k == i + 1 {
      NoHits(rs, want, i);
    } else {
      OnlyRecord(rs, want, i, k - 1);
    }
  }

  /** Records that do not answer may follow, and records that do not answer may be taken out. */
  lemma {:induction false} HitsOfPrefix(rs: seq<Bytes>, want: Wanted, m: nat, k: nat)
    requires m <= k <= |rs| && Records(rs)
    requires forall j :: m <= j < k ==> !Hit(want, Name(rs[j]))
    ensures Hits(rs, want, k) == Hits(rs, want, m)
    ensures Hits(rs, want, m) > 0 ==> LastRecord(rs, want, k) == LastRecord(rs, want, m)
    decreases k
  {
    hide Hit, Name, Record;
    if k > m {
      HitsOfPrefix(rs, want, m, k - 1);
    }
  }

  lemma {:induction false} HitsSame(a: seq<Bytes>, b: seq<Bytes>, want: Wanted, k: nat)
    requires k <= |a| && k <= |b| && Records(a) && Records(b) && a[..k] == b[..k]
    ensures Hits(a, want, k) == Hits(b, want, k)
    ensures Hits(a, want, k) > 0 ==> LastRecord(a, want, k) == LastRecord(b, want, k)
  {
    hide Hit, Name, Record;
    if k > 0 {
      assert a[k - 1] == a[..k][k - 1] == b[..k][k - 1] == b[k - 1];
      assert a[..k - 1] == a[..k][..k - 1] == b[..k][..k - 1] == b[..k - 1];
      HitsSame(a, b, want, k - 1);
    }
  }

  lemma {:induction false} HitsOfKept(rs: seq<Bytes>, names: seq<Bytes>, want: Wanted, k: nat)
    requires k <= |rs| && Records(rs)
    requires forall n :: n in names ==> !Hit(want, n)
    ensures var ks := Kept(rs, names, k);
      && Hits(ks, want, |ks|) == Hits(rs, want, k)
      && (Hits(rs, want, k) > 0 ==> LastRecord(ks, want, |ks|) == LastRecord(rs, want, k))
  {
    hide Hit, Name, Record;
    if k > 0 {
      HitsOfKept(rs, names, want, k - 1);
      var ks := Kept(rs, names, k - 1);
      if Name(rs[k - 1]) !in names {
        assert Kept(rs, names, k) == ks + [rs[k - 1]];
        HitsSame(ks, ks + [rs[k - 1]], want, |ks|);
      } else {
        assert Kept(rs, names, k) == ks;
      }
    }
  }
}
