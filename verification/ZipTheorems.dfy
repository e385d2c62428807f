/** What `zipalign` promises, against what `llamafile_open_zip` finds. */
module ZipTheorems {
  import opened ByteSeq
  import opened ZipFormat
  import opened ZipSearch
  import opened ZipDirectory
  import opened ZipReader
  import opened ZipWriter

  // ----- where the added files go -----

  /** The offset of the local header of file `k`. */
  function Place(a: Archive, fs: seq<Input>, alignment: nat, k: nat): nat
    requires |a.file| <= a.zsize && alignment > 0 && k < |fs|
  {
    Aligned(AddedAll(a, fs, alignment, k).zsize, 50 + |fs[k].name|, alignment)
  }

  function EntryAt(a: Archive, fs: seq<Input>, alignment: nat, k: nat): Entry
    requires |a.file| <= a.zsize && alignment > 0 && k < |fs|
  {
    EntryOf(fs[k], Place(a, fs, alignment, k))
  }

  /** The local record of file `k`: its header and its content. */
  function Local(a: Archive, fs: seq<Input>, alignment: nat, k: nat): (r: Bytes)
    requires |a.file| <= a.zsize && alignment > 0 && k < |fs|
    ensures |r| == 50 + |fs[k].name| + |fs[k].content|
  {
    LocalOffsets(EntryAt(a, fs, alignment, k));
    LocalHeader(EntryAt(a, fs, alignment, k)) + fs[k].content
  }

  lemma NoneAdded(a: Archive, fs: seq<Input>, alignment: nat)
    requires |a.file| <= a.zsize && alignment > 0
    ensures AddedAll(a, fs, alignment, 0) == a
  {
  }

  /** Where the content of file `k` starts. */
  function ContentPlace(a: Archive, fs: seq<Input>, alignment: nat, k: nat): nat
    requires |a.file| <= a.zsize && alignment > 0 && k < |fs|
  {
    Place(a, fs, alignment, k) + 50 + |fs[k].name|
  }

  lemma ContentIsAligned(a: Archive, fs: seq<Input>, alignment: nat, k: nat)
    requires |a.file| <= a.zsize && alignment > 0 && k < |fs|
    ensures ContentPlace(a, fs, alignment, k) % alignment == 0
  {
    hide AddedAll;
  }

  lemma LocalIs(a: Archive, fs: seq<Input>, alignment: nat, k: nat)
    requires |a.file| <= a.zsize && alignment > 0 && k < |fs|
    ensures var e := EntryAt(a, fs, alignment, k);
      && Local(a, fs, alignment, k) == LocalHeader(e) + e.content && e.offset == Place(a, fs, alignment, k)
      && e.content == fs[k].content
      && e.offset + 50 + |e.name| == ContentPlace(a, fs, alignment, k)
  {
    hide LocalHeader, Place;
  }

  /** The directory entries of the first `n` files. */
  function Headers(a: Archive, fs: seq<Input>, alignment: nat, n: nat): (hs: seq<Bytes>)
    requires |a.file| <= a.zsize && alignment > 0 && n <= |fs|
    ensures |hs| == n
  {
    if n == 0 then [] else Headers(a, fs, alignment, n - 1) + [CentralHeader(EntryAt(a, fs, alignment, n - 1))]
  }

  lemma {:induction false} HeaderAt(a: Archive, fs: seq<Input>, alignment: nat, n: nat, k: nat)
    requires |a.file| <= a.zsize && alignment > 0 && k < n <= |fs|
    ensures Headers(a, fs, alignment, n)[k] == CentralHeader(EntryAt(a, fs, alignment, k))
  {
    hide CentralHeader, EntryAt;
    if k < n - 1 {
      HeaderAt(a, fs, alignment, n - 1, k);
    }
  }

  lemma {:induction false} DirectoryGrows(a: Archive, fs: seq<Input>, alignment: nat, n: nat)
    requires |a.file| <= a.zsize && alignment > 0 && n <= |fs|
    ensures var b := AddedAll(a, fs, alignment, n);
      b.cdir == a.cdir + Concat(Headers(a, fs, alignment, n)) && b.cnt == a.cnt + n
  {
    hide CentralHeader, Aligned, LocalHeader;
    if n > 0 {
      DirectoryGrows(a, fs, alignment, n - 1);
      ConcatSnoc(Headers(a, fs, alignment, n - 1), CentralHeader(EntryAt(a, fs, alignment, n - 1)));
    }
  }

  /** Adding a file appends to the output file: nothing already there changes. */
  lemma {:induction false} Appends(a: Archive, fs: seq<Input>, alignment: nat, m: nat, n: nat)
    requires |a.file| <= a.zsize && alignment > 0 && m <= n <= |fs|
    ensures var b, c := AddedAll(a, fs, alignment, m), AddedAll(a, fs, alignment, n);
      |b.file| <= |c.file| && c.file[..|b.file|] == b.file && b.zsize <= c.zsize
    decreases n
  {
    hide CentralHeader, Aligned, LocalHeader, Concat;
    if m < n {
      Appends(a, fs, alignment, m, n - 1);
      var d := AddedAll(a, fs, alignment, n - 1);
      PrefixOfSum(d.file, AddedAll(a, fs, alignment, n).file, AddedAll(a, fs, alignment, m).file);
    }
  }

  lemma PrefixOfSum(d: Bytes, e: Bytes, b: Bytes)
    requires |b| <= |d| <= |e| && d[..|b|] == b && e[..|d|] == d
    ensures e[..|b|] == b
  {
    assert e[..|b|] == e[..|d|][..|b|];
  }

  lemma OneAdded(a: Archive, fs: seq<Input>, alignment: nat, k: nat)
    requires |a.file| <= a.zsize && alignment > 0 && k < |fs|
    ensures var p, r, b, c := Place(a, fs, alignment, k), Local(a, fs, alignment, k),
          AddedAll(a, fs, alignment, k), AddedAll(a, fs, alignment, k + 1);
      && b.zsize <= p && Multiple(p + 50 + |fs[k].name|, alignment)
      && c.file == b.file + Zeros(p - |b.file|) + r && c.zsize == p + |r| + 24
  {
    hide Aligned, Concat, Le, LocalHeader, CentralHeader;
    var b, c, p := AddedAll(a, fs, alignment, k), AddedAll(a, fs, alignment, k + 1), Place(a, fs, alignment, k);
    var h := LocalHeader(EntryAt(a, fs, alignment, k));
    assert c.file == b.file + Zeros(p - |b.file|) + h + fs[k].content;
    assert b.file + Zeros(p - |b.file|) + h + fs[k].content == b.file + Zeros(p - |b.file|) + (h + fs[k].content);
  }

  /** Every local record stands at its place, above what was there before and below what comes after. */
  lemma LocalStands(a: Archive, fs: seq<Input>, alignment: nat, k: nat, n: nat)
    requires |a.file| <= a.zsize && alignment > 0 && k < n <= |fs|
    ensures var p, r, b := Place(a, fs, alignment, k), Local(a, fs, alignment, k), AddedAll(a, fs, alignment, n);
      && AddedAll(a, fs, alignment, k).zsize <= p
      && p + |r| + 24 <= b.zsize && p + |r| <= |b.file| && At(b.file, p, r)
      && Multiple(p + 50 + |fs[k].name|, alignment)
  {
    hide AddedAll, Place, Local;
    var p, r := Place(a, fs, alignment, k), Local(a, fs, alignment, k);
    OneAdded(a, fs, alignment, k);
    Appends(a, fs, alignment, k + 1, n);
    StandsInPrefix(AddedAll(a, fs, alignment, k + 1).file, AddedAll(a, fs, alignment, n).file, p, r);
  }

  /** The local records of different files do not overlap, and come in the order the files were given. */
  lemma LocalsAreDisjoint(a: Archive, fs: seq<Input>, alignment: nat, i: nat, j: nat)
    requires |a.file| <= a.zsize && alignment > 0 && i < j < |fs|
    ensures Place(a, fs, alignment, i) + |Local(a, fs, alignment, i)| <= Place(a, fs, alignment, j)
    ensures a.zsize <= Place(a, fs, alignment, i)
    ensures Place(a, fs, alignment, j) + |Local(a, fs, alignment, j)| <= AddedAll(a, fs, alignment, |fs|).zsize
  {
    hide AddedAll, Place, Local, At;
    LocalStands(a, fs, alignment, i, i + 1);
    LocalStands(a, fs, alignment, j, |fs|);
    Appends(a, fs, alignment, i + 1, j);
    Appends(a, fs, alignment, 0, i);
    NoneAdded(a, fs, alignment);
  }

  // ----- the new archive -----

  /** What the program starts from: a file without a directory, or one whose directory is made of the records `rs`. */
  ghost predicate Starts(file: Bytes, junk: Bytes, rs: seq<Bytes>)
    requires |junk| == BUFFER
  {
    if rs == [] then Locate(file, junk).Missing? || Locate(file, junk).cnt == 0 else Archives(file, junk, rs)
  }

  /** The state when the files are to be added: the directory holds the records that stay. */
  function Before(file: Bytes, rs: seq<Bytes>, names: seq<Bytes>): (a: Archive)
    requires Records(rs)
    ensures |a.file| == a.zsize
  {
    Archive(file, |file|, Concat(Kept(rs, names, |rs|)), |Kept(rs, names, |rs|)|)
  }

  function Last(file: Bytes, rs: seq<Bytes>, fs: seq<Input>, alignment: nat): (a: Archive)
    requires Records(rs) && alignment > 0
    ensures |a.file| <= a.zsize
  {
    AddedAll(Before(file, rs, Names(fs)), fs, alignment, |fs|)
  }

  lemma LastIs(file: Bytes, rs: seq<Bytes>, fs: seq<Input>, alignment: nat)
    requires Records(rs) && alignment > 0
    ensures Last(file, rs, fs, alignment) == AddedAll(Before(file, rs, Names(fs)), fs, alignment, |fs|)
  {
  }

  /** The records of the new directory: those that stay, then one per added file. */
  function NewRecords(file: Bytes, rs: seq<Bytes>, fs: seq<Input>, alignment: nat): seq<Bytes>
    requires Records(rs) && alignment > 0
  {
    Kept(rs, Names(fs), |rs|) + Headers(Before(file, rs, Names(fs)), fs, alignment, |fs|)
  }

  /** When the compaction is sound and no name is given twice, the program writes this file. */
  lemma ZippedIs(file: Bytes, junk: Bytes, rs: seq<Bytes>, fs: seq<Input>, alignment: nat)
    requires |junk| == BUFFER && alignment > 0 && Records(rs) && Starts(file, junk, rs)
    requires Steady(rs, Names(fs)) && Distinct(Names(fs))
    ensures Zipped(file, junk, fs, alignment) == Wrote(Finished(Last(file, rs, fs, alignment)))
  {
    hide Locate, AddedAll, Names, Distinct, Record, Steady, Compact;
    CompactIsFilter(rs, Names(fs));
    if rs == [] {
      assert Concat(rs) == [];
      NothingToCompact(Names(fs));
    }
  }

  lemma NothingToCompact(names: seq<Bytes>)
    ensures Compact(Start([]), 0, names) == Compacted([], 0, 0)
  {
  }

  lemma {:induction false} RecordsAreLong(rs: seq<Bytes>)
    requires Records(rs)
    ensures 46 * |rs| <= |Concat(rs)|
  {
    if rs != [] {
      RecordsAreLong(rs[..|rs| - 1]);
      assert Record(rs[|rs| - 1]);
    }
  }

  /** A directory entry zipalign writes is a record of its own. */
  lemma HeaderIsRecord(e: Entry)
    requires EntryFits(e)
    ensures var r := CentralHeader(e);
      && Record(r) && Name(r) == e.name && CfileInside(r, 0) && Read(r, 10, 2) == 0
      && CompressedSize(r, 0) == |e.content| && LocalOffset(r, 0) == e.offset
  {
    var r := CentralHeader(e);
    assert At(r, 0, r);
    hide Concat, Read, At;
    CentralDecodes(r, 0, e);
    CentralReads(r, 0, e);
    AtSlice(r, 46, e.name);
  }

  /** The sizes the formats can carry: names of at most 65535 bytes, a directory of at most 2^31 - 1, an archive of
      at most 2^42. */
  ghost predicate WithinLimits(a: Archive, fs: seq<Input>)
    requires |a.file| <= a.zsize
  {
    && (forall f :: f in fs ==> |f.name| <= MAX16)
    && |a.cdir| <= INT_MAX
    && |Finished(a)| <= 0x400_0000_0000
  }

  lemma FinishedSize(a: Archive)
    requires |a.file| <= a.zsize
    ensures |Finished(a)| == a.zsize + |a.cdir| + 98
    ensures Finished(a)[..|a.file|] == a.file && Finished(a)[a.zsize..a.zsize + |a.cdir|] == a.cdir
    ensures At(Finished(a), a.zsize + |a.cdir|, EndRecords(a.cnt, |a.cdir|, a.zsize))
  {
    hide EndRecords;
    EndSize(a.cnt, |a.cdir|, a.zsize);
  }

  /** Every file's entry fits, when the archive is within its limits. */
  lemma FitsWithin(a: Archive, fs: seq<Input>, alignment: nat, k: nat)
    requires |a.file| <= a.zsize && alignment > 0 && k < |fs| && WithinLimits(AddedAll(a, fs, alignment, |fs|), fs)
    ensures EntryFits(EntryAt(a, fs, alignment, k))
  {
    hide AddedAll, Place, Local, At, Finished;
    FinishedSize(AddedAll(a, fs, alignment, |fs|));
    LocalStands(a, fs, alignment, k, |fs|);
    assert fs[k] in fs;
  }

  lemma NewRecordsAreRecords(file: Bytes, rs: seq<Bytes>, fs: seq<Input>, alignment: nat)
    requires Records(rs) && alignment > 0 && WithinLimits(Last(file, rs, fs, alignment), fs)
    ensures Records(NewRecords(file, rs, fs, alignment))
    ensures Concat(NewRecords(file, rs, fs, alignment)) == Last(file, rs, fs, alignment).cdir
    ensures |NewRecords(file, rs, fs, alignment)| == Last(file, rs, fs, alignment).cnt
  {
    hide AddedAll, Place, CentralHeader, Record, Concat, WithinLimits;
    var a := Before(file, rs, Names(fs));
    var hs := Headers(a, fs, alignment, |fs|);
    forall k | 0 <= k < |fs|
      ensures Record(hs[k])
    {
      HeaderAt(a, fs, alignment, |fs|, k);
      FitsWithin(a, fs, alignment, k);
      HeaderIsRecord(EntryAt(a, fs, alignment, k));
    }
    DirectoryGrows(a, fs, alignment, |fs|);
    ConcatAppend(Kept(rs, Names(fs), |rs|), hs);
  }

  /** The search, run on the new archive, leads to exactly the new records. */
  lemma NewArchive(file: Bytes, rs: seq<Bytes>, fs: seq<Input>, alignment: nat, junk: Bytes)
    requires |junk| == BUFFER && Records(rs) && alignment > 0 && WithinLimits(Last(file, rs, fs, alignment), fs)
    requires NewRecords(file, rs, fs, alignment) != []
    ensures Archives(Finished(Last(file, rs, fs, alignment)), junk, NewRecords(file, rs, fs, alignment))
  {
    hide Locate, Record, Concat, NewRecords, Last, Finished, EndRecords;
    var a, all := Last(file, rs, fs, alignment), NewRecords(file, rs, fs, alignment);
    NewRecordsAreRecords(file, rs, fs, alignment);
    RecordsAreLong(all);
    FinishedSize(a);
    FindsWhatWasWritten(Finished(a), junk, a.cnt, |a.cdir|, a.zsize);
  }

  // ----- every added file is found -----

  lemma {:induction false} KeptNames(rs: seq<Bytes>, names: seq<Bytes>, k: nat)
    requires k <= |rs| && Records(rs)
    ensures forall r :: r in Kept(rs, names, k) ==> Name(r) !in names
  {
    hide Name;
    if k > 0 {
      KeptNames(rs, names, k - 1);
    }
  }

  /** A record that stays does not answer to the name of an added file. */
  lemma KeptDoesNotAnswer(rs: seq<Bytes>, fs: seq<Input>, i: nat, j: nat)
    requires Records(rs) && i < |fs| && j < |Kept(rs, Names(fs), |rs|)|
    ensures var r := Kept(rs, Names(fs), |rs|)[j]; Record(r) && !Hit(Named(fs[i].name), Name(r))
  {
    hide Name, Record;
    var ks := Kept(rs, Names(fs), |rs|);
    KeptNames(rs, Names(fs), |rs|);
    assert ks[j] in ks && Names(fs)[i] in Names(fs);
  }

  /** Of the new entries just the file's own does. */
  lemma OwnHeaderAnswers(a: Archive, fs: seq<Input>, alignment: nat, i: nat, j: nat)
    requires |a.file| <= a.zsize && alignment > 0 && i < |fs| && j < |fs| && Distinct(Names(fs))
    requires WithinLimits(AddedAll(a, fs, alignment, |fs|), fs)
    ensures var r := Headers(a, fs, alignment, |fs|)[j];
      && r == CentralHeader(EntryAt(a, fs, alignment, j))
      && Record(r) && (Hit(Named(fs[i].name), Name(r)) <==> i == j)
  {
    hide CentralHeader, Record, WithinLimits, Name, EntryFits, Read, CfileInside;
    HeaderAt(a, fs, alignment, |fs|, j);
    FitsWithin(a, fs, alignment, j);
    HeaderIsRecord(EntryAt(a, fs, alignment, j));
    assert Names(fs)[i] == fs[i].name && Names(fs)[j] == fs[j].name;
  }

  lemma OnlyOneAnswers(file: Bytes, rs: seq<Bytes>, fs: seq<Input>, alignment: nat, i: nat)
    requires Records(rs) && alignment > 0 && WithinLimits(Last(file, rs, fs, alignment), fs) && i < |fs|
      && Distinct(Names(fs))
    ensures var all := NewRecords(file, rs, fs, alignment);
      && Records(all) && Hits(all, Named(fs[i].name), |all|) == 1
      && LastRecord(all, Named(fs[i].name), |all|)
        == CentralHeader(EntryAt(Before(file, rs, Names(fs)), fs, alignment, i))
  {
    hide CentralHeader, Record, Concat, WithinLimits, Name, Names, Hit, Kept, Headers, EntryAt, AddedAll, Distinct,
      Hits, LastRecord;
    var a, all, ks := Before(file, rs, Names(fs)), NewRecords(file, rs, fs, alignment), Kept(rs, Names(fs), |rs|);
    NewRecordsAreRecords(file, rs, fs, alignment);
    forall j | 0 <= j < |all|
      ensures Hit(Named(fs[i].name), Name(all[j])) <==> j == |ks| + i
    {
      if j < |ks| {
        KeptDoesNotAnswer(rs, fs, i, j);
      } else {
        OwnHeaderAnswers(a, fs, alignment, i, j - |ks|);
      }
    }
    OwnHeaderAnswers(a, fs, alignment, i, i);
    OnlyRecord(all, Named(fs[i].name), |ks| + i, |all|);
  }

  /** What the reader is asked for, and what it has to answer. */
  ghost predicate Delivers(f: Bytes, r: ZipReader.Outcome, content: Bytes, place: nat)
  {
    && r.Opened? && r.size == |content| && r.content + |content| <= |f|
    && f[r.content..r.content + |content|] == content
    && r.content == place
  }

  /** From a local header that stands in the file to the content behind it. */
  lemma OpensAt(f: Bytes, e: Entry)
    requires EntryFits(e) && At(f, e.offset, LocalHeader(e) + e.content)
    ensures CfileInside(CentralHeader(e), 0)
    ensures OpenAt(f, CentralHeader(e), 0) == Opened(e.offset + 50 + |e.name|, |e.content|)
    ensures At(f, e.offset + 50 + |e.name|, e.content)
  {
    hide At, Concat, Read, CompressedSize, LocalOffset;
    HeaderIsRecord(e);
    LocalOffsets(e);
    AtSplit(f, e.offset, LocalHeader(e), e.content);
    LocalReads(f, e.offset, e);
    var lfile := Pread(f, e.offset, 30);
    assert lfile[0..0 + 30] == f[e.offset..e.offset + 30];
    Moved(lfile, 0, f, e.offset, 30, 0, 4);
    Moved(lfile, 0, f, e.offset, 30, 26, 2);
    Moved(lfile, 0, f, e.offset, 30, 28, 2);
  }

  /** In the finished archive the local record of every added file stands at its place, above the old bytes. */
  lemma StandsInFinished(file: Bytes, rs: seq<Bytes>, fs: seq<Input>, alignment: nat, i: nat)
    requires Records(rs) && alignment > 0 && i < |fs|
    ensures var a := Before(file, rs, Names(fs));
      && At(Finished(Last(file, rs, fs, alignment)), Place(a, fs, alignment, i), Local(a, fs, alignment, i))
      && |file| <= Place(a, fs, alignment, i)
  {
    hide At, Concat, Finished, AddedAll, Place, Kept, Local, Names;
    var a, last := Before(file, rs, Names(fs)), Last(file, rs, fs, alignment);
    LocalStands(a, fs, alignment, i, |fs|);
    FinishedSize(last);
    StandsInPrefix(last.file, Finished(last), Place(a, fs, alignment, i), Local(a, fs, alignment, i));
    Appends(a, fs, alignment, 0, i);
    NoneAdded(a, fs, alignment);
  }

  /** The reader ends up at the file's own directory entry. */
  lemma LeadsToHeader(file: Bytes, rs: seq<Bytes>, fs: seq<Input>, alignment: nat, i: nat, junk: Bytes)
    requires |junk| == BUFFER && Records(rs) && alignment > 0 && WithinLimits(Last(file, rs, fs, alignment), fs)
    requires i < |fs| && Distinct(Names(fs))
    ensures var f, r := Finished(Last(file, rs, fs, alignment)),
      CentralHeader(EntryAt(Before(file, rs, Names(fs)), fs, alignment, i));
      CfileInside(r, 0) && OpenZip(f, junk, Named(fs[i].name)) == OpenAt(f, r, 0)
  {
    hide Concat, Record, Hits, LastRecord, Archives, OpenZip, OpenAt, WithinLimits, Finished, CentralHeader, AddedAll,
      Last, Before, NewRecords, EntryAt, CfileInside, Distinct;
    OnlyOneAnswers(file, rs, fs, alignment, i);
    NoRecordsNoHits(NewRecords(file, rs, fs, alignment), Named(fs[i].name));
    NewArchive(file, rs, fs, alignment, junk);
    OpenOfRecords(Finished(Last(file, rs, fs, alignment)), junk, NewRecords(file, rs, fs, alignment),
      Named(fs[i].name));
  }

  lemma DeliversAt(f: Bytes, e: Entry)
    requires EntryFits(e) && At(f, e.offset, LocalHeader(e) + e.content)
    ensures CfileInside(CentralHeader(e), 0)
    ensures Delivers(f, OpenAt(f, CentralHeader(e), 0), e.content, e.offset + 50 + |e.name|)
  {
    hide At, OpenAt, CentralHeader, LocalHeader, CfileInside;
    OpensAt(f, e);
    AtRange(f, e.offset + 50 + |e.name|, e.content);
    AtSlice(f, e.offset + 50 + |e.name|, e.content);
  }

  /** Asked for any file that was added, the reader finds one entry, and the offset and size it returns delimit
      exactly that file's bytes, at an offset on the alignment. */
  lemma AddedFileOpens(file: Bytes, rs: seq<Bytes>, fs: seq<Input>, alignment: nat, i: nat, junk: Bytes)
    requires |junk| == BUFFER && Records(rs) && alignment > 0 && WithinLimits(Last(file, rs, fs, alignment), fs)
    requires i < |fs| && Distinct(Names(fs))
    ensures var f := Finished(Last(file, rs, fs, alignment));
      Delivers(f, OpenZip(f, junk, Named(fs[i].name)), fs[i].content,
        ContentPlace(Before(file, rs, Names(fs)), fs, alignment, i))
  {
    hide *;
    var f, a := Finished(Last(file, rs, fs, alignment)), Before(file, rs, Names(fs));
    LeadsToHeader(file, rs, fs, alignment, i, junk);
    StandsInFinished(file, rs, fs, alignment, i);
    LastIs(file, rs, fs, alignment);
    FitsWithin(a, fs, alignment, i);
    LocalIs(a, fs, alignment, i);
    DeliversAt(f, EntryAt(a, fs, alignment, i));
  }

  lemma StandsInPrefix(c: Bytes, d: Bytes, p: nat, r: Bytes)
    requires At(c, p, r) && |c| <= |d| && d[..|c|] == c
    ensures At(d, p, r)
  {
    forall k | 0 <= k < |r|
      ensures d[p + k] == r[k]
    {
      assert d[..|c|][p + k] == c[p + k];
    }
  }

  // ----- nothing old is lost -----

  /** No byte of the old file changes. */
  lemma OldBytesStay(file: Bytes, rs: seq<Bytes>, fs: seq<Input>, alignment: nat)
    requires Records(rs) && alignment > 0
    ensures var f := Finished(Last(file, rs, fs, alignment)); |file| <= |f| && f[..|file|] == file
  {
    hide Concat, Finished, AddedAll;
    var a := Before(file, rs, Names(fs));
    FinishedSize(Last(file, rs, fs, alignment));
    Appends(a, fs, alignment, 0, |fs|);
    NoneAdded(a, fs, alignment);
    PrefixOfSum(Last(file, rs, fs, alignment).file, Finished(Last(file, rs, fs, alignment)), file);
  }

  /** The records that stay answer to an old name as they did, and the new ones do not. */
  lemma SameAnswer(file: Bytes, rs: seq<Bytes>, fs: seq<Input>, alignment: nat, name: Bytes)
    requires Records(rs) && alignment > 0 && WithinLimits(Last(file, rs, fs, alignment), fs) && name !in Names(fs)
    ensures var all, want := NewRecords(file, rs, fs, alignment), Named(name);
      && Records(all) && Hits(all, want, |all|) == Hits(rs, want, |rs|)
      && (Hits(rs, want, |rs|) > 0 ==> LastRecord(all, want, |all|) == LastRecord(rs, want, |rs|))
  {
    hide CentralHeader, Record, Concat, WithinLimits, Name, Kept, Headers, EntryAt, AddedAll;
    var a, all, ks, want := Before(file, rs, Names(fs)), NewRecords(file, rs, fs, alignment),
      Kept(rs, Names(fs), |rs|), Named(name);
    NewRecordsAreRecords(file, rs, fs, alignment);
    HitsOfKept(rs, Names(fs), want, |rs|);
    HitsSame(ks, all, want, |ks|);
    forall j | |ks| <= j < |all|
      ensures !Hit(want, Name(all[j]))
    {
      HeaderName(a, fs, alignment, j - |ks|);
    }
    HitsOfPrefix(all, want, |ks|, |all|);
  }

  lemma HeaderName(a: Archive, fs: seq<Input>, alignment: nat, j: nat)
    requires |a.file| <= a.zsize && alignment > 0 && j < |fs| && WithinLimits(AddedAll(a, fs, alignment, |fs|), fs)
    ensures var r := Headers(a, fs, alignment, |fs|)[j]; Record(r) && Name(r) in Names(fs)
  {
    hide CentralHeader, Record, WithinLimits, Name, EntryFits, Read, CfileInside;
    HeaderAt(a, fs, alignment, |fs|, j);
    FitsWithin(a, fs, alignment, j);
    HeaderIsRecord(EntryAt(a, fs, alignment, j));
    assert Names(fs)[j] == fs[j].name;
  }

  /** A read that found all it wanted finds the same in a longer file. */
  lemma OpenInLonger(file: Bytes, f: Bytes, cdir: Bytes, z: nat)
    requires CfileInside(cdir, z) && |file| <= |f| && f[..|file|] == file && !OpenAt(file, cdir, z).Failure?
    ensures OpenAt(f, cdir, z) == OpenAt(file, cdir, z)
  {
    hide Read, CompressedSize, LocalOffset;
    var off := LocalOffset(cdir, z);
    if off >= 0 && off + 30 <= |file| {
      SliceOfSlice(f, 0, |file|, off, 30);
      assert f[0..|file|] == f[..|file|];
    }
  }

  /** A file that was not replaced opens as before: the same offset and size, and so the same bytes. */
  lemma OldFileOpens(file: Bytes, junk: Bytes, rs: seq<Bytes>, fs: seq<Input>, alignment: nat, name: Bytes,
                     junk2: Bytes)
    requires |junk| == |junk2| == BUFFER && Records(rs) && alignment > 0 && Starts(file, junk, rs)
    requires WithinLimits(Last(file, rs, fs, alignment), fs) && NewRecords(file, rs, fs, alignment) != []
    requires name !in Names(fs) && !OpenZip(file, junk, Named(name)).Failure?
    ensures OpenZip(Finished(Last(file, rs, fs, alignment)), junk2, Named(name)) == OpenZip(file, junk, Named(name))
  {
    hide Concat, Record, Hits, LastRecord, Archives, OpenAt, WithinLimits, Finished, AddedAll, Last, NewRecords,
      CfileInside;
    var all, f, want := NewRecords(file, rs, fs, alignment), Finished(Last(file, rs, fs, alignment)), Named(name);
    NewArchive(file, rs, fs, alignment, junk2);
    SameAnswer(file, rs, fs, alignment, name);
    OldBytesStay(file, rs, fs, alignment);
    hide Locate, Lookup;
    OpenOfRecords(f, junk2, all, want);
    if rs == [] {
      NoHits(rs, want, 0);
    } else {
      OpenOfRecords(file, junk, rs, want);
      if Hits(rs, want, |rs|) == 1 {
        OpenInLonger(file, f, LastRecord(rs, want, |rs|), 0);
      }
    }
  }

  // ----- the whole program, and the reader after it -----

  /** The directory's size, as the archive's own zip64 end record states it. */
  function StatedSize(f: Bytes): nat
    requires |f| >= 98
  {
    Read(f, |f| - 98 + 40, 8)
  }

  /** An archive and names the formats can carry: at most 2^42 bytes, at most 2^31 - 1 bytes of directory, names of
      at most 65535 bytes. */
  predicate Carried(f: Bytes, fs: seq<Input>) {
    98 <= |f| <= 0x400_0000_0000 && StatedSize(f) <= INT_MAX && forall i :: i in fs ==> |i.name| <= MAX16
  }

  lemma StatesItsSize(a: Archive)
    requires |a.file| <= a.zsize && |Finished(a)| <= 0x400_0000_0000
    ensures |Finished(a)| >= 98 && StatedSize(Finished(a)) == |a.cdir|
  {
    hide Concat, Read, At, Finished, End64Fields, LocatorFields, EndFields;
    FinishedSize(a);
    var f, p := Finished(a), a.zsize + |a.cdir|;
    EndSize(a.cnt, |a.cdir|, a.zsize);
    AtSplit(f, p, Concat(End64Fields(a.cnt, |a.cdir|, a.zsize)) + Concat(LocatorFields(a.zsize + |a.cdir|)),
            Concat(EndFields(a.cnt, |a.cdir|)));
    AtSplit(f, p, Concat(End64Fields(a.cnt, |a.cdir|, a.zsize)), Concat(LocatorFields(a.zsize + |a.cdir|)));
    Powers();
    End64Size(f, p, a.cnt, |a.cdir|, a.zsize);
  }

  lemma CarriedFits(a: Archive, fs: seq<Input>)
    requires |a.file| <= a.zsize && Carried(Finished(a), fs)
    ensures WithinLimits(a, fs)
  {
    hide Finished, StatedSize;
    StatesItsSize(a);
  }

  lemma {:induction false} NoneReplaced(ks: seq<Bytes>, names: seq<Bytes>, k: nat)
    requires k <= |ks| && Records(ks) && forall r :: r in ks ==> Name(r) !in names
    ensures Kept(ks, names, k) == ks[..k]
  {
    hide Name, Record;
    if k > 0 {
      NoneReplaced(ks, names, k - 1);
    }
  }

  lemma ZippedParts(file: Bytes, junk: Bytes, fs: seq<Input>, alignment: nat, f: Bytes) returns (cdir: Bytes, cnt: nat)
    requires |junk| == BUFFER && alignment > 0 && Zipped(file, junk, fs, alignment) == Wrote(f)
    ensures Distinct(Names(fs))
    ensures var c := Compact(Start(cdir), cnt, Names(fs));
      && c.Compacted? && c.size <= |c.cdir|
      && f == Finished(AddedAll(Archive(file, |file|, c.cdir[..c.size], c.count), fs, alignment, |fs|))
  {
    hide Locate, Compact, Distinct, Names, Finished, AddedAll;
    var d := Locate(file, junk);
    cdir, cnt := [], 0;
    if !d.Missing? && d.cnt != 0 {
      cdir, cnt := Pread(file, d.off, d.size), d.cnt;
    }
    CompactShrinks(Start(cdir), cnt, Names(fs));
  }

  lemma NothingKept(cdir: Bytes, names: seq<Bytes>)
    ensures KeepsRecords(cdir, 0, 0, names, [])
  {
  }

  /** Whatever it started from, a file the program writes is the old bytes, the added files, and a directory of whole
      records: some it kept, none of them named like an added file, then one for each added file. */
  lemma WroteIs(file: Bytes, junk: Bytes, fs: seq<Input>, alignment: nat, f: Bytes) returns (ks: seq<Bytes>)
    requires |junk| == BUFFER && alignment > 0 && Zipped(file, junk, fs, alignment) == Wrote(f)
    ensures Records(ks) && (forall r :: r in ks ==> Name(r) !in Names(fs)) && Distinct(Names(fs))
    ensures f == Finished(Last(file, ks, fs, alignment))
  {
    hide Concat, Record, Compact, Finished, AddedAll, Name, Names, Distinct;
    var cdir, cnt := ZippedParts(file, junk, fs, alignment, f);
    var c := Compact(Start(cdir), cnt, Names(fs));
    NothingKept(cdir, Names(fs));
    ks := CompactKeepsRecords(Start(cdir), cnt, Names(fs), []);
    NoneReplaced(ks, Names(fs), |ks|);
    assert ks[..|ks|] == ks;
    assert Before(file, ks, Names(fs)) == Archive(file, |file|, c.cdir[..c.size], c.count);
  }

  /** Whatever the program added can be opened: one entry is found, and the outcome delimits exactly the file's bytes,
      on the alignment, above all old bytes. The old directory may be malformed, and records of it may get lost. */
  lemma ZipThenOpen(file: Bytes, junk: Bytes, fs: seq<Input>, alignment: nat, f: Bytes, i: nat, junk2: Bytes)
    requires |junk| == |junk2| == BUFFER && alignment > 0 && i < |fs|
    requires Zipped(file, junk, fs, alignment) == Wrote(f) && Carried(f, fs)
    ensures var r := OpenZip(f, junk2, Named(fs[i].name));
      && r.Opened? && r.size == |fs[i].content| && r.content + |fs[i].content| <= |f|
      && f[r.content..r.content + |fs[i].content|] == fs[i].content
      && r.content % alignment == 0 && |file| <= r.content
  {
    hide *;
    var ks := WroteIs(file, junk, fs, alignment, f);
    var a := Before(file, ks, Names(fs));
    CarriedFits(Last(file, ks, fs, alignment), fs);
    AddedFileOpens(file, ks, fs, alignment, i, junk2);
    StandsInFinished(file, ks, fs, alignment, i);
    ContentIsAligned(a, fs, alignment, i);
    DeliversMeans(f, OpenZip(f, junk2, Named(fs[i].name)), fs[i].content, ContentPlace(a, fs, alignment, i));
    ContentAbove(a, fs, alignment, i);
  }

  lemma DeliversMeans(f: Bytes, r: ZipReader.Outcome, content: Bytes, place: nat)
    requires Delivers(f, r, content, place)
    ensures r.Opened? && r.size == |content| && r.content == place && place + |content| <= |f|
    ensures f[place..place + |content|] == content
  {
  }

  lemma ContentAbove(a: Archive, fs: seq<Input>, alignment: nat, k: nat)
    requires |a.file| <= a.zsize && alignment > 0 && k < |fs|
    ensures ContentPlace(a, fs, alignment, k) >= Place(a, fs, alignment, k)
  {
    hide Place;
  }

  /** The program only appends, whatever it started from. */
  lemma ZipOnlyAppends(file: Bytes, junk: Bytes, fs: seq<Input>, alignment: nat, f: Bytes)
    requires |junk| == BUFFER && alignment > 0 && Zipped(file, junk, fs, alignment) == Wrote(f)
    ensures |file| <= |f| && f[..|file|] == file
  {
    hide *;
    var ks := WroteIs(file, junk, fs, alignment, f);
    OldBytesStay(file, ks, fs, alignment);
  }

  lemma WrotePlain(file: Bytes, junk: Bytes, rs: seq<Bytes>, fs: seq<Input>, alignment: nat, f: Bytes)
    requires |junk| == BUFFER && alignment > 0 && Records(rs) && Starts(file, junk, rs) && Steady(rs, Names(fs))
    requires Zipped(file, junk, fs, alignment) == Wrote(f)
    ensures f == Finished(Last(file, rs, fs, alignment))
  {
    hide *;
    var _ := WroteIs(file, junk, fs, alignment, f);
    ZippedIs(file, junk, rs, fs, alignment);
  }

  /** When the compaction is sound nothing old is lost: every file that was not replaced opens to the same place and
      size as before, where the same bytes still are. */
  lemma ZipKeepsOld(file: Bytes, junk: Bytes, rs: seq<Bytes>, fs: seq<Input>, alignment: nat, f: Bytes, name: Bytes,
                    junk2: Bytes)
    requires |junk| == |junk2| == BUFFER && alignment > 0 && Records(rs) && Starts(file, junk, rs)
      && Steady(rs, Names(fs))
    requires Zipped(file, junk, fs, alignment) == Wrote(f) && Carried(f, fs)
    requires NewRecords(file, rs, fs, alignment) != [] && name !in Names(fs)
      && !OpenZip(file, junk, Named(name)).Failure?
    ensures |file| <= |f| && f[..|file|] == file
    ensures OpenZip(f, junk2, Named(name)) == OpenZip(file, junk, Named(name))
  {
    hide *;
    WrotePlain(file, junk, rs, fs, alignment, f);
    CarriedFits(Last(file, rs, fs, alignment), fs);
    OldBytesStay(file, rs, fs, alignment);
    OldFileOpens(file, junk, rs, fs, alignment, name, junk2);
  }

  // ----- what is lost when the compaction strays -----

  lemma {:induction false} HitsGrow(rs: seq<Bytes>, want: Wanted, m: nat, k: nat)
    requires m <= k <= |rs| && Records(rs)
    ensures Hits(rs, want, m) <= Hits(rs, want, k)
    ensures Hits(rs, want, m) == Hits(rs, want, k) > 0 ==> LastRecord(rs, want, m) == LastRecord(rs, want, k)
    decreases k
  {
    hide Hit, Name, Record;
    if m < k {
      HitsGrow(rs, want, m, k - 1);
    }
  }

  /** The records that are left, and the file that is written with them. */
  lemma StrayedWrote(file: Bytes, junk: Bytes, rs: seq<Bytes>, fs: seq<Input>, alignment: nat, k: nat, f: Bytes)
    requires |junk| == BUFFER && alignment > 0 && Records(rs) && rs != [] && Starts(file, junk, rs)
    requires Strays(rs, Names(fs), k) && Zipped(file, junk, fs, alignment) == Wrote(f)
    ensures k < |rs|
    ensures var ks := Kept(rs, Names(fs), k + 1); ks != [] && f == Finished(Last(file, ks, fs, alignment))
  {
    hide Locate, AddedAll, Names, Distinct, Record, SteadyUpTo, Reread, Compact, Name, Finished;
    var names := Names(fs);
    var ks := Kept(rs, names, k + 1);
    LaterRecordsLost(rs, names, k);
    KeptNames(rs, names, k + 1);
    NoneReplaced(ks, names, |ks|);
    assert ks[..|ks|] == ks;
  }

  /** The reader's answer depends on the records left in the directory. */
  lemma AnswerOfKept(file: Bytes, ks: seq<Bytes>, fs: seq<Input>, alignment: nat, name: Bytes, junk: Bytes)
    requires |junk| == BUFFER && alignment > 0 && Records(ks) && name !in Names(fs)
    requires WithinLimits(Last(file, ks, fs, alignment), fs) && NewRecords(file, ks, fs, alignment) != []
    ensures var f, want := Finished(Last(file, ks, fs, alignment)), Named(name);
      && (Hits(ks, want, |ks|) == 1 ==> CfileInside(LastRecord(ks, want, |ks|), 0))
      && OpenZip(f, junk, want)
         == if Hits(ks, want, |ks|) == 1 then OpenAt(f, LastRecord(ks, want, |ks|), 0) else Invalid
  {
    hide *;
    NewArchive(file, ks, fs, alignment, junk);
    SameAnswer(file, ks, fs, alignment, name);
    OpenOfRecords(Finished(Last(file, ks, fs, alignment)), junk, NewRecords(file, ks, fs, alignment), Named(name));
  }

  lemma KeptIsNew(file: Bytes, ks: seq<Bytes>, fs: seq<Input>, alignment: nat)
    requires Records(ks) && alignment > 0 && Kept(ks, Names(fs), |ks|) != []
    ensures NewRecords(file, ks, fs, alignment) != []
  {
    hide Kept, Headers;
  }

  lemma OldNameIsOther(fs: seq<Input>, name: Bytes)
    requires name !in Names(fs)
    ensures forall n :: n in Names(fs) ==> !Hit(Named(name), n)
  {
  }

  /** When the walk strays past the directory behind record `k`, an old file that is not replaced and did open goes on
      opening to the same place and size if and only if its record is one of the first `k + 1`; otherwise the reader
      finds no such file any more, although none of its bytes has changed. */
  lemma StrayedOpens(file: Bytes, junk: Bytes, rs: seq<Bytes>, fs: seq<Input>, alignment: nat, k: nat, f: Bytes,
                     name: Bytes, junk2: Bytes)
    requires |junk| == |junk2| == BUFFER && alignment > 0 && Records(rs) && rs != [] && Starts(file, junk, rs)
    requires Strays(rs, Names(fs), k) && Zipped(file, junk, fs, alignment) == Wrote(f) && Carried(f, fs)
    requires name !in Names(fs) && OpenZip(file, junk, Named(name)).Opened?
    ensures |file| <= |f| && f[..|file|] == file && k < |rs|
    ensures if Hits(rs, Named(name), k + 1) == 1
            then OpenZip(f, junk2, Named(name)) == OpenZip(file, junk, Named(name))
            else OpenZip(f, junk2, Named(name)) == Invalid
  {
    var want, names := Named(name), Names(fs);
    hide *;
    StrayedWrote(file, junk, rs, fs, alignment, k, f);
    var ks := Kept(rs, names, k + 1);
    OldBytesStay(file, ks, fs, alignment);
    CarriedFits(Last(file, ks, fs, alignment), fs);
    OldNameIsOther(fs, name);
    KeptNames(rs, names, k + 1);
    NoneReplaced(ks, names, |ks|);
    WholeSeq(ks);
    KeptIsNew(file, ks, fs, alignment);
    HitsOfKept(rs, names, want, k + 1);
    AnswerOfKept(file, ks, fs, alignment, name, junk2);
    StartsIs(file, junk, rs);
    OpenOfRecords(file, junk, rs, want);
    HitsGrow(rs, want, k + 1, |rs|);
    if Hits(rs, want, k + 1) == 1 {
      OpenInLonger(file, f, LastRecord(rs, want, |rs|), 0);
    }
  }

  lemma WholeSeq(ks: seq<Bytes>)
    ensures ks[..|ks|] == ks
  {
  }

  lemma StartsIs(file: Bytes, junk: Bytes, rs: seq<Bytes>)
    requires |junk| == BUFFER && rs != [] && Starts(file, junk, rs)
    ensures Archives(file, junk, rs)
  {
  }
}
