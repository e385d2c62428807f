/** The backward search for the end-of-central-directory record, which zipalign and `llamafile_open_zip` share
    (llamafile/zipalign.c:159-203, llamafile/llamafile.c:82-136). */
module ZipSearch {
  import opened ByteSeq
  import opened ZipFormat

  /** `pread`: up to `n` bytes at `off`. */
  function Pread(file: Bytes, off: nat, n: nat): (got: Bytes)
    ensures |got| <= n
    ensures off + n <= |file| ==> got == file[off..off + n]
    ensures |got| == n ==> n == 0 || off + n <= |file|
  {
    if off >= |file| then [] else if off + n <= |file| then file[off..off + n] else file[off..]
  }

  /** What the search leaves in `cnt`, `off` and `amt`. */
  datatype Directory = Missing | Directory(cnt: nat, off: nat, size: nat)

  const BUFFER: nat := 65536

  /** How much of the end of the file is looked at. */
  function TailSize(file: Bytes): nat {
    if |file| <= 65536 then |file| else 65536
  }

  function Overwrite(buf: Bytes, got: Bytes): (r: Bytes)
    requires |got| <= |buf|
    ensures |r| == |buf|
  {
    got + buf[|got|..]
  }

  predicate GoodEnd64(got: Bytes) {
    && |got| == 56
    && Read(got, 0, 4) == CDIR64_MAGIC
    && Read(got, 32, 8) == Read(got, 24, 8)
    && Read(got, 32, 8) != 0
    && Read(got, 40, 8) <= INT_MAX
  }

  predicate GoodEnd(buf: Bytes, amt: nat, i: nat)
    requires i + 4 <= amt <= |buf|
  {
    && Read(buf, i, 4) == CDIR_MAGIC
    && i + 22 <= amt
    && Read(buf, i + 10, 2) == Read(buf, i + 8, 2)
    && Read(buf, i + 10, 2) != 0
    && Read(buf, i + 12, 4) <= INT_MAX
    && Read(buf, i + 16, 4) != FULL32
  }

  /** The search from position `i` downwards. A locator that leads nowhere has still overwritten the front of the
      buffer with what was read through it. The count is an `unsigned`. */
  function Search(file: Bytes, buf: Bytes, amt: nat, i: int): Directory
    requires |buf| == BUFFER && i + 20 <= amt <= BUFFER
    decreases i + 1
  {
    if i < 0 then Missing
    else if Read(buf, i, 4) == LOCATOR_MAGIC then
      var got := Pread(file, Read(buf, i + 8, 8), 56);
      if GoodEnd64(got) then Directory(Read(got, 32, 8) % 0x1_0000_0000, Read(got, 48, 8), Read(got, 40, 8))
      else Search(file, Overwrite(buf, got), amt, i - 1)
    else if GoodEnd(buf, amt, i) then Directory(Read(buf, i + 10, 2), Read(buf, i + 16, 4), Read(buf, i + 12, 4))
    else Search(file, buf, amt, i - 1)
  }

  /** The buffer after the first read; `junk` is what the allocation held before. */
  function Filled(file: Bytes, junk: Bytes): (buf: Bytes)
    requires |junk| == BUFFER
    ensures |buf| == BUFFER
  {
    Overwrite(junk, file[|file| - TailSize(file)..])
  }

  function Locate(file: Bytes, junk: Bytes): Directory
    requires |junk| == BUFFER
  {
    Search(file, Filled(file, junk), TailSize(file), TailSize(file) as int - 20)
  }

  method CopyIn(buf: array<byte>, got: Bytes)
    requires |got| <= buf.Length
    modifies buf
    ensures buf[..] == Overwrite(old(buf[..]), got)
  {
    for j := 0 to |got|
      invariant buf[..j] == got[..j]
      invariant buf[j..] == old(buf[j..])
    {
      buf[j] := got[j];
    }
    assert buf[..] == buf[..|got|] + buf[|got|..];
  }

  method FindDirectory(file: Bytes, buf: array<byte>) returns (d: Directory)
    requires buf.Length == BUFFER
    modifies buf
    ensures d == Locate(file, old(buf[..]))
  {
    hide Read, GoodEnd, Overwrite;
    var amt := TailSize(file);
    var start := |file| - amt;
    assert Pread(file, start, amt) == file[start..];
    CopyIn(buf, Pread(file, start, amt));
    assert buf[..] == Filled(file, old(buf[..]));
    var i: int := amt as int - 20;
    while i >= 0
      invariant -20 <= i <= amt as int - 20
      invariant Search(file, buf[..], amt, i) == Locate(file, old(buf[..]))
      decreases i + 1
    {
      if Read(buf[..], i, 4) == LOCATOR_MAGIC {
        var got := Pread(file, Read(buf[..], i + 8, 8), 56);
        if GoodEnd64(got) {
          return Directory(Read(got, 32, 8) % 0x1_0000_0000, Read(got, 48, 8), Read(got, 40, 8));
        }
        CopyIn(buf, got);
      } else if GoodEnd(buf[..], amt, i) {
        return Directory(Read(buf[..], i + 10, 2), Read(buf[..], i + 16, 4), Read(buf[..], i + 12, 4));
      }
      i := i - 1;
    }
    return Missing;
  }

  // ----- the search finds what zipalign wrote -----

  lemma Bytes2(s: Bytes, p: nat)
    requires p + 2 <= |s|
    ensures Read(s, p, 2) == s[p] as int + 256 * s[p + 1] as int
  {
    assert Read(s, p + 1, 1) == s[p + 1] as int + 256 * Read(s, p + 2, 0);
  }

  lemma Bytes4(s: Bytes, p: nat)
    requires p + 4 <= |s|
    ensures Read(s, p, 4) == s[p] as int + 256 * s[p + 1] as int + 0x10000 * s[p + 2] as int
      + 0x1000000 * s[p + 3] as int
  {
    Bytes2(s, p + 2);
    assert Read(s, p + 1, 3) == s[p + 1] as int + 256 * Read(s, p + 2, 2);
  }

  lemma Bytes8(s: Bytes, p: nat)
    requires p + 8 <= |s|
    ensures Read(s, p, 8) == Read(s, p, 4) + 0x1_0000_0000 * Read(s, p + 4, 4)
  {
    hide Read;
    Unroll(s, p, 8);
    Unroll(s, p + 1, 7);
    Unroll(s, p + 2, 6);
    Unroll(s, p + 3, 5);
    Bytes4(s, p);
  }

  lemma Unroll(s: Bytes, p: nat, k: nat)
    requires 0 < k && p + k <= |s|
    ensures Read(s, p, k) == s[p] as int + 256 * Read(s, p + 1, k - 1)
  {
  }

  /** No magic number can start here. */
  predicate NoMagic(buf: Bytes, i: nat)
    requires i + 4 <= |buf|
  {
    buf[i] != 0x50 || buf[i + 1] != 0x4b || (buf[i + 3] != 6 && buf[i + 3] != 7)
  }

  lemma SkipPlain(file: Bytes, buf: Bytes, amt: nat, i: nat)
    requires |buf| == BUFFER && i + 20 <= amt <= BUFFER && NoMagic(buf, i)
    ensures Search(file, buf, amt, i) == Search(file, buf, amt, i - 1)
  {
    hide Read, Pread, Overwrite, GoodEnd64;
    Bytes4(buf, i);
  }

  /** Bytes that look like a magic number, but lead to an offset past the end and disagree about the record count. */
  lemma SkipFake(file: Bytes, buf: Bytes, amt: nat, i: nat)
    requires |buf| == BUFFER && i + 20 <= amt <= BUFFER
    requires Read(buf, i + 8, 8) >= |file| && Read(buf, i + 8, 2) != Read(buf, i + 10, 2)
    ensures Search(file, buf, amt, i) == Search(file, buf, amt, i - 1)
  {
    assert Pread(file, Read(buf, i + 8, 8), 56) == [];
    assert Overwrite(buf, []) == buf;
  }

  /** The tail of an archive, as bytes: the locator at `l` and the start of the legacy record after it. */
  ghost predicate LocatorTail(buf: Bytes, l: nat, at: nat) {
    && l + 42 <= |buf|
    && Read(buf, l, 4) == LOCATOR_MAGIC && Read(buf, l + 4, 4) == 0
    && Read(buf, l + 8, 8) == at && Read(buf, l + 16, 4) == 1
    && Read(buf, l + 20, 4) == CDIR_MAGIC && Read(buf, l + 24, 4) == 0
    && Read(buf, l + 36, 4) == FULL32
  }

  lemma TailBytes(buf: Bytes, l: nat, at: nat)
    requires LocatorTail(buf, l, at) && at < 0x400_0000_0000
    ensures buf[l + 1] != 0x50 && buf[l + 2] != 0x50 && buf[l + 3] != 0x50
    ensures buf[l + 4] == buf[l + 5] == buf[l + 6] == buf[l + 7] == 0
    ensures buf[l + 13] < 4 && buf[l + 14] == buf[l + 15] == 0
    ensures buf[l + 16] == 1 && buf[l + 17] == buf[l + 18] == buf[l + 19] == 0
    ensures buf[l + 20] == 0x50 && buf[l + 21] == 0x4b && buf[l + 22] == 5 && buf[l + 23] == 6 && buf[l + 24] == 0
  {
    hide Read;
    Bytes4(buf, l);
    Bytes4(buf, l + 4);
    Bytes8(buf, l + 8);
    Bytes4(buf, l + 8);
    Bytes4(buf, l + 12);
    Bytes4(buf, l + 16);
    Bytes4(buf, l + 20);
    Bytes4(buf, l + 24);
  }

  /** The two positions where the locator's own offset may spell a magic number. */
  lemma FakeInOffset(file: Bytes, buf: Bytes, l: nat, at: nat)
    requires LocatorTail(buf, l, at) && at < 0x400_0000_0000 && |file| <= 0x400_0000_0000
    ensures Read(buf, l + 16, 8) >= |file| && Read(buf, l + 16, 2) != Read(buf, l + 18, 2)
    ensures Read(buf, l + 17, 8) >= |file| && Read(buf, l + 17, 2) != Read(buf, l + 19, 2)
  {
    TailBytes(buf, l, at);
    Bytes8(buf, l + 16);
    Bytes2(buf, l + 16);
    Bytes2(buf, l + 18);
    Bytes8(buf, l + 17);
    Bytes4(buf, l + 21);
    Bytes2(buf, l + 17);
    Bytes2(buf, l + 19);
  }

  /** All 22 positions between the end of the file and the locator are passed over. */
  lemma ReachesLocator(file: Bytes, buf: Bytes, amt: nat, at: nat)
    requires |buf| == BUFFER && 42 <= amt <= BUFFER && LocatorTail(buf, amt - 42, at)
    requires at < 0x400_0000_0000 && |file| <= 0x400_0000_0000
    ensures Search(file, buf, amt, amt - 20) == Search(file, buf, amt, amt - 42)
  {
    PastEnd(file, buf, amt, at);
    PastZeros(file, buf, amt, at);
    PastOffset(file, buf, amt, at);
  }

  lemma PastEnd(file: Bytes, buf: Bytes, amt: nat, at: nat)
    requires |buf| == BUFFER && 42 <= amt <= BUFFER && LocatorTail(buf, amt - 42, at) && at < 0x400_0000_0000
    ensures Search(file, buf, amt, amt - 20) == Search(file, buf, amt, amt - 26)
  {
    var l: nat := amt - 42;
    TailBytes(buf, l, at);
    SkipEnd(file, buf, amt);
    hide Search, Read;
    SkipPlain(file, buf, amt, l + 22);
    SkipPlain(file, buf, amt, l + 21);
    SkipPlain(file, buf, amt, l + 19);
    SkipPlain(file, buf, amt, l + 18);
    SkipPlain(file, buf, amt, l + 17);
  }

  lemma PastZeros(file: Bytes, buf: Bytes, amt: nat, at: nat)
    requires |buf| == BUFFER && 42 <= amt <= BUFFER && LocatorTail(buf, amt - 42, at) && at < 0x400_0000_0000
    ensures Search(file, buf, amt, amt - 26) == Search(file, buf, amt, amt - 33)
  {
    var l: nat := amt - 42;
    TailBytes(buf, l, at);
    hide Search, Read;
    SkipPlain(file, buf, amt, l + 16);
    SkipPlain(file, buf, amt, l + 15);
    SkipPlain(file, buf, amt, l + 14);
    SkipPlain(file, buf, amt, l + 13);
    SkipPlain(file, buf, amt, l + 12);
    SkipPlain(file, buf, amt, l + 11);
    SkipPlain(file, buf, amt, l + 10);
  }

  lemma PastOffset(file: Bytes, buf: Bytes, amt: nat, at: nat)
    requires |buf| == BUFFER && 42 <= amt <= BUFFER && LocatorTail(buf, amt - 42, at)
    requires at < 0x400_0000_0000 && |file| <= 0x400_0000_0000
    ensures Search(file, buf, amt, amt - 33) == Search(file, buf, amt, amt - 42)
  {
    var l: nat := amt - 42;
    TailBytes(buf, l, at);
    FakeInOffset(file, buf, l, at);
    hide Search, Read;
    SkipFake(file, buf, amt, l + 9);
    SkipFake(file, buf, amt, l + 8);
    SkipPlain(file, buf, amt, l + 7);
    SkipPlain(file, buf, amt, l + 6);
    SkipPlain(file, buf, amt, l + 5);
    SkipPlain(file, buf, amt, l + 4);
    SkipPlain(file, buf, amt, l + 3);
    SkipPlain(file, buf, amt, l + 2);
    SkipPlain(file, buf, amt, l + 1);
  }

  /** The legacy record itself is refused: its offset field says to look elsewhere. */
  lemma SkipEnd(file: Bytes, buf: Bytes, amt: nat)
    requires |buf| == BUFFER && 42 <= amt <= BUFFER && Read(buf, amt - 22, 4) == CDIR_MAGIC
      && Read(buf, amt - 6, 4) == FULL32
    ensures Search(file, buf, amt, amt - 22) == Search(file, buf, amt, amt - 23)
  {
  }

  lemma LocatorReads(s: Bytes, p: nat, at: nat)
    requires At(s, p, Concat(LocatorFields(at))) && at < Pow256(8)
    ensures p + 20 <= |s| && Read(s, p, 4) == LOCATOR_MAGIC && Read(s, p + 4, 4) == 0
    ensures Read(s, p + 8, 8) == at && Read(s, p + 16, 4) == 1
  {
    var g := LocatorFields(at);
    EndOffsets(0, 0, at);
    Powers();
    hide Le, Concat, Off, Read, At, Pow256;
    AtRange(s, p, Concat(g));
    OffZero(g);
    FieldRead(s, p, g, 0, 0, LOCATOR_MAGIC, 4);
    FieldRead(s, p, g, 1, 4, 0, 4);
    FieldRead(s, p, g, 2, 8, at, 8);
    FieldRead(s, p, g, 3, 16, 1, 4);
  }

  lemma LegacyReads(s: Bytes, p: nat, cnt: nat, size: nat)
    requires At(s, p, Concat(EndFields(cnt, size)))
    ensures p + 22 <= |s| && Read(s, p, 4) == CDIR_MAGIC && Read(s, p + 4, 4) == 0 && Read(s, p + 16, 4) == FULL32
  {
    var h := EndFields(cnt, size);
    EndOffsets(cnt, size, 0);
    Powers();
    DiskNumbers(s, p, cnt, size);
    hide Le, Concat, Off, Read, At, Pow256;
    OffZero(h);
    FieldRead(s, p, h, 0, 0, CDIR_MAGIC, 4);
    FieldRead(s, p, h, 6, 16, FULL32, 4);
  }

  /** The two disk numbers, read as one zero. */
  lemma DiskNumbers(s: Bytes, p: nat, cnt: nat, size: nat)
    requires At(s, p, Concat(EndFields(cnt, size)))
    ensures p + 22 <= |s| && Read(s, p + 4, 4) == 0
  {
    var h := EndFields(cnt, size);
    EndOffsets(cnt, size, 0);
    Powers();
    hide Le, Concat, Off, Read, At, Pow256;
    AtRange(s, p, Concat(h));
    FieldRead(s, p, h, 1, 4, 0, 2);
    FieldRead(s, p, h, 2, 6, 0, 2);
    TwoHalves(s, p + 4);
  }

  lemma TwoHalves(s: Bytes, p: nat)
    requires p + 4 <= |s| && Read(s, p, 2) == 0 && Read(s, p + 2, 2) == 0
    ensures Read(s, p, 4) == 0
  {
    hide Read;
    Bytes4(s, p);
    Bytes2(s, p);
    Bytes2(s, p + 2);
  }

  lemma EndReads(s: Bytes, p: nat, cnt: nat, size: nat, offset: nat)
    requires At(s, p, EndRecords(cnt, size, offset)) && offset + size < Pow256(8)
    ensures At(s, p, Concat(End64Fields(cnt, size, offset)))
    ensures LocatorTail(s, p + 56, offset + size)
  {
    var a, b, c := Concat(End64Fields(cnt, size, offset)), Concat(LocatorFields(offset + size)),
      Concat(EndFields(cnt, size));
    EndOffsets(cnt, size, offset);
    hide Le, Concat, Off, Read, At, Pow256, End64Fields, LocatorFields, EndFields;
    AtSplit(s, p, a + b, c);
    AtSplit(s, p, a, b);
    LocatorReads(s, p + 56, offset + size);
    LegacyReads(s, p + 76, cnt, size);
  }

  lemma Moved(s: Bytes, p: nat, t: Bytes, q: nat, n: nat, k: nat, w: nat)
    requires p + n <= |s| && q + n <= |t| && k + w <= n && s[p..p + n] == t[q..q + n]
    ensures Read(s, p + k, w) == Read(t, q + k, w)
  {
    SliceOfSlice(s, p, n, k, w);
    SliceOfSlice(t, q, n, k, w);
    ReadSame(s, p + k, t, q + k, w);
  }

  lemma SliceOfSlice(s: Bytes, p: nat, n: nat, k: nat, w: nat)
    requires p + n <= |s| && k + w <= n
    ensures s[p..p + n][k..k + w] == s[p + k..p + k + w]
  {
    var a, b := s[p..p + n][k..k + w], s[p + k..p + k + w];
    assert |a| == |b| == w;
    forall j | 0 <= j < w
      ensures a[j] == b[j]
    {
      assert a[j] == s[p..p + n][k + j] == s[p + (k + j)];
      assert b[j] == s[p + k + j];
    }
  }

  /** The end of the file stands at the end of the buffer. */
  lemma TailMoves(file: Bytes, junk: Bytes, at: nat)
    requires |junk| == BUFFER && |file| == at + 98 && LocatorTail(file, at + 56, at)
    ensures LocatorTail(Filled(file, junk), TailSize(file) - 42, at)
  {
    hide Read;
    var buf, l, m := Filled(file, junk), TailSize(file) - 42, at + 56;
    assert buf[l..l + 42] == file[m..m + 42];
    Moved(buf, l, file, m, 42, 0, 4);
    Moved(buf, l, file, m, 42, 4, 4);
    Moved(buf, l, file, m, 42, 8, 8);
    Moved(buf, l, file, m, 42, 16, 4);
    Moved(buf, l, file, m, 42, 20, 4);
    Moved(buf, l, file, m, 42, 24, 4);
    Moved(buf, l, file, m, 42, 36, 4);
  }

  /** The zip64 record passes the check, once read into the buffer. */
  lemma GoodEnd64Here(file: Bytes, at: nat, cnt: nat, size: nat, off: nat)
    requires At(file, at, Concat(End64Fields(cnt, size, off)))
    requires 0 < cnt < 0x1_0000_0000 && size <= INT_MAX && off <= 0x400_0000_0000
    ensures at + 56 <= |file|
    ensures var got := file[at..at + 56];
      GoodEnd64(got) && Read(got, 32, 8) == cnt && Read(got, 40, 8) == size && Read(got, 48, 8) == off
  {
    hide Read, At, Pow256;
    Powers();
    End64Reads(file, at, cnt, size, off);
    var got := file[at..at + 56];
    assert got[0..0 + 56] == file[at..at + 56];
    Moved(got, 0, file, at, 56, 0, 4);
    Moved(got, 0, file, at, 56, 24, 8);
    Moved(got, 0, file, at, 56, 32, 8);
    Moved(got, 0, file, at, 56, 40, 8);
    Moved(got, 0, file, at, 56, 48, 8);
  }

  /** In an archive of at most 2^42 bytes that ends with the records zipalign writes, the search returns what those
      records say, whatever stands before them and whatever the buffer held. */
  lemma FindsWhatWasWritten(file: Bytes, junk: Bytes, cnt: nat, size: nat, off: nat)
    requires |junk| == BUFFER && |file| == off + size + 98 && |file| <= 0x400_0000_0000
    requires At(file, off + size, EndRecords(cnt, size, off))
    requires 0 < cnt < 0x1_0000_0000 && size <= INT_MAX
    ensures Locate(file, junk) == Directory(cnt, off, size)
  {
    hide Read, At, Pow256, GoodEnd64, GoodEnd, Search, EndRecords, LocatorTail, Filled;
    var at, amt := off + size, TailSize(file);
    Powers();
    EndReads(file, at, cnt, size, off);
    TailMoves(file, junk, at);
    ReachesLocator(file, Filled(file, junk), amt, at);
    GoodEnd64Here(file, at, cnt, size, off);
    ThroughLocator(file, Filled(file, junk), amt, at);
  }

  lemma ThroughLocator(file: Bytes, buf: Bytes, amt: nat, at: nat)
    requires |buf| == BUFFER && 42 <= amt <= BUFFER && LocatorTail(buf, amt - 42, at)
    requires at + 56 <= |file| && GoodEnd64(file[at..at + 56])
    ensures var got := file[at..at + 56];
      Search(file, buf, amt, amt - 42) == Directory(Read(got, 32, 8) % 0x1_0000_0000, Read(got, 48, 8),
        Read(got, 40, 8))
  {
    hide Read;
  }
}
