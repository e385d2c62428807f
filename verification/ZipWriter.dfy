/** `zipalign` at level 0: adding files to an archive (llamafile/zipalign.c:262-466). */
module ZipWriter {
  import Arith
  import opened ByteSeq
  import opened ZipFormat
  import opened ZipSearch
  import opened ZipDirectory

  /** A file to add. Its checksum, time stamps and mode are carried along. */
  datatype Input = Input(name: Bytes, content: Bytes, crc: nat, mtime: nat, mdate: nat, mode: nat)

  function EntryOf(f: Input, offset: nat): Entry {
    Entry(f.name, f.content, offset, f.crc, f.mtime, f.mdate, f.mode)
  }

  /** `pwrite`: past the end of the file the gap fills with zeros; writing nothing does nothing. */
  function Written(file: Bytes, off: nat, data: Bytes): Bytes {
    if data == [] then file
    else if off > |file| then file + Zeros(off - |file|) + data
    else file[..off] + data + if off + |data| < |file| then file[off + |data|..] else []
  }

  /** The first place from `zsize` on where a header of `hdrlen` bytes puts the content on the alignment. The
      code tests `(zsize + hdrlen) & (alignment - 1)`, the remainder by a power of two. */
  predicate Multiple(x: nat, a: nat)
    requires a > 0
  {
    x % a == 0
  }

  function Aligned(zsize: nat, hdrlen: nat, alignment: nat): (z: nat)
    requires alignment > 0
    ensures z >= zsize && Multiple(z + hdrlen, alignment)
    decreases Shortfall(zsize + hdrlen, alignment)
  {
    if (zsize + hdrlen) % alignment == 0 then zsize
    else
      NextRemainder(zsize + hdrlen, alignment);
      Aligned(zsize + 1, hdrlen, alignment)
  }

  /** How far `x` is from the next multiple. */
  function Shortfall(x: nat, a: nat): nat
    requires a > 0
  {
    if x % a == 0 then 0 else a - x % a
  }

  lemma NextRemainder(x: nat, a: nat)
    requires a > 0 && x % a != 0
    ensures Shortfall(x + 1, a) == Shortfall(x, a) - 1
  {
    var q, r := x / a, x % a;
    if r + 1 < a {
      Arith.DivMod(x + 1, a, q, r + 1);
    } else {
      Arith.DivMod(x + 1, a, q + 1, 0);
    }
  }

  /** What `main` keeps while it works: the output file, where it writes next, and the new directory. */
  datatype Archive = Archive(file: Bytes, zsize: nat, cdir: Bytes, cnt: nat)

  /** Adding one file. The next write position leaves room for the directory entry's length, not the local
      header's, so 24 bytes stay unused. */
  function Added(a: Archive, f: Input, alignment: nat): (r: Archive)
    requires |a.file| <= a.zsize && alignment > 0
    ensures |r.file| + 24 == r.zsize
  {
    var z := Aligned(a.zsize, 50 + |f.name|, alignment);
    var e := EntryOf(f, z);
    LocalOffsets(e);
    Archive(a.file + Zeros(z - |a.file|) + LocalHeader(e) + f.content, z + 74 + |f.name| + |f.content|,
            a.cdir + CentralHeader(e), a.cnt + 1)
  }

  function Finished(a: Archive): Bytes
    requires |a.file| <= a.zsize
  {
    a.file + Zeros(a.zsize - |a.file|) + (a.cdir + EndRecords(a.cnt, |a.cdir|, a.zsize))
  }

  lemma EndSize(cnt: nat, size: nat, offset: nat)
    ensures |EndRecords(cnt, size, offset)| == 98
  {
    hide Concat;
    EndOffsets(cnt, size, offset);
  }

  const CHUNK: nat := 2097152

  class Zipalign {
    var file: Bytes
    var zsize: nat
    var cdir: Bytes
    var cnt: nat

    ghost function State(): Archive
      reads this
    {
      Archive(file, zsize, cdir, cnt)
    }

    constructor (a: Archive)
      ensures State() == a
    {
      file, zsize, cdir, cnt := a.file, a.zsize, a.cdir, a.cnt;
    }

    method Pwrite(off: nat, data: Bytes)
      modifies this`file
      ensures file == Written(old(file), off, data)
    {
      if data != [] {
        if off > |file| {
          file := file + Zeros(off - |file|) + data;
        } else {
          file := file[..off] + data + if off + |data| < |file| then file[off + |data|..] else [];
        }
      }
    }

    /** The copy goes in chunks; every read may return less than was asked for. */
    method CopyFile(content: Bytes, at: nat) returns (compsize: nat)
      requires |file| <= at
      modifies this`file
      ensures file == Written(old(file), at, content) && compsize == |content|
    {
      compsize := 0;
      while compsize < |content|
        invariant compsize <= |content|
        invariant file == Written(old(file), at, content[..compsize])
      {
        var most := |content| - compsize;
        if most > CHUNK {
          most := CHUNK;
        }
        var rc: nat :| 1 <= rc <= most;
        ghost var was := compsize;
        Pwrite(at + compsize, content[compsize..compsize + rc]);
        compsize := compsize + rc;
        WriteOn(old(file), at, content[..was], content[was..compsize]);
        assert content[..was] + content[was..compsize] == content[..compsize];
      }
      assert content[..compsize] == content;
    }

    method Align(hdrlen: nat, alignment: nat)
      requires alignment > 0
      modifies this`zsize
      ensures zsize == Aligned(old(zsize), hdrlen, alignment)
    {
      while (zsize + hdrlen) % alignment != 0
        invariant Aligned(zsize, hdrlen, alignment) == Aligned(old(zsize), hdrlen, alignment)
        decreases Shortfall(zsize + hdrlen, alignment)
      {
        NextRemainder(zsize + hdrlen, alignment);
        zsize := zsize + 1;
      }
    }

    method Add(f: Input, alignment: nat)
      requires |file| <= zsize && alignment > 0
      modifies this
      ensures State() == Added(old(State()), f, alignment)
    {
      hide Written, Aligned, Concat, Le;
      var hdrlen := 30 + |f.name| + (2 + 2 + 8 + 8);
      Align(hdrlen, alignment);
      var e := EntryOf(f, zsize);
      LocalOffsets(e);
      CentralOffsets(e);
      hide LocalHeader, CentralHeader;
      var compsize := CopyFile(f.content, zsize + hdrlen);
      Pwrite(zsize, LocalHeader(e));
      HeaderBefore(old(file), zsize, LocalHeader(e), f.content);
      hdrlen := 46 + |f.name| + (2 + 2 + 8 + 8 + 8);
      cdir := cdir + CentralHeader(e);
      cnt := cnt + 1;
      zsize := zsize + hdrlen + compsize;
    }

    method Finish()
      requires |file| <= zsize
      modifies this`file
      ensures file == Finished(old(State()))
    {
      EndSize(cnt, |cdir|, zsize);
      hide EndRecords, Written;
      WriteOn(file, zsize, cdir, EndRecords(cnt, |cdir|, zsize));
      WrittenPastEnd(file, zsize, cdir + EndRecords(cnt, |cdir|, zsize));
      Pwrite(zsize, cdir);
      Pwrite(zsize + |cdir|, EndRecords(cnt, |cdir|, zsize));
    }
  }

  /** Consecutive writes are one write. */
  lemma WriteOn(file: Bytes, at: nat, a: Bytes, b: Bytes)
    requires |file| <= at
    ensures Written(Written(file, at, a), at + |a|, b) == Written(file, at, a + b)
  {
  }

  lemma WrittenPastEnd(file: Bytes, at: nat, data: Bytes)
    requires |file| <= at && data != []
    ensures Written(file, at, data) == file + Zeros(at - |file|) + data
  {
  }

  /** The header fills the gap left before the content. */
  lemma HeaderBefore(file: Bytes, z: nat, header: Bytes, content: Bytes)
    requires |file| <= z && header != []
    ensures Written(Written(file, z + |header|, content), z, header) == file + Zeros(z - |file|) + header + content
  {
  }

  // ----- the whole program -----

  /** An error exit; a compaction that would write outside the directory; or the new archive. */
  datatype Outcome = Died | Overran | Wrote(file: Bytes)

  function Names(fs: seq<Input>): (names: seq<Bytes>)
    ensures |names| == |fs| && forall i :: 0 <= i < |fs| ==> names[i] == fs[i].name
  {
    if fs == [] then [] else Names(fs[..|fs| - 1]) + [fs[|fs| - 1].name]
  }

  predicate Distinct(names: seq<Bytes>) {
    forall i, j :: 0 <= i < j < |names| ==> names[i] != names[j]
  }

  function AddedAll(a: Archive, fs: seq<Input>, alignment: nat, n: nat): (r: Archive)
    requires |a.file| <= a.zsize && alignment > 0 && n <= |fs|
    ensures |r.file| <= r.zsize
  {
    if n == 0 then a else Added(AddedAll(a, fs, alignment, n - 1), fs[n - 1], alignment)
  }

  /** The compacted directory is no longer than the old one. */
  lemma {:induction false} CompactShrinks(c: Compactor, cnt: nat, names: seq<Bytes>)
    requires c.w <= |c.cdir|
    ensures var r := Compact(c, cnt, names); r.Compacted? ==> r.size <= |r.cdir|
    decreases cnt - c.idx
  {
    hide Read, CfileHdrSize;
    if More(c, cnt) && Read(c.cdir, c.o, 4) == CFILE_MAGIC && Fits(c, names) {
      if !Doomed(c, names) {
        SizeMoves(c.cdir, c.w, c.o);
      }
      CompactShrinks(Next(c, names), cnt, names);
    }
  }

  function Zipped(file: Bytes, junk: Bytes, fs: seq<Input>, alignment: nat): Outcome
    requires |junk| == BUFFER && alignment > 0
  {
    var d := Locate(file, junk);
    var (cnt, off, size) := if d.Missing? || d.cnt == 0 then (0, 0, 0) else (d.cnt, d.off, d.size);
    var cdir := Pread(file, off, size);
    if |cdir| != size || !Distinct(Names(fs)) then Died
    else
      var c := Compact(Start(cdir), cnt, Names(fs));
      if c.BadMagic? then Died
      else if c.Overrun? then Overran
      else
        CompactShrinks(Start(cdir), cnt, Names(fs));
        Wrote(Finished(AddedAll(Archive(file, |file|, c.cdir[..c.size], c.count), fs, alignment, |fs|)))
  }

  method AllDistinct(names: seq<Bytes>) returns (b: bool)
    ensures b == Distinct(names)
  {
    for i := 0 to |names|
      invariant forall p, q :: 0 <= p < i && p < q < |names| ==> names[p] != names[q]
    {
      for j := i + 1 to |names|
        invariant forall q :: i < q < j ==> names[i] != names[q]
      {
        if names[i] == names[j] {
          return false;
        }
      }
    }
    return true;
  }

  method Run(file: Bytes, buf: array<byte>, fs: seq<Input>, alignment: nat) returns (r: Outcome)
    requires buf.Length == BUFFER && alignment > 0
    modifies buf
    ensures r == Zipped(file, old(buf[..]), fs, alignment)
  {
    hide Locate, Compact, Added, Finished, Distinct, Names;
    var d := FindDirectory(file, buf);
    var cnt: nat, off: nat, size: nat := 0, 0, 0;
    if d.Directory? && d.cnt != 0 {
      cnt, off, size := d.cnt, d.off, d.size;
    }
    var read := Pread(file, off, size);
    if |read| != size {
      return Died;
    }
    var names := Names(fs);
    var distinct := AllDistinct(names);
    if !distinct {
      return Died;
    }
    var cdir := new byte[size](i requires 0 <= i < size => read[i]);
    assert cdir[..] == read;
    var c := CompactInPlace(cdir, cnt, names);
    if c.BadMagic? {
      return Died;
    }
    if c.Overrun? {
      return Overran;
    }
    CompactShrinks(Start(read), cnt, names);
    var z := new Zipalign(Archive(file, |file|, cdir[..c.size], c.count));
    ghost var a := z.State();
    for i := 0 to |fs|
      invariant z.State() == AddedAll(a, fs, alignment, i)
    {
      z.Add(fs[i], alignment);
    }
    z.Finish();
    return Wrote(z.file);
  }
}
