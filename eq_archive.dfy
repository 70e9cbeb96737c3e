/**
 * `EqArchive` (`crates/libeq_archive/src/lib.rs`): an editable list of
 * named files and the writer that lays them out as an archive: a header,
 * every file's compressed blocks, an index entry per file, and a footer.
 * The directory of the file names is written as one more file after the
 * others.  Compression is a parameter `z`; zlib is not part of the model.
 */
module EqArchives {
  import opened Wire
  import ArchiveCrc
  import Dir = ArchiveDirectory
  import opened ArchiveBlocks

  /** `UNCOMPRESSED_BLOCK_SIZE`: a file is cut into chunks of this many bytes, each compressed separately. */
  const UncompressedBlockSize: nat := 8192

  /** `Header::SIZE`. */
  const HeaderSize: nat := 12

  /** `Header::MAGIC_NUMBER`: the bytes "PFS " read as a little-endian u32. */
  const MagicNumber: u32 := 0x2053_4650

  /** `Header::VERSION`. */
  const Version: u32 := 0x0002_0000

  /** `Footer::FOOTER_STRING`: "STEVE". */
  const FooterString: Bytes := [0x53, 0x54, 0x45, 0x56, 0x45]

  /** The index entry's checksum in place of a name CRC for the directory. */
  const DirectoryCrc: u32 := 0xffff_ffff

  /** A stored file: its name and its contents. */
  type File = (Bytes, Bytes)

  // ---- push / remove

  /** The position of the first file called `name`. */
  function FirstMatch(files: seq<File>, name: Bytes): (r: Option<nat>)
    ensures r.Some? ==> r.value < |files| && files[r.value].0 == name
                        && forall j :: 0 <= j < r.value ==> files[j].0 != name
    ensures r.None? <==> forall j :: 0 <= j < |files| ==> files[j].0 != name
    decreases |files|
  {
    if files == [] then None
    else if files[0].0 == name then Some(0)
    else
      match FirstMatch(files[1..], name)
      case None => None
      case Some(i) => Some(i + 1)
  }

  /** What `remove` returns and leaves: the first file called `name`, taken out with `Vec::remove`. */
  function RemoveFirst(files: seq<File>, name: Bytes): (Option<File>, seq<File>)
  {
    match FirstMatch(files, name)
    case None => (None, files)
    case Some(i) => (Some(files[i]), files[..i] + files[i + 1..])
  }

  /** The number of files called `name`. */
  function Count(files: seq<File>, name: Bytes): nat
    decreases |files|
  {
    if files == [] then 0 else (if files[0].0 == name then 1 else 0) + Count(files[1..], name)
  }

  lemma {:induction false} CountAppend(a: seq<File>, b: seq<File>, name: Bytes)
    ensures Count(a + b, name) == Count(a, name) + Count(b, name)
    decreases |a|
  {
    if a == [] {
      assert a + b == b;
    } else {
      assert (a + b)[1..] == a[1..] + b;
      CountAppend(a[1..], b, name);
    }
  }

  lemma {:induction false} CountNone(files: seq<File>, name: Bytes)
    requires forall j :: 0 <= j < |files| ==> files[j].0 != name
    ensures Count(files, name) == 0
    decreases |files|
  {
    if files != [] {
      CountNone(files[1..], name);
    }
  }

  /**
   * `remove` finds nothing exactly when no file has that name; otherwise it
   * returns the first such file and keeps every other file, in order.
   */
  lemma RemoveFirstSpec(files: seq<File>, name: Bytes)
    ensures var (r, rest) := RemoveFirst(files, name);
      (r.None? <==> forall j :: 0 <= j < |files| ==> files[j].0 != name)
      && (r.None? ==> rest == files)
      && (r.Some? ==> exists i :: 0 <= i < |files| && r.value == files[i] && r.value.0 == name
                        && (forall j :: 0 <= j < i ==> files[j].0 != name)
                        && rest == files[..i] + files[i + 1..])
  {
    var m := FirstMatch(files, name);
    if m.Some? {
      var i := m.value;
      assert files[i] == RemoveFirst(files, name).0.value;
    }
  }

  /** `remove` takes out one file of that name if there is one, and no file of any other name. */
  lemma RemoveFirstCounts(files: seq<File>, name: Bytes, other: Bytes)
    ensures var rest := RemoveFirst(files, name).1;
      Count(rest, other) == Count(files, other) - (if other == name && Count(files, name) > 0 then 1 else 0)
  {
    var m := FirstMatch(files, name);
    match m
    case None =>
      CountNone(files, name);
    case Some(i) =>
      assert files == files[..i] + ([files[i]] + files[i + 1..]);
      CountAppend(files[..i], [files[i]] + files[i + 1..], other);
      CountAppend([files[i]], files[i + 1..], other);
      CountAppend(files[..i], files[i + 1..], other);
      assert [files[i]][1..] == files[..0];
      if other == name {
        CountAppend(files[..i], [files[i]] + files[i + 1..], name);
        CountAppend([files[i]], files[i + 1..], name);
      }
  }

  // ---- blocks of one file

  /** `data.chunks(8192)`, each chunk compressed by `z` into a block. */
  function FileBlocks(z: Bytes -> Bytes, data: Bytes): (bs: seq<Block>)
    decreases |data|
  {
    if data == [] then []
    else
      var n := if |data| < UncompressedBlockSize then |data| else UncompressedBlockSize;
      [Block(n, z(data[..n]))] + FileBlocks(z, data[n..])
  }

  /** The chunks cover the file: their lengths add up to its length, none is empty and none is over 8192 bytes. */
  lemma {:induction false} FileBlocksCover(z: Bytes -> Bytes, data: Bytes)
    ensures Unpacked(FileBlocks(z, data)) == |data|
    ensures forall b :: b in FileBlocks(z, data) ==> 0 < b.uncompressed_size <= UncompressedBlockSize
    ensures data == [] <==> FileBlocks(z, data) == []
    decreases |data|
  {
    if data != [] {
      var n := if |data| < UncompressedBlockSize then |data| else UncompressedBlockSize;
      FileBlocksCover(z, data[n..]);
    }
  }

  /** Decompressing a file's blocks with an inverse of `z` gives back the file. */
  lemma {:induction false} FileBlocksDecompress(z: Bytes -> Bytes, unz: Bytes -> Bytes, data: Bytes)
    requires forall c: Bytes :: |c| <= UncompressedBlockSize ==> unz(z(c)) == c
    ensures Decompress(unz, FileBlocks(z, data)) == data
    decreases |data|
  {
    if data != [] {
      var n := if |data| < UncompressedBlockSize then |data| else UncompressedBlockSize;
      var bs := FileBlocks(z, data);
      FileBlocksDecompress(z, unz, data[n..]);
      assert bs[1..] == FileBlocks(z, data[n..]);
      assert data == data[..n] + data[n..];
    }
  }

  // ---- the scan over the files

  /** `(filename, index_entry, blocks)` as the scan of `to_bytes` yields it. */
  datatype Entry = Entry(name: Option<Bytes>, index: IndexEntry, blocks: seq<Block>)

  function EntryCrc(name: Option<Bytes>): u32
  {
    match name
    case Some(f) => ArchiveCrc.NameCrc(f)
    case None => DirectoryCrc
  }

  /**
   * The `scan` of `to_bytes`: each file's blocks, and an index entry whose
   * `data_offset` is the running position, which then advances by the size
   * of those blocks.  `as u32` casts truncate; the `+=` on the position is
   * overflow-checked, so an archive of 4 GiB or more panics.
   */
  function Scan(z: Bytes -> Bytes, items: seq<(Option<Bytes>, Bytes)>, position: u32): (r: Fallible<seq<Entry>>)
    ensures r.Returns? ==> |r.value| == |items|
    decreases |items|
  {
    if items == [] then Returns([])
    else
      var e := ScanEntry(z, items[0], position);
      var next := Advance(e);
      if next >= Wrap32 then Panics else Prefix([e], Scan(z, items[1..], next))
  }

  /** One step of the scan: the file's blocks and its index entry at `position`. */
  function ScanEntry(z: Bytes -> Bytes, item: (Option<Bytes>, Bytes), position: u32): Entry
  {
    var (name, data) := item;
    Entry(name, IndexEntry(EntryCrc(name), position, |data| % Wrap32), FileBlocks(z, data))
  }

  /** `*position += blocks.iter().map(|b| b.size()).sum::<usize>() as u32`, before the overflow check. */
  function Advance(e: Entry): nat
  {
    e.index.data_offset + SizeTotal(e.blocks) % Wrap32
  }

  function Names(files: seq<File>): (names: seq<Bytes>)
    ensures |names| == |files|
  {
    seq(|files|, i requires 0 <= i < |files| => files[i].0)
  }

  /** The directory file `to_bytes` writes after the others. */
  function DirectoryData(files: seq<File>): Bytes
  {
    Dir.DirectoryBytes(Dir.Directory(Names(files)))
  }

  /** The files, then the directory with no name. */
  function Items(files: seq<File>): (items: seq<(Option<Bytes>, Bytes)>)
    ensures |items| == |files| + 1
  {
    seq(|files|, i requires 0 <= i < |files| => (Some(files[i].0), files[i].1)) + [(None, DirectoryData(files))]
  }

  /** Every block of every entry, in order. */
  function BlocksOf(es: seq<Entry>): seq<Block>
    decreases |es|
  {
    if es == [] then [] else es[0].blocks + BlocksOf(es[1..])
  }

  function CompressedData(es: seq<Entry>): Bytes
  {
    Flat(BlockBytes, BlocksOf(es))
  }

  /** The index entries, in file order. */
  function Indexes(es: seq<Entry>): (r: seq<IndexEntry>)
    ensures |r| == |es|
  {
    seq(|es|, i requires 0 <= i < |es| => es[i].index)
  }

  function IndexBytes(es: seq<Entry>): Bytes
  {
    Flat(IndexEntryBytes, Indexes(es))
  }

  /** `Header::to_bytes`. */
  function HeaderBytes(index_offset: u32): Bytes
  {
    LeU32(index_offset) + LeU32(MagicNumber) + LeU32(Version)
  }

  /** `Footer::to_bytes` with a zero timestamp. */
  function FooterBytes(): Bytes
  {
    FooterString + LeU32(0)
  }

  /**
   * The assembly at the end of `to_bytes`: header, compressed blocks, entry
   * count, index, footer.  `index_offset` is the compressed length cast to
   * u32 plus the header size, an overflow-checked addition.
   */
  function Assemble(es: seq<Entry>): Fallible<Bytes>
  {
    var compressed := CompressedData(es);
    var index_offset := |compressed| % Wrap32 + HeaderSize;
    if index_offset >= Wrap32 then Panics
    else Returns(HeaderBytes(index_offset) + compressed + LeU32(|es| % Wrap32) + IndexBytes(es) + FooterBytes())
  }

  /** The archive laid out with the running position starting at `start`. */
  function LayoutBytes(files: seq<File>, z: Bytes -> Bytes, start: u32): Fallible<Bytes>
  {
    match Scan(z, Items(files), start)
    case Panics => Panics
    case Returns(es) => Assemble(es)
  }

  /** `EqArchive::to_bytes` as written: positions count from 0. */
  function ArchiveBytes(files: seq<File>, z: Bytes -> Bytes): Fallible<Bytes>
  {
    LayoutBytes(files, z, 0)
  }

  /** `to_bytes` with positions counted from the start of the file, as `Archive::parse` keys its blocks. */
  function ArchiveBytesFixed(files: seq<File>, z: Bytes -> Bytes): Fallible<Bytes>
  {
    LayoutBytes(files, z, HeaderSize)
  }

  function Prefix(acc: seq<Entry>, r: Fallible<seq<Entry>>): Fallible<seq<Entry>>
  {
    match r
    case Panics => Panics
    case Returns(es) => Returns(acc + es)
  }

  lemma PrefixPrefix(a: seq<Entry>, b: seq<Entry>, r: Fallible<seq<Entry>>)
    ensures Prefix(a, Prefix(b, r)) == Prefix(a + b, r)
  {
    if r.Returns? {
      assert a + (b + r.value) == (a + b) + r.value;
    }
  }

  class EqArchive {
    var files: seq<File>

    /** `EqArchive::new`. */
    constructor()
      ensures files == []
    {
      files := [];
    }

    /** `EqArchive::push`: the file goes on the end. */
    method Push(filename: Bytes, data: Bytes)
      modifies this
      ensures files == old(files) + [(filename, data)]
    {
      files := files + [(filename, data)];
    }

    /** `EqArchive::remove`: the first file with exactly that name is taken out and returned. */
    method Remove(filename: Bytes) returns (r: Option<File>)
      modifies this
      ensures (r, files) == RemoveFirst(old(files), filename)
    {
      var idx := 0;
      while idx < |files| && files[idx].0 != filename
        invariant 0 <= idx <= |files|
        invariant forall j :: 0 <= j < idx ==> files[j].0 != filename
      {
        idx := idx + 1;
      }
      if idx == |files| {
        r := None;
      } else {
        r := Some(files[idx]);
        files := files[..idx] + files[idx + 1..];
      }
    }

    /** `EqArchive::to_bytes`: the scan with a running position, then the assembly. */
    method ToBytes(z: Bytes -> Bytes) returns (r: Fallible<Bytes>)
      ensures r == ArchiveBytes(files, z)
    {
      var items := Items(files);
      var position: u32 := 0;
      var entries: seq<Entry> := [];
      var i := 0;
      ghost var whole := Scan(z, items, 0);
      if whole.Returns? {
        assert [] + whole.value == whole.value;
      }
      while i < |items|
        invariant 0 <= i <= |items|
        invariant whole == Prefix(entries, Scan(z, items[i..], position))
      {
        assert items[i..][0] == items[i] && items[i..][1..] == items[i + 1..];
        var e := ScanEntry(z, items[i], position);
        var next := Advance(e);
        if next >= Wrap32 {
          return Panics;
        }
        PrefixPrefix(entries, [e], Scan(z, items[i + 1..], next));
        entries := entries + [e];
        position := next;
        i := i + 1;
      }
      assert Scan(z, items[i..], position) == Returns([]);
      assert entries + [] == entries;
      r := Assemble(entries);
    }
  }

  /** The sequence of calls in the `modify_archive` test, and the files it leaves. */
  method ModifyArchive() returns (files: seq<File>)
    ensures files == [([0x74, 0x65, 0x73, 0x74, 0x31, 0x2e, 0x62, 0x6d, 0x70], [])]
  {
    var test0: Bytes := [0x74, 0x65, 0x73, 0x74, 0x30, 0x2e, 0x62, 0x6d, 0x70];
    var test1: Bytes := [0x74, 0x65, 0x73, 0x74, 0x31, 0x2e, 0x62, 0x6d, 0x70];
    var archive := new EqArchive();
    archive.Push(test0, []);
    archive.Push(test1, []);
    assert archive.files == [(test0, []), (test1, [])];
    var removed := archive.Remove(test0);
    assert FirstMatch(archive.files, test0) == None;
    files := archive.files;
  }
}
