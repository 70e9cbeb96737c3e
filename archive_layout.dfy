/**
 * What `EqArchive::to_bytes` lays out, read back the way `Archive::parse`
 * and `IndexEntry::get_blocks` read it (`crates/libeq_archive/src/lib.rs`,
 * `crates/libeq_archive/src/parser/archive.rs`).
 */
module ArchiveLayout {
  import opened Wire
  import opened ArchiveBlocks
  import opened EqArchives
  import ArchiveCrc
  import Dir = ArchiveDirectory

  // ---- sums over runs of blocks

  lemma {:induction false} SizeTotalAppend(a: seq<Block>, b: seq<Block>)
    ensures SizeTotal(a + b) == SizeTotal(a) + SizeTotal(b)
    decreases |a|
  {
    if a == [] {
      assert a + b == b;
    } else {
      assert (a + b)[1..] == a[1..] + b;
      SizeTotalAppend(a[1..], b);
    }
  }

  lemma {:induction false} UnpackedAppend(a: seq<Block>, b: seq<Block>)
    ensures Unpacked(a + b) == Unpacked(a) + Unpacked(b)
    decreases |a|
  {
    if a == [] {
      assert a + b == b;
    } else {
      assert (a + b)[1..] == a[1..] + b;
      UnpackedAppend(a[1..], b);
    }
  }

  /** The written blocks take up exactly their sizes. */
  lemma {:induction false} FlatBlocksLength(bs: seq<Block>)
    ensures |Flat(BlockBytes, bs)| == SizeTotal(bs)
    decreases |bs|
  {
    if bs != [] {
      FlatBlocksLength(bs[1..]);
    }
  }

  lemma {:induction false} SizeWithin(bs: seq<Block>, b: Block)
    requires b in bs
    ensures Size(b) <= SizeTotal(bs)
    decreases |bs|
  {
    if bs[0] != b {
      SizeWithin(bs[1..], b);
    }
  }

  lemma BlocksOfPrefix(es: seq<Entry>, k: nat)
    requires 1 <= k <= |es|
    ensures BlocksOf(es[..k]) == es[0].blocks + BlocksOf(es[1..][..k - 1])
  {
    assert es[..k][1..] == es[1..][..k - 1];
  }

  lemma BlocksOfAt(es: seq<Entry>, i: nat)
    requires i < |es|
    ensures BlocksOf(es[i..]) == es[i].blocks + BlocksOf(es[i + 1..])
  {
    assert es[i..][1..] == es[i + 1..];
  }

  lemma {:induction false} BlocksOfSplit(es: seq<Entry>, i: nat)
    requires i <= |es|
    ensures BlocksOf(es) == BlocksOf(es[..i]) + BlocksOf(es[i..])
    decreases i
  {
    if i == 0 {
      assert es[..0] == [] && es[0..] == es;
    } else {
      BlocksOfSplit(es[1..], i - 1);
      assert es[1..][i - 1..] == es[i..];
      BlocksOfPrefix(es, i);
    }
  }

  // ---- the scan

  /** Entries placed one after another from `p`: each next one at the previous one's advanced position. */
  ghost predicate Chained(es: seq<Entry>, p: nat)
  {
    (|es| > 0 ==> es[0].index.data_offset == p)
    && forall i :: 0 <= i < |es| - 1 ==> es[i + 1].index.data_offset == Advance(es[i])
  }

  /**
   * The entries of the scan are chained from the starting position, and
   * each holds its own file's name, checksum, size and blocks.
   */
  lemma {:induction false} ScanOffsets(z: Bytes -> Bytes, items: seq<(Option<Bytes>, Bytes)>, p: u32)
    requires Scan(z, items, p).Returns?
    ensures var es := Scan(z, items, p).value;
      Chained(es, p)
      && forall i :: 0 <= i < |es| ==> es[i] == ScanEntry(z, items[i], es[i].index.data_offset)
    decreases |items|
  {
    if items != [] {
      var e := ScanEntry(z, items[0], p);
      var next := Advance(e);
      assert next < Wrap32;
      ScanOffsets(z, items[1..], next);
      var rest := Scan(z, items[1..], next).value;
      var es := Scan(z, items, p).value;
      assert es == [e] + rest;
      forall i | 0 <= i < |es| ensures es[i] == ScanEntry(z, items[i], es[i].index.data_offset) {
        if i > 0 {
          assert es[i] == rest[i - 1] && items[i] == items[1..][i - 1];
        }
      }
      forall i | 0 <= i < |es| - 1 ensures es[i + 1].index.data_offset == Advance(es[i]) {
        assert es[i + 1] == rest[i];
        if i > 0 {
          assert es[i] == rest[i - 1];
        }
      }
    }
  }

  /** When the blocks fit below 4 GiB, each chained entry sits at the start plus the size of every block before it. */
  lemma {:induction false} ChainPositions(es: seq<Entry>, p: nat)
    requires Chained(es, p)
    requires p + SizeTotal(BlocksOf(es)) < Wrap32
    ensures forall i :: 0 <= i < |es| ==> es[i].index.data_offset == p + SizeTotal(BlocksOf(es[..i]))
    decreases |es|
  {
    if es != [] {
      var e := es[0];
      var rest := es[1..];
      var next := p + SizeTotal(e.blocks);
      SizeTotalAppend(e.blocks, BlocksOf(rest));
      assert SizeTotal(e.blocks) % Wrap32 == SizeTotal(e.blocks);
      assert Chained(rest, next) by {
        forall i | 0 <= i < |rest| - 1 ensures rest[i + 1].index.data_offset == Advance(rest[i]) {
          assert rest[i + 1] == es[i + 2] && rest[i] == es[i + 1];
        }
        if |rest| > 0 {
          assert rest[0] == es[1];
        }
      }
      ChainPositions(rest, next);
      forall i | 0 <= i < |es| ensures es[i].index.data_offset == p + SizeTotal(BlocksOf(es[..i])) {
        if i == 0 {
          assert es[..0] == [];
        } else {
          assert es[i] == rest[i - 1];
          BlocksOfPrefix(es, i);
          SizeTotalAppend(e.blocks, BlocksOf(rest[..i - 1]));
        }
      }
    }
  }

  /** Every block the scan makes holds at least one byte of its file. */
  lemma {:induction false} ScanBlocksNonEmpty(z: Bytes -> Bytes, items: seq<(Option<Bytes>, Bytes)>, p: u32)
    requires Scan(z, items, p).Returns?
    ensures forall b :: b in BlocksOf(Scan(z, items, p).value) ==> b.uncompressed_size > 0
    decreases |items|
  {
    if items != [] {
      var e := ScanEntry(z, items[0], p);
      var next := Advance(e);
      FileBlocksCover(z, items[0].1);
      ScanBlocksNonEmpty(z, items[1..], next);
    }
  }

  /** Offsets never decrease along the scan, so the last entry has the largest. */
  lemma {:induction false} LastIsLargest(es: seq<Entry>, i: nat)
    requires i < |es|
    requires forall j :: 0 <= j < |es| - 1 ==> es[j + 1].index.data_offset == Advance(es[j])
    ensures es[i].index.data_offset <= es[|es| - 1].index.data_offset
    decreases |es| - i
  {
    if i < |es| - 1 {
      LastIsLargest(es, i + 1);
    }
  }

  /**
   * The entries `to_bytes` writes: one per file, with the file's name CRC,
   * size and blocks, then the directory's, with checksum 0xffffffff and the
   * largest offset (the entry `Archive::filenames` picks with `max_by_key`).
   */
  lemma ArchiveEntries(files: seq<File>, z: Bytes -> Bytes, start: u32)
    requires Scan(z, Items(files), start).Returns?
    ensures var es := Scan(z, Items(files), start).value;
      |es| == |files| + 1
      && (forall i :: 0 <= i < |files| ==>
            es[i].name == Some(files[i].0)
            && es[i].index.filename_crc == ArchiveCrc.NameCrc(files[i].0)
            && es[i].index.uncompressed_size == |files[i].1| % Wrap32
            && es[i].blocks == FileBlocks(z, files[i].1))
      && es[|files|].name.None?
      && es[|files|].index.filename_crc == DirectoryCrc
      && es[|files|].blocks == FileBlocks(z, DirectoryData(files))
      && (forall i :: 0 <= i < |es| ==> es[i].index.data_offset <= es[|files|].index.data_offset)
  {
    var items := Items(files);
    var es := Scan(z, items, start).value;
    ScanOffsets(z, items, start);
    forall i | 0 <= i < |files|
      ensures es[i].name == Some(files[i].0) && es[i].index.filename_crc == ArchiveCrc.NameCrc(files[i].0)
    {
      assert items[i] == (Some(files[i].0), files[i].1);
    }
    assert items[|files|] == (None, DirectoryData(files));
    forall i | 0 <= i < |es| ensures es[i].index.data_offset <= es[|files|].index.data_offset {
      LastIsLargest(es, i);
    }
  }

  // ---- reading one file back

  /** A file's own blocks are the shortest run from its first block that adds up to its size. */
  lemma FirstExactRun(bs: seq<Block>, later: seq<Block>, want: nat)
    requires bs != [] && Unpacked(bs) == want
    requires forall b :: b in bs ==> b.uncompressed_size > 0
    ensures FirstExact(bs + later, 0, want, |bs|)
  {
    assert (bs + later)[..|bs|] == bs;
    forall j | 1 <= j < |bs| ensures Unpacked((bs + later)[..j]) < want {
      assert (bs + later)[..j] == bs[..j];
      assert bs == bs[..j] + bs[j..];
      UnpackedAppend(bs[..j], bs[j..]);
      assert bs[j..][0] == bs[j] && bs[j] in bs;
    }
  }

  /** The last of a run's blocks adds its size to the run's total. */
  lemma SizeTotalLast(bs: seq<Block>)
    requires bs != []
    ensures SizeTotal(bs) == SizeTotal(bs[..|bs| - 1]) + Size(bs[|bs| - 1])
  {
    var n := |bs|;
    assert bs == bs[..n - 1] + [bs[n - 1]];
    SizeTotalAppend(bs[..n - 1], [bs[n - 1]]);
    assert [bs[n - 1]][1..] == bs[..0];
  }

  /** A range query from a key between the keys of blocks `j - 1` and `j` yields the blocks from the `j`-th on. */
  lemma RangeFrom(all: seq<Block>, j: nat, base: nat, k: nat)
    requires j <= |all|
    requires j > 0 ==> base + SizeTotal(all[..j - 1]) < k
    requires k <= base + SizeTotal(all[..j])
    ensures Values(From(KeyBlocks(base, all), k)) == all[j..]
  {
    FromKeyBlocks(base, all, j, k);
    KeyBlocksShape(base + SizeTotal(all[..j]), all[j..]);
  }

  /** The blocks of all entries, cut at entry `i`. */
  lemma EntryBlocks(es: seq<Entry>, i: nat)
    requires i < |es|
    ensures var before := BlocksOf(es[..i]);
      |before| <= |BlocksOf(es)|
      && BlocksOf(es)[..|before|] == before
      && BlocksOf(es)[|before|..] == es[i].blocks + BlocksOf(es[i + 1..])
  {
    BlocksOfSplit(es, i);
    BlocksOfAt(es, i);
  }

  /**
   * Entries chained from `p` and keyed from `base`: when `base` is at least
   * `p` but less than `p` plus any block's size, the range query at an
   * entry's position starts at that entry's first block.
   */
  lemma ChainRange(es: seq<Entry>, p: nat, base: nat, i: nat)
    requires Chained(es, p)
    requires p + SizeTotal(BlocksOf(es)) < Wrap32
    requires p <= base && forall b :: b in BlocksOf(es) ==> base < p + Size(b)
    requires i < |es|
    ensures Values(From(KeyBlocks(base, BlocksOf(es)), es[i].index.data_offset)) == es[i].blocks + BlocksOf(es[i + 1..])
  {
    ChainPositions(es, p);
    EntryBlocks(es, i);
    KeyBetween(BlocksOf(es), BlocksOf(es[..i]), p, base, es[i].index.data_offset);
    RangeFrom(BlocksOf(es), |BlocksOf(es[..i])|, base, es[i].index.data_offset);
  }

  /** The position `p + SizeTotal(before)` lies after the key of the last block of `before` and no later than the next one's. */
  lemma KeyBetween(all: seq<Block>, before: seq<Block>, p: nat, base: nat, k: nat)
    requires |before| <= |all| && all[..|before|] == before
    requires k == p + SizeTotal(before)
    requires p <= base && forall b :: b in all ==> base < p + Size(b)
    ensures before != [] ==> base + SizeTotal(all[..|before| - 1]) < k
    ensures k <= base + SizeTotal(all[..|before|])
  {
    var j := |before|;
    if j > 0 {
      SizeTotalLast(before);
      assert all[..j - 1] == before[..j - 1];
      assert before[j - 1] == all[j - 1] && all[j - 1] in all;
    }
  }

  /** An entry whose recorded size is what its blocks unpack to, none of which is empty. */
  ghost predicate Coherent(e: Entry)
  {
    e.index.uncompressed_size == Unpacked(e.blocks)
    && (e.blocks == [] <==> e.index.uncompressed_size == 0)
    && forall b :: b in e.blocks ==> b.uncompressed_size > 0
  }

  lemma ScanEntryCoherent(z: Bytes -> Bytes, item: (Option<Bytes>, Bytes), position: u32)
    requires |item.1| < Wrap32
    ensures Coherent(ScanEntry(z, item, position))
  {
    FileBlocksCover(z, item.1);
  }

  /** When the range query at its position starts with its own blocks, `get_blocks` (empty files handled) returns them. */
  lemma GetOwn(e: Entry, m: BlockMap, later: seq<Block>)
    requires Values(From(m, e.index.data_offset)) == e.blocks + later
    requires Coherent(e)
    ensures GetBlocksFixed(e.index, m) == Returns(e.blocks)
  {
    if e.blocks != [] {
      FirstExactRun(e.blocks, later, Unpacked(e.blocks));
      GatherComplete(e.blocks + later, 0, Unpacked(e.blocks), |e.blocks|);
      assert (e.blocks + later)[..|e.blocks|] == e.blocks;
    }
  }

  /**
   * With positions counted as the block map keys them, `get_blocks` (with
   * empty files handled) gives back exactly each entry's own blocks.
   */
  lemma ReadBack(z: Bytes -> Bytes, items: seq<(Option<Bytes>, Bytes)>, p: u32, i: nat)
    requires Scan(z, items, p).Returns?
    requires p + SizeTotal(BlocksOf(Scan(z, items, p).value)) < Wrap32
    requires i < |items| && |items[i].1| < Wrap32
    ensures var es := Scan(z, items, p).value;
      GetBlocksFixed(es[i].index, KeyBlocks(p, BlocksOf(es))) == Returns(es[i].blocks)
  {
    var es := Scan(z, items, p).value;
    ScanOffsets(z, items, p);
    ScanEntryCoherent(z, items[i], es[i].index.data_offset);
    ChainRange(es, p, p, i);
    GetOwn(es[i], KeyBlocks(p, BlocksOf(es)), BlocksOf(es[i + 1..]));
  }

  /** A run of blocks that fits below 4 GiB is written with exact length words. */
  lemma BlocksWellFormed(bs: seq<Block>)
    requires SizeTotal(bs) < Wrap32
    ensures forall b :: b in bs ==> BlockWellFormed(b)
  {
    forall b | b in bs ensures BlockWellFormed(b) {
      SizeWithin(bs, b);
    }
  }

  /**
   * Laid out with positions counted from the start of the file, every file
   * of the archive is found again: the block map `Archive::parse` builds
   * from the compressed data gives each entry exactly its own blocks.
   */
  lemma FixedArchiveReadsBack(files: seq<File>, z: Bytes -> Bytes, i: nat)
    requires Scan(z, Items(files), HeaderSize).Returns?
    requires HeaderSize + SizeTotal(BlocksOf(Scan(z, Items(files), HeaderSize).value)) < Wrap32
    requires i < |files| + 1 && |Items(files)[i].1| < Wrap32
    ensures var es := Scan(z, Items(files), HeaderSize).value;
      GetBlocksFixed(es[i].index, ParseBlocks(CompressedData(es), HeaderSize)) == Returns(es[i].blocks)
  {
    var es := Scan(z, Items(files), HeaderSize).value;
    BlocksWellFormed(BlocksOf(es));
    ParseBlocksRoundTrip(HeaderSize, BlocksOf(es));
    ReadBack(z, Items(files), HeaderSize, i);
  }

  /** Decompressed with an inverse of `z`, the blocks found for a file are the file. */
  lemma FixedArchiveFileContents(files: seq<File>, z: Bytes -> Bytes, unz: Bytes -> Bytes, i: nat)
    requires forall c: Bytes :: |c| <= UncompressedBlockSize ==> unz(z(c)) == c
    requires Scan(z, Items(files), HeaderSize).Returns?
    requires HeaderSize + SizeTotal(BlocksOf(Scan(z, Items(files), HeaderSize).value)) < Wrap32
    requires i < |files| && |files[i].1| < Wrap32
    ensures var es := Scan(z, Items(files), HeaderSize).value;
      var found := GetBlocksFixed(es[i].index, ParseBlocks(CompressedData(es), HeaderSize));
      found.Returns? && Decompress(unz, found.value) == files[i].1
  {
    assert Items(files)[i] == (Some(files[i].0), files[i].1);
    FixedArchiveReadsBack(files, z, i);
    ArchiveEntries(files, z, HeaderSize);
    FileBlocksDecompress(z, unz, files[i].1);
  }

  /** The directory found again lists the archive's file names, in order. */
  lemma FixedArchiveDirectory(files: seq<File>, z: Bytes -> Bytes, unz: Bytes -> Bytes)
    requires forall c: Bytes :: |c| <= UncompressedBlockSize ==> unz(z(c)) == c
    requires Scan(z, Items(files), HeaderSize).Returns?
    requires HeaderSize + SizeTotal(BlocksOf(Scan(z, Items(files), HeaderSize).value)) < Wrap32
    requires |DirectoryData(files)| < Wrap32
    requires Dir.WellFormed(Dir.Directory(Names(files)))
    ensures var es := Scan(z, Items(files), HeaderSize).value;
      var found := GetBlocksFixed(es[|files|].index, ParseBlocks(CompressedData(es), HeaderSize));
      found.Returns? && Dir.ParseDirectory(Decompress(unz, found.value)) == Done(Dir.Directory(Names(files)), [])
  {
    assert Items(files)[|files|] == (None, DirectoryData(files));
    FixedArchiveReadsBack(files, z, |files|);
    ArchiveEntries(files, z, HeaderSize);
    FileBlocksDecompress(z, unz, DirectoryData(files));
    Dir.DirectoryRoundTrip(Dir.Directory(Names(files)), []);
    assert DirectoryData(files) + [] == DirectoryData(files);
  }

  // ---- the bytes around the blocks

  lemma HeaderBytesRead(io: u32, tail: Bytes)
    ensures U32(HeaderBytes(io) + tail) == Done(io, LeU32(MagicNumber) + LeU32(Version) + tail)
    ensures U32(LeU32(MagicNumber) + LeU32(Version) + tail) == Done(MagicNumber, LeU32(Version) + tail)
    ensures U32(LeU32(Version) + tail) == Done(Version, tail)
  {
    assert HeaderBytes(io) + tail == LeU32(io) + (LeU32(MagicNumber) + LeU32(Version) + tail);
    U32RoundTrip(io, LeU32(MagicNumber) + LeU32(Version) + tail);
    assert LeU32(MagicNumber) + LeU32(Version) + tail == LeU32(MagicNumber) + (LeU32(Version) + tail);
    U32RoundTrip(MagicNumber, LeU32(Version) + tail);
    U32RoundTrip(Version, tail);
  }

  lemma IndexComplete()
    ensures Complete(ParseIndexEntry, IndexEntryBytes, Any)
  {
    forall x: IndexEntry, rest: Bytes {:trigger ParseIndexEntry(IndexEntryBytes(x) + rest)}
      ensures ParseIndexEntry(IndexEntryBytes(x) + rest) == Done(x, rest)
    {
      IndexEntryRoundTrip(x, rest);
    }
  }

  /**
   * The archive's frame: the header's `index_offset` is 12 plus the length
   * of the compressed data, which sits right after the header; at
   * `index_offset` come the entry count and the index entries, then the
   * footer.
   */
  lemma ArchiveFrame(files: seq<File>, z: Bytes -> Bytes, start: u32)
    requires LayoutBytes(files, z, start).Returns?
    requires |CompressedData(Scan(z, Items(files), start).value)| + HeaderSize < Wrap32
    ensures var es := Scan(z, Items(files), start).value;
      var c := CompressedData(es);
      var out := LayoutBytes(files, z, start).value;
      var io := HeaderSize + |c|;
      U32(out).Done? && U32(out).value == io
      && out[4..HeaderSize] == LeU32(MagicNumber) + LeU32(Version)
      && out[HeaderSize..io] == c
      && U32(out[io..]) == Done((|files| + 1) % Wrap32, IndexBytes(es) + FooterBytes())
      && Many(ParseIndexEntry, |es|, IndexBytes(es) + FooterBytes()) == Done(Indexes(es), FooterBytes())
  {
    var es := Scan(z, Items(files), start).value;
    assert LayoutBytes(files, z, start) == Assemble(es);
    AssembleFrame(es);
  }

  lemma Below(x: nat)
    requires x < Wrap32
    ensures x % Wrap32 == x
  {
  }

  /** The frame `Assemble` puts around the entries. */
  lemma AssembleFrame(es: seq<Entry>)
    requires |CompressedData(es)| + HeaderSize < Wrap32
    ensures var c := CompressedData(es);
      var io := HeaderSize + |c|;
      Assemble(es).Returns?
      && var out := Assemble(es).value;
      U32(out).Done? && U32(out).value == io
      && out[4..HeaderSize] == LeU32(MagicNumber) + LeU32(Version)
      && out[HeaderSize..io] == c
      && U32(out[io..]) == Done(|es| % Wrap32, IndexBytes(es) + FooterBytes())
      && Many(ParseIndexEntry, |es|, IndexBytes(es) + FooterBytes()) == Done(Indexes(es), FooterBytes())
  {
    var c := CompressedData(es);
    var io := HeaderSize + |c|;
    Below(|c|);
    assert Assemble(es) == Returns(HeaderBytes(io) + c + LeU32(|es| % Wrap32) + IndexBytes(es) + FooterBytes());
    FrameBytes(io, c, |es| % Wrap32, IndexBytes(es), FooterBytes());
    IndexComplete();
    ManyRoundTrip(ParseIndexEntry, IndexEntryBytes, Any, Indexes(es), FooterBytes());
  }

  /** Header, data, count word, index and footer, laid end to end. */
  lemma FrameBytes(io: u32, c: Bytes, n: u32, ix: Bytes, f: Bytes)
    requires io == HeaderSize + |c|
    ensures var out := HeaderBytes(io) + c + LeU32(n) + ix + f;
      U32(out).Done? && U32(out).value == io
      && out[4..HeaderSize] == LeU32(MagicNumber) + LeU32(Version)
      && out[HeaderSize..io] == c
      && U32(out[io..]) == Done(n, ix + f)
  {
    var tail := LeU32(n) + ix + f;
    var out := HeaderBytes(io) + c + LeU32(n) + ix + f;
    assert out == HeaderBytes(io) + (c + tail);
    HeaderPart(io, c, tail);
    assert out[io..] == LeU32(n) + (ix + f);
    U32RoundTrip(n, ix + f);
  }

  lemma HeaderPart(io: u32, c: Bytes, tail: Bytes)
    requires io == HeaderSize + |c|
    ensures var out := HeaderBytes(io) + (c + tail);
      U32(out).Done? && U32(out).value == io
      && out[4..HeaderSize] == LeU32(MagicNumber) + LeU32(Version)
      && out[HeaderSize..io] == c
      && out[io..] == tail
  {
    var out := HeaderBytes(io) + (c + tail);
    HeaderBytesRead(io, c + tail);
    assert |HeaderBytes(io)| == HeaderSize;
    assert out[HeaderSize..] == c + tail;
  }

  // ---- as written: positions from 0

  /**
   * As written, every entry's `data_offset` is 12 less than the key under
   * which `Archive::parse` files the entry's first block.
   */
  lemma AsWrittenOffsetsLag(z: Bytes -> Bytes, items: seq<(Option<Bytes>, Bytes)>, i: nat)
    requires Scan(z, items, 0).Returns?
    requires SizeTotal(BlocksOf(Scan(z, items, 0).value)) < Wrap32
    requires i < |items| && Scan(z, items, 0).value[i].blocks != []
    ensures var es := Scan(z, items, 0).value;
      var j := |BlocksOf(es[..i])|;
      j < |BlocksOf(es)| && KeyBlocks(HeaderSize, BlocksOf(es))[j].0 == es[i].index.data_offset + HeaderSize
  {
    var es := Scan(z, items, 0).value;
    ScanOffsets(z, items, 0);
    ChainPositions(es, 0);
    EntryBlocks(es, i);
    KeyBlocksShape(HeaderSize, BlocksOf(es));
  }

  /**
   * As written, `get_blocks` still finds each file when every block is more
   * than 12 bytes long (a block's header alone is 8), because the range
   * query skips ahead to the next key.
   */
  lemma AsWrittenReadsBackLargeBlocks(z: Bytes -> Bytes, items: seq<(Option<Bytes>, Bytes)>, i: nat)
    requires Scan(z, items, 0).Returns?
    requires SizeTotal(BlocksOf(Scan(z, items, 0).value)) < Wrap32
    requires forall b :: b in BlocksOf(Scan(z, items, 0).value) ==> Size(b) > HeaderSize
    requires i < |items| && |items[i].1| < Wrap32
    ensures var es := Scan(z, items, 0).value;
      GetBlocksFixed(es[i].index, KeyBlocks(HeaderSize, BlocksOf(es))) == Returns(es[i].blocks)
  {
    var es := Scan(z, items, 0).value;
    ScanOffsets(z, items, 0);
    ScanEntryCoherent(z, items[i], es[i].index.data_offset);
    ChainRange(es, 0, HeaderSize, i);
    GetOwn(es[i], KeyBlocks(HeaderSize, BlocksOf(es)), BlocksOf(es[i + 1..]));
  }

  /**
   * The shortest zlib stream: a 2-byte header, an empty final deflate
   * block of 2 bytes and the 4-byte Adler-32 checksum.
   */
  const ZlibMinimum: nat := 8

  lemma {:induction false} FileBlocksAtLeast(z: Bytes -> Bytes, data: Bytes)
    requires forall c: Bytes :: 0 < |c| <= UncompressedBlockSize ==> |z(c)| >= ZlibMinimum
    ensures forall b :: b in FileBlocks(z, data) ==> |b.compressed_data| >= ZlibMinimum
    decreases |data|
  {
    if data != [] {
      var n := if |data| < UncompressedBlockSize then |data| else UncompressedBlockSize;
      assert |data[..n]| == n;
      FileBlocksAtLeast(z, data[n..]);
    }
  }

  lemma {:induction false} ScanBlocksAtLeast(z: Bytes -> Bytes, items: seq<(Option<Bytes>, Bytes)>, p: u32)
    requires forall c: Bytes :: 0 < |c| <= UncompressedBlockSize ==> |z(c)| >= ZlibMinimum
    requires Scan(z, items, p).Returns?
    ensures forall b :: b in BlocksOf(Scan(z, items, p).value) ==> Size(b) > HeaderSize
    decreases |items|
  {
    if items != [] {
      var e := ScanEntry(z, items[0], p);
      FileBlocksAtLeast(z, items[0].1);
      ScanBlocksAtLeast(z, items[1..], Advance(e));
    }
  }

  /**
   * With a compressor whose every output is at least as long as the
   * shortest zlib stream, as `to_bytes` uses, every block is over 12
   * bytes, so libeq's own `get_blocks` finds each file of an archive
   * written as the source writes it.
   */
  lemma AsWrittenReadsBackZlib(z: Bytes -> Bytes, items: seq<(Option<Bytes>, Bytes)>, i: nat)
    requires forall c: Bytes :: 0 < |c| <= UncompressedBlockSize ==> |z(c)| >= ZlibMinimum
    requires Scan(z, items, 0).Returns?
    requires SizeTotal(BlocksOf(Scan(z, items, 0).value)) < Wrap32
    requires i < |items| && |items[i].1| < Wrap32
    ensures var es := Scan(z, items, 0).value;
      GetBlocksFixed(es[i].index, KeyBlocks(HeaderSize, BlocksOf(es))) == Returns(es[i].blocks)
  {
    ScanBlocksAtLeast(z, items, 0);
    AsWrittenReadsBackLargeBlocks(z, items, i);
  }

  /** Storing each chunk as it is: a stand-in compressor whose blocks can be 12 bytes or shorter. */
  function Stored(c: Bytes): Bytes
  {
    c
  }

  lemma OneChunk(z: Bytes -> Bytes, data: Bytes)
    requires 0 < |data| <= UncompressedBlockSize
    ensures FileBlocks(z, data) == [Block(|data|, z(data))]
  {
    assert data[..|data|] == data && data[|data|..] == [];
  }

  lemma SizeTotalOne(b: Block)
    ensures SizeTotal([b]) == Size(b)
  {
    assert [b][1..] == [];
  }

  lemma ScanPair(z: Bytes -> Bytes, x0: (Option<Bytes>, Bytes), x1: (Option<Bytes>, Bytes), p: u32)
    requires Advance(ScanEntry(z, x0, p)) < Wrap32
    requires Advance(ScanEntry(z, x1, Advance(ScanEntry(z, x0, p)))) < Wrap32
    ensures var e0 := ScanEntry(z, x0, p);
      Scan(z, [x0, x1], p) == Returns([e0, ScanEntry(z, x1, Advance(e0))])
  {
    var e0 := ScanEntry(z, x0, p);
    var q := Advance(e0);
    var e1 := ScanEntry(z, x1, q);
    assert [x0, x1][1..] == [x1] && [x1][1..] == [];
    assert Scan(z, [], Advance(e1)) == Returns([]);
    assert [e1] + [] == [e1];
    assert Scan(z, [x1], q) == Returns([e1]);
    assert [e0] + [e1] == [e0, e1];
  }

  lemma BlocksOfPair(e0: Entry, e1: Entry)
    ensures BlocksOf([e0, e1]) == e0.blocks + e1.blocks
  {
    assert [e0, e1][1..] == [e1] && [e1][1..] == [];
    assert BlocksOf([e1]) == e1.blocks + BlocksOf([]);
    assert e1.blocks + [] == e1.blocks;
  }

  lemma KeyPair(base: nat, b0: Block, b1: Block)
    ensures KeyBlocks(base, [b0, b1]) == [(base, b0), (base + Size(b0), b1)]
  {
    var k1 := base + Size(b0);
    assert [b0, b1][1..] == [b1] && [b1][1..] == [];
    assert Layout(Size, k1 + Size(b1), []) == [];
    assert Layout(Size, k1, [b1]) == [(k1, b1)];
    assert Layout(Size, base, [b0, b1]) == [(base, b0)] + [(k1, b1)];
  }

  /**
   * As written, with blocks of 12 bytes or fewer the second file's entry
   * points before the first file's block, and `get_blocks` returns the
   * first file's block for it.
   */
  lemma AsWrittenMisreads(a: Bytes, b: Bytes)
    ensures var es := Scan(Stored, [(Some(a), [1]), (Some(b), [2])], 0);
      es.Returns?
      && es.value[1].blocks == [Block(1, [2])]
      && GetBlocks(es.value[1].index, KeyBlocks(HeaderSize, BlocksOf(es.value))) == Returns([Block(1, [1])])
  {
    var d0: Bytes := [1];
    var d1: Bytes := [2];
    var b0 := Block(1, d0);
    var b1 := Block(1, d1);
    OneChunk(Stored, d0);
    OneChunk(Stored, d1);
    SizeTotalOne(b0);
    SizeTotalOne(b1);
    var x0 := (Some(a), d0);
    var x1 := (Some(b), d1);
    var e0 := ScanEntry(Stored, x0, 0);
    assert e0.blocks == [b0] && Advance(e0) == 9;
    var e1 := ScanEntry(Stored, x1, 9);
    assert e1.blocks == [b1] && Advance(e1) == 18;
    ScanPair(Stored, x0, x1, 0);
    BlocksOfPair(e0, e1);
    KeyPair(HeaderSize, b0, b1);
    var m := KeyBlocks(HeaderSize, [b0, b1]);
    FromBelow(m, 9);
    assert Values(m) == [b0, b1];
    assert Gather([b0, b1], 0, 1) == Returns([b0]);
  }

  // ---- as written: empty files

  /**
   * A file of no bytes has no blocks, so the blocks from its position on
   * belong to later files, the directory at least; `get_blocks` as written
   * then overshoots on the first of them and panics.
   */
  lemma EmptyFileUnreadable(files: seq<File>, z: Bytes -> Bytes, p: u32, i: nat)
    requires Scan(z, Items(files), p).Returns?
    requires p + SizeTotal(BlocksOf(Scan(z, Items(files), p).value)) < Wrap32
    requires i < |files| && files[i].1 == []
    ensures var es := Scan(z, Items(files), p).value;
      GetBlocks(es[i].index, KeyBlocks(p, BlocksOf(es))) == Panics
  {
    var items := Items(files);
    var es := Scan(z, items, p).value;
    ScanOffsets(z, items, p);
    ArchiveEntries(files, z, p);
    ChainRange(es, p, p, i);
    var e := es[i];
    assert items[i] == (Some(files[i].0), files[i].1);
    assert e.blocks == [] && e.index.uncompressed_size == 0;
    var later := BlocksOf(es[i + 1..]);
    assert [] + later == later;
    DirectoryHasBlocks(files, z, p, es);
    NoEmptyBlock(files, z, p, es);
    NonEmptyTail(es, i + 1, |files|);
    EmptyFilePanics(e.index, KeyBlocks(p, BlocksOf(es)));
  }

  /** The directory entry comes last and, its data being at least four bytes, has a block. */
  lemma DirectoryHasBlocks(files: seq<File>, z: Bytes -> Bytes, p: u32, es: seq<Entry>)
    requires Scan(z, Items(files), p) == Returns(es)
    ensures |es| == |files| + 1 && es[|files|].blocks != []
  {
    ArchiveEntries(files, z, p);
    assert |DirectoryData(files)| >= 4;
    FileBlocksCover(z, DirectoryData(files));
  }

  /** No block the scan makes is empty. */
  lemma NoEmptyBlock(files: seq<File>, z: Bytes -> Bytes, p: u32, es: seq<Entry>)
    requires Scan(z, Items(files), p) == Returns(es)
    ensures forall b :: b in BlocksOf(es) ==> b.uncompressed_size > 0
  {
    ScanBlocksNonEmpty(z, Items(files), p);
  }

  /** Entry `d` has blocks and no block is empty, so the blocks from any entry up to `d` start with a byte. */
  lemma NonEmptyTail(es: seq<Entry>, i: nat, d: nat)
    requires i <= d < |es| && es[d].blocks != []
    requires forall b :: b in BlocksOf(es) ==> b.uncompressed_size > 0
    ensures BlocksOf(es[i..]) != [] && BlocksOf(es[i..])[0].uncompressed_size > 0
  {
    var tail := es[i..];
    BlocksOfSplit(tail, d - i);
    assert tail[d - i..] == es[d..];
    BlocksOfAt(es, d);
    BlocksOfSplit(es, i);
    assert BlocksOf(tail)[0] in BlocksOf(es);
  }

  /** With the empty file handled, its entry yields no blocks, which decompress to the empty file. */
  lemma EmptyFileFixedReads(files: seq<File>, z: Bytes -> Bytes, unz: Bytes -> Bytes, p: u32, i: nat)
    requires Scan(z, Items(files), p).Returns?
    requires i < |files| && files[i].1 == []
    ensures var es := Scan(z, Items(files), p).value;
      GetBlocksFixed(es[i].index, KeyBlocks(p, BlocksOf(es))) == Returns([])
      && Decompress(unz, []) == files[i].1
  {
    ArchiveEntries(files, z, p);
  }
}
