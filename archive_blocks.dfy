/**
 * Compressed blocks and index entries of an EverQuest archive
 * (`crates/libeq_archive/src/parser/block.rs`, `index_entry.rs`), the block
 * map `Archive::parse` builds, and `IndexEntry::get_blocks`, which collects
 * the blocks of one file from that map.
 */
module ArchiveBlocks {
  import opened Wire

  const Wrap32: nat := 0x1_0000_0000

  /** `Block::HEADER_SIZE`: the compressed and uncompressed length words. */
  const BlockHeaderSize: nat := 8

  datatype Block = Block(uncompressed_size: u32, compressed_data: Bytes)

  /** `Block::size`: the bytes a block takes up in the archive. */
  function Size(b: Block): nat
  {
    |b.compressed_data| + BlockHeaderSize
  }

  /** `Block::to_bytes`: compressed length (cast to u32), uncompressed length, compressed bytes. */
  function BlockBytes(b: Block): Bytes
  {
    LeU32(|b.compressed_data| % Wrap32) + LeU32(b.uncompressed_size) + b.compressed_data
  }

  /** `Block::parse`. */
  function ParseBlock(s: Bytes): (o: Outcome<Block>)
    ensures !o.Panic?
    ensures o.Done? ==> |s| == Size(o.value) + |o.rest|
  {
    var compressed :- U32(s);
    var uncompressed :- U32(compressed.rest);
    var data :- Take(compressed.value, uncompressed.rest);
    Done(Block(uncompressed.value, data.value), data.rest)
  }

  predicate BlockWellFormed(b: Block)
  {
    |b.compressed_data| < Wrap32
  }

  lemma BlockBytesSplit(b: Block, rest: Bytes)
    requires BlockWellFormed(b)
    ensures BlockBytes(b) + rest
         == LeU32(|b.compressed_data|) + (LeU32(b.uncompressed_size) + (b.compressed_data + rest))
  {
    assert |b.compressed_data| % Wrap32 == |b.compressed_data|;
  }

  lemma BlockRoundTrip(b: Block, rest: Bytes)
    requires BlockWellFormed(b)
    ensures ParseBlock(BlockBytes(b) + rest) == Done(b, rest)
  {
    var n := |b.compressed_data|;
    var tail := b.compressed_data + rest;
    BlockBytesSplit(b, rest);
    U32RoundTrip(n, LeU32(b.uncompressed_size) + tail);
    U32RoundTrip(b.uncompressed_size, tail);
    TakeRoundTrip(b.compressed_data, rest);
  }

  datatype IndexEntry = IndexEntry(filename_crc: u32, data_offset: u32, uncompressed_size: u32)

  /** `IndexEntry::to_bytes`. */
  function IndexEntryBytes(e: IndexEntry): Bytes
  {
    LeU32(e.filename_crc) + LeU32(e.data_offset) + LeU32(e.uncompressed_size)
  }

  /** `IndexEntry::parse`. */
  function ParseIndexEntry(s: Bytes): (o: Outcome<IndexEntry>)
    ensures !o.Panic?
    ensures o.Failure? <==> |s| < 12
  {
    var w :- Word3(s);
    Done(IndexEntry(w.value.0, w.value.1, w.value.2), w.rest)
  }

  lemma IndexEntryRoundTrip(e: IndexEntry, rest: Bytes)
    ensures ParseIndexEntry(IndexEntryBytes(e) + rest) == Done(e, rest)
  {
    Word3RoundTrip((e.filename_crc, e.data_offset, e.uncompressed_size), rest);
    assert Word3Bytes((e.filename_crc, e.data_offset, e.uncompressed_size)) == IndexEntryBytes(e);
  }

  // ---- the block map

  /** A `BTreeMap<usize, Block>` as its entries in ascending key order. */
  type BlockMap = seq<(nat, Block)>

  predicate Ascending(m: BlockMap)
  {
    forall i, j :: 0 <= i < j < |m| ==> m[i].0 < m[j].0
  }

  /** The blocks of a map, in key order. */
  function Values(m: BlockMap): (bs: seq<Block>)
    ensures |bs| == |m|
  {
    seq(|m|, i requires 0 <= i < |m| => m[i].1)
  }

  /** The total size of a run of blocks. */
  function SizeTotal(bs: seq<Block>): nat
    decreases |bs|
  {
    if bs == [] then 0 else Size(bs[0]) + SizeTotal(bs[1..])
  }

  /** The total uncompressed size of a run of blocks. */
  function Unpacked(bs: seq<Block>): nat
    decreases |bs|
  {
    if bs == [] then 0 else bs[0].uncompressed_size + Unpacked(bs[1..])
  }

  /** A parser that consumes at least one byte whenever it succeeds. */
  ghost predicate Progress<T(!new)>(p: Bytes -> Outcome<T>)
  {
    forall s: Bytes :: p(s).Done? ==> |p(s).rest| < |s|
  }

  /**
   * `fold_many0` keyed by a running offset: apply `p` until it fails, keying
   * each value by the offset it was read at.
   */
  function Keyed<T(!new)>(p: Bytes -> Outcome<T>, size: T -> nat, s: Bytes, offset: nat): seq<(nat, T)>
    requires Progress(p)
    decreases |s|
  {
    var o := p(s);
    if o.Done? then [(offset, o.value)] + Keyed(p, size, o.rest, offset + size(o.value)) else []
  }

  /** Values laid end to end from `offset`, each keyed by where it starts. */
  function Layout<T>(size: T -> nat, offset: nat, xs: seq<T>): (m: seq<(nat, T)>)
    ensures |m| == |xs|
    decreases |xs|
  {
    if xs == [] then [] else [(offset, xs[0])] + Layout(size, offset + size(xs[0]), xs[1..])
  }

  lemma {:induction false} KeyedRoundTrip<T(!new)>(p: Bytes -> Outcome<T>, e: T -> Bytes, w: T -> bool,
                                                  size: T -> nat, offset: nat, xs: seq<T>)
    requires Progress(p) && Complete(p, e, w) && !p([]).Done?
    requires forall x :: x in xs ==> w(x)
    ensures Keyed(p, size, Flat(e, xs), offset) == Layout(size, offset, xs)
    decreases |xs|
  {
    if xs != [] {
      var tail := Flat(e, xs[1..]);
      assert Flat(e, xs) == e(xs[0]) + tail;
      assert xs[0] in xs;
      CompleteAt(p, e, w, xs[0], tail);
      KeyedRoundTrip(p, e, w, size, offset + size(xs[0]), xs[1..]);
    }
  }

  lemma BlockProgress()
    ensures Progress(ParseBlock)
  {
  }

  /** The `fold_many0` of `Archive::parse`: blocks are read until one fails to parse, each keyed by the running offset. */
  function ParseBlocks(s: Bytes, offset: nat): BlockMap
  {
    BlockProgress();
    Keyed(ParseBlock, Size, s, offset)
  }

  /** Each block keyed by its offset in the file, blocks laid end to end from `offset`. */
  function KeyBlocks(offset: nat, bs: seq<Block>): (m: BlockMap)
    ensures |m| == |bs|
  {
    Layout(Size, offset, bs)
  }

  /** `BTreeMap::range(k..)`: the entries whose key is at least `k`, in order. */
  function From(m: BlockMap, k: nat): (r: BlockMap)
    ensures |r| <= |m|
    ensures forall e :: e in r <==> e in m && e.0 >= k
    decreases |m|
  {
    if m == [] then []
    else if m[0].0 >= k then [m[0]] + From(m[1..], k)
    else From(m[1..], k)
  }

  lemma TailAscending(m: BlockMap)
    requires m != [] && Ascending(m)
    ensures Ascending(m[1..])
    ensures forall e :: e in m[1..] ==> m[0].0 < e.0
  {
    var t := m[1..];
    forall i, j | 0 <= i < j < |t| ensures t[i].0 < t[j].0 {
      assert t[i] == m[i + 1] && t[j] == m[j + 1];
    }
    forall e | e in t ensures m[0].0 < e.0 {
      var n :| 0 <= n < |t| && t[n] == e;
      assert m[n + 1] == t[n];
    }
  }

  lemma ConsAscending(e: (nat, Block), u: BlockMap)
    requires Ascending(u) && forall f :: f in u ==> e.0 < f.0
    ensures Ascending([e] + u)
  {
    var r := [e] + u;
    forall i, j | 0 <= i < j < |r| ensures r[i].0 < r[j].0 {
      assert r[j] == u[j - 1];
      if i > 0 {
        assert r[i] == u[i - 1];
      } else {
        assert u[j - 1] in u;
      }
    }
  }

  /** The range of an ascending map is ascending. */
  lemma {:induction false} FromAscending(m: BlockMap, k: nat)
    requires Ascending(m)
    ensures Ascending(From(m, k))
    decreases |m|
  {
    if m != [] {
      TailAscending(m);
      FromAscending(m[1..], k);
      if m[0].0 >= k {
        ConsAscending(m[0], From(m[1..], k));
      }
    }
  }

  lemma {:induction false} KeyBlocksShape(offset: nat, bs: seq<Block>)
    ensures Values(KeyBlocks(offset, bs)) == bs
    ensures forall i :: 0 <= i < |bs| ==> KeyBlocks(offset, bs)[i].0 == offset + SizeTotal(bs[..i])
    decreases |bs|
  {
    if bs != [] {
      var m := KeyBlocks(offset, bs);
      var tail := KeyBlocks(offset + Size(bs[0]), bs[1..]);
      KeyBlocksShape(offset + Size(bs[0]), bs[1..]);
      forall i | 0 <= i < |bs| ensures m[i].1 == bs[i] && m[i].0 == offset + SizeTotal(bs[..i]) {
        if i > 0 {
          assert m[i] == tail[i - 1];
          assert bs[..i][1..] == bs[1..][..i - 1];
        }
      }
    }
  }

  /** Keys strictly increase, since every block takes up at least its 8-byte header. */
  lemma {:induction false} KeyBlocksAscending(offset: nat, bs: seq<Block>)
    ensures Ascending(KeyBlocks(offset, bs))
    ensures forall e :: e in KeyBlocks(offset, bs) ==> e.0 >= offset
    decreases |bs|
  {
    if bs != [] {
      KeyBlocksAscending(offset + Size(bs[0]), bs[1..]);
      var m := KeyBlocks(offset, bs);
      var tail := KeyBlocks(offset + Size(bs[0]), bs[1..]);
      forall i, j | 0 <= i < j < |m| ensures m[i].0 < m[j].0 {
        assert m[j] == tail[j - 1];
        if i > 0 {
          assert m[i] == tail[i - 1];
        } else {
          assert tail[j - 1] in tail;
        }
      }
    }
  }

  lemma BlockComplete()
    ensures Complete(ParseBlock, BlockBytes, BlockWellFormed)
  {
    forall b: Block, rest: Bytes {:trigger ParseBlock(BlockBytes(b) + rest)} | BlockWellFormed(b)
      ensures ParseBlock(BlockBytes(b) + rest) == Done(b, rest)
    {
      BlockRoundTrip(b, rest);
    }
  }

  /** Reading the blocks back from the bytes they were written to keys each by its offset. */
  lemma ParseBlocksRoundTrip(offset: nat, bs: seq<Block>)
    requires forall b :: b in bs ==> BlockWellFormed(b)
    ensures ParseBlocks(Flat(BlockBytes, bs), offset) == KeyBlocks(offset, bs)
  {
    BlockProgress();
    BlockComplete();
    assert ParseBlock([]).Failure?;
    KeyedRoundTrip(ParseBlock, BlockBytes, BlockWellFormed, Size, offset, bs);
  }

  lemma PrefixSizeTotal(bs: seq<Block>, j: nat)
    requires 1 <= j <= |bs|
    ensures SizeTotal(bs[..j]) == Size(bs[0]) + SizeTotal(bs[1..][..j - 1])
  {
    assert bs[..j][1..] == bs[1..][..j - 1];
  }

  /** Every key of the map is at least `k`: the range from `k` is the whole map. */
  lemma {:induction false} FromBelow(m: BlockMap, k: nat)
    requires forall e :: e in m ==> e.0 >= k
    ensures From(m, k) == m
    decreases |m|
  {
    if m != [] {
      assert m[0] in m;
      assert forall e :: e in m[1..] ==> e in m;
      FromBelow(m[1..], k);
    }
  }

  /**
   * A range query from a key `k` that falls after the `i`-th block's
   * predecessor and no later than the `i`-th block itself yields the blocks
   * from the `i`-th on.
   */
  lemma {:induction false} FromKeyBlocks(offset: nat, bs: seq<Block>, i: nat, k: nat)
    requires i <= |bs|
    requires i > 0 ==> offset + SizeTotal(bs[..i - 1]) < k
    requires k <= offset + SizeTotal(bs[..i])
    ensures From(KeyBlocks(offset, bs), k) == KeyBlocks(offset + SizeTotal(bs[..i]), bs[i..])
    decreases i
  {
    if i == 0 {
      FromFirstKey(offset, bs, k);
    } else {
      FromKeyBlocksStep(offset, bs, k);
      FromKeyBlocksBounds(offset, bs, i, k);
      assert bs[1..][i - 1..] == bs[i..];
      FromKeyBlocks(offset + Size(bs[0]), bs[1..], i - 1, k);
    }
  }

  /** A range from at most the first key is the whole map. */
  lemma FromFirstKey(offset: nat, bs: seq<Block>, k: nat)
    requires k <= offset + SizeTotal(bs[..0])
    ensures From(KeyBlocks(offset, bs), k) == KeyBlocks(offset + SizeTotal(bs[..0]), bs[0..])
  {
    assert bs[..0] == [] && bs[0..] == bs;
    KeyBlocksAscending(offset, bs);
    FromBelow(KeyBlocks(offset, bs), k);
  }

  /** A first key below `k` is skipped by the range from `k`. */
  lemma FromKeyBlocksStep(offset: nat, bs: seq<Block>, k: nat)
    requires bs != [] && offset < k
    ensures From(KeyBlocks(offset, bs), k) == From(KeyBlocks(offset + Size(bs[0]), bs[1..]), k)
  {
    var m := KeyBlocks(offset, bs);
    assert m[0].0 == offset;
    assert m[1..] == KeyBlocks(offset + Size(bs[0]), bs[1..]);
  }

  /** The bounds on `k` carry over to the rest of the blocks from the second block's key. */
  lemma FromKeyBlocksBounds(offset: nat, bs: seq<Block>, i: nat, k: nat)
    requires 0 < i <= |bs|
    requires offset + SizeTotal(bs[..i - 1]) < k
    ensures offset < k
    ensures i - 1 > 0 ==> offset + Size(bs[0]) + SizeTotal(bs[1..][..i - 2]) < k
    ensures offset + SizeTotal(bs[..i]) == offset + Size(bs[0]) + SizeTotal(bs[1..][..i - 1])
  {
    PrefixSizeTotal(bs, i);
    if i > 1 {
      PrefixSizeTotal(bs, i - 1);
    } else {
      assert bs[..0] == [];
    }
  }

  // ---- collecting the blocks of one file

  /**
   * The `try_fold` of `get_blocks`: add each block's uncompressed size to
   * what has been collected; stop after the block that makes it exactly
   * `want`, keep going while it is below, and panic when it goes past or the
   * blocks run out.  The running sum is an unbounded integer, matching the
   * overflow-checked build: a u32 overflow there is always past `want`.
   */
  function Gather(bs: seq<Block>, collected: nat, want: nat): (r: Fallible<seq<Block>>)
    ensures r.Returns? ==> 1 <= |r.value| <= |bs|
    decreases |bs|
  {
    if bs == [] then Panics
    else
      var next := collected + bs[0].uncompressed_size;
      if next == want then Returns([bs[0]])
      else if next < want then
        match Gather(bs[1..], next, want)
        case Returns(tail) => Returns([bs[0]] + tail)
        case Panics => Panics
      else Panics
  }

  /** `IndexEntry::get_blocks` as written. */
  function GetBlocks(e: IndexEntry, m: BlockMap): Fallible<seq<Block>>
  {
    Gather(Values(From(m, e.data_offset)), 0, e.uncompressed_size)
  }

  /** `get_blocks` with the empty file handled: a file of no bytes has no blocks. */
  function GetBlocksFixed(e: IndexEntry, m: BlockMap): Fallible<seq<Block>>
  {
    if e.uncompressed_size == 0 then Returns([]) else GetBlocks(e, m)
  }

  /** The prefix of `bs` of length `k` ends exactly on `want`, and no shorter one does. */
  predicate FirstExact(bs: seq<Block>, collected: nat, want: nat, k: nat)
  {
    1 <= k <= |bs| && collected + Unpacked(bs[..k]) == want
    && forall j :: 1 <= j < k ==> collected + Unpacked(bs[..j]) < want
  }

  lemma PrefixUnpacked(bs: seq<Block>, j: nat)
    requires 1 <= j <= |bs|
    ensures Unpacked(bs[..j]) == bs[0].uncompressed_size + Unpacked(bs[1..][..j - 1])
  {
    assert bs[..j][1..] == bs[1..][..j - 1];
  }

  /** What `get_blocks` returns is the shortest run of blocks from the start whose sizes add up exactly. */
  lemma {:induction false} GatherSound(bs: seq<Block>, collected: nat, want: nat)
    requires Gather(bs, collected, want).Returns?
    ensures var r := Gather(bs, collected, want).value;
      r == bs[..|r|] && FirstExact(bs, collected, want, |r|)
    decreases |bs|
  {
    var r := Gather(bs, collected, want).value;
    var next := collected + bs[0].uncompressed_size;
    PrefixUnpacked(bs, 1);
    assert bs[1..][..0] == [];
    if next != want {
      GatherSound(bs[1..], next, want);
      var t := Gather(bs[1..], next, want).value;
      assert r == [bs[0]] + t;
      forall j | 1 <= j <= |r| ensures collected + Unpacked(bs[..j]) == next + Unpacked(bs[1..][..j - 1]) {
        PrefixUnpacked(bs, j);
      }
    }
  }

  /** Conversely, when such a run exists `get_blocks` returns it. */
  lemma {:induction false} GatherComplete(bs: seq<Block>, collected: nat, want: nat, k: nat)
    requires FirstExact(bs, collected, want, k)
    ensures Gather(bs, collected, want) == Returns(bs[..k])
    decreases |bs|
  {
    var next := collected + bs[0].uncompressed_size;
    PrefixUnpacked(bs, 1);
    PrefixUnpacked(bs, k);
    assert bs[1..][..0] == [];
    if k == 1 {
      assert next == want;
      assert bs[..1] == [bs[0]];
    } else {
      assert next < want;
      forall j | 1 <= j < k - 1 ensures next + Unpacked(bs[1..][..j]) < want {
        PrefixUnpacked(bs, j + 1);
      }
      GatherComplete(bs[1..], next, want, k - 1);
      assert bs[..k] == [bs[0]] + bs[1..][..k - 1];
    }
  }

  /** `get_blocks` panics exactly when no run of blocks from the start adds up to `want`. */
  lemma GatherPanics(bs: seq<Block>, collected: nat, want: nat)
    ensures Gather(bs, collected, want).Panics? <==> forall k :: !FirstExact(bs, collected, want, k)
  {
    if Gather(bs, collected, want).Returns? {
      GatherSound(bs, collected, want);
    }
    forall k | FirstExact(bs, collected, want, k) ensures Gather(bs, collected, want).Returns? {
      GatherComplete(bs, collected, want, k);
    }
  }

  /**
   * An entry for a file of no bytes: `get_blocks` as written has nothing to
   * stop on, so it panics unless the next block is itself empty.
   */
  lemma EmptyFilePanics(e: IndexEntry, m: BlockMap)
    requires e.uncompressed_size == 0
    requires Values(From(m, e.data_offset)) == [] || Values(From(m, e.data_offset))[0].uncompressed_size > 0
    ensures GetBlocks(e, m) == Panics
  {
  }

  /** The corrected version returns no blocks for an empty file, and otherwise agrees with `get_blocks`. */
  lemma EmptyFileFixed(e: IndexEntry, m: BlockMap)
    ensures e.uncompressed_size == 0 ==> GetBlocksFixed(e, m) == Returns([])
    ensures e.uncompressed_size > 0 ==> GetBlocksFixed(e, m) == GetBlocks(e, m)
  {
  }

  /**
   * `IndexEntry::decompress`: the blocks' decompressed bytes in order.  The
   * decompressor `unz` is a parameter; zlib is not part of this model.
   */
  function Decompress(unz: Bytes -> Bytes, blocks: seq<Block>): Bytes
  {
    Flat((b: Block) => unz(b.compressed_data), blocks)
  }
}
