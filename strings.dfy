/**
 * The WLD string pool: a block of NUL-terminated names obscured by XOR with
 * a repeating 8-byte key, looked up by the byte offset at which a name
 * starts. Text is kept as bytes: every byte is one Windows-1252 character.
 */
module Strings {
  import opened Wire

  /** A reference into the string pool; fragments store it negated. */
  datatype StringReference = StringReference(idx: i32)

  function ParseStringReference(s: Bytes): (o: Outcome<StringReference>)
    ensures o.Failure? <==> |s| < 4
    ensures !o.Panic?
    ensures o.Done? ==> s == StringReferenceBytes(o.value) + o.rest
  {
    var idx :- I32(s);
    Done(StringReference(idx.value), idx.rest)
  }

  function StringReferenceBytes(r: StringReference): (b: Bytes)
    ensures |b| == 4
  {
    LeI32(r.idx)
  }

  lemma StringReferenceRoundTrip(r: StringReference, rest: Bytes)
    ensures ParseStringReference(StringReferenceBytes(r) + rest) == Done(r, rest)
  {
    I32RoundTrip(r.idx, rest);
  }

  lemma StringReferenceCodec()
    ensures Complete(ParseStringReference, StringReferenceBytes, Any)
    ensures Sound(ParseStringReference, StringReferenceBytes, Any)
    ensures FixedWidth(ParseStringReference, 4)
  {
    forall r: StringReference, rest: Bytes
      ensures ParseStringReference(StringReferenceBytes(r) + rest) == Done(r, rest)
    {
      StringReferenceRoundTrip(r, rest);
    }
  }

  const XorKey: seq<byte> := [0x95, 0x3a, 0xc5, 0x2a, 0x95, 0x7a, 0x95, 0x6a]

  function Pow2(n: nat): (p: nat)
    ensures p >= 1
  {
    if n == 0 then 1 else 2 * Pow2(n - 1)
  }

  /** Bitwise exclusive or of the low `n` bits of `a` and `b`. */
  function XorBits(a: nat, b: nat, n: nat): (r: nat)
    ensures r < Pow2(n)
  {
    if n == 0 then 0
    else (if a % 2 == b % 2 then 0 else 1) + 2 * XorBits(a / 2, b / 2, n - 1)
  }

  /** XOR with the same key twice gives back the original bits. */
  lemma {:induction false} XorBitsInvolution(a: nat, k: nat, n: nat)
    requires a < Pow2(n)
    ensures XorBits(XorBits(a, k, n), k, n) == a
  {
    if n > 0 {
      var x := XorBits(a, k, n);
      var h := XorBits(a / 2, k / 2, n - 1);
      var bit := if a % 2 == k % 2 then 0 else 1;
      assert x == bit + 2 * h;
      assert x % 2 == bit && x / 2 == h;
      assert a / 2 < Pow2(n - 1);
      XorBitsInvolution(a / 2, k / 2, n - 1);
      assert (if x % 2 == k % 2 then 0 else 1) == a % 2;
      assert XorBits(x, k, n) == a % 2 + 2 * (a / 2);
    }
  }

  /** XOR with zero leaves the key unchanged. */
  lemma {:induction false} XorBitsZero(k: nat, n: nat)
    requires k < Pow2(n)
    ensures XorBits(0, k, n) == k
  {
    if n > 0 {
      XorBitsZero(k / 2, n - 1);
    }
  }

  /** The `^` of two bytes. */
  function XorByte(a: byte, b: byte): byte
  {
    assert Pow2(8) == 0x100;
    XorBits(a, b, 8)
  }

  lemma XorByteInvolution(a: byte, k: byte)
    ensures XorByte(XorByte(a, k), k) == a
  {
    assert Pow2(8) == 0x100;
    XorBitsInvolution(a, k, 8);
  }

  lemma XorByteZero(k: byte)
    ensures XorByte(0, k) == k
  {
    assert Pow2(8) == 0x100;
    XorBitsZero(k, 8);
  }

  /**
   * XOR every byte with the key byte at its position modulo 8. This is both
   * `decode_string` and `encode_string`, without the Windows-1252 step.
   */
  function Cipher(data: Bytes): (r: Bytes)
    ensures |r| == |data|
  {
    seq(|data|, i requires 0 <= i < |data| => XorByte(data[i], XorKey[i % 8]))
  }

  /** Encoding and decoding invert each other byte for byte. */
  lemma CipherInvolution(data: Bytes)
    ensures Cipher(Cipher(data)) == data
  {
    forall i | 0 <= i < |data| ensures Cipher(Cipher(data))[i] == data[i] {
      XorByteInvolution(data[i], XorKey[i % 8]);
    }
  }

  lemma KeyNonZero(i: nat)
    ensures XorKey[i % 8] != 0
  {
  }

  /** A zero last byte decodes to a key byte, which is not NUL. */
  lemma CipherEndsNonNul(raw: Bytes)
    requires raw != [] && raw[|raw| - 1] == 0
    ensures NoTrailingNul(Cipher(raw))
  {
    var n := |raw| - 1;
    KeyNonZero(n);
    CipherZeroAt(raw, n);
  }

  /** A zero byte decodes to the key byte at its position. */
  lemma CipherZeroAt(raw: Bytes, n: nat)
    requires n < |raw| && raw[n] == 0
    ensures Cipher(raw)[n] == XorKey[n % 8]
  {
    XorByteZero(XorKey[n % 8]);
  }

  // ---- the pool as a sorted map from start offset to name

  /** A `BTreeMap<usize, String>`, kept as its entries in increasing key order. */
  datatype StringHash = StringHash(entries: seq<(nat, Bytes)>)

  predicate NulFree(b: Bytes)
  {
    forall i :: 0 <= i < |b| ==> b[i] != 0
  }

  /** The index of the first NUL at or after `from`, or `|d|` when there is none. */
  function NextNul(d: Bytes, from: nat): (i: nat)
    requires from <= |d|
    ensures from <= i <= |d|
    ensures i < |d| ==> d[i] == 0
    ensures forall k :: from <= k < i ==> d[k] != 0
    decreases |d| - from
  {
    if from == |d| || d[from] == 0 then from else NextNul(d, from + 1)
  }

  /**
   * The entries `StringHash::new` builds from decoded text `d` read from
   * offset `from`: one per NUL-terminated name, keyed by where it starts.
   * Text after the last NUL has no terminator and is dropped.
   */
  function Table(d: Bytes, from: nat): seq<(nat, Bytes)>
    requires from <= |d|
    decreases |d| - from
  {
    var i := NextNul(d, from);
    if i == |d| then [] else [(from, d[from..i])] + Table(d, i + 1)
  }

  lemma {:induction false} NextNulAt(d: Bytes, from: nat, i: nat)
    requires from <= i <= |d|
    requires i < |d| ==> d[i] == 0
    requires forall k :: from <= k < i ==> d[k] != 0
    ensures NextNul(d, from) == i
    decreases i - from
  {
    if from < i {
      NextNulAt(d, from + 1, i);
    }
  }

  /** The entries built from `from` onwards, when a NUL at `i` ends the first name. */
  lemma TableStep(d: Bytes, from: nat, i: nat)
    requires from <= i < |d| && d[i] == 0
    requires forall k :: from <= k < i ==> d[k] != 0
    ensures Table(d, from) == [(from, d[from..i])] + Table(d, i + 1)
  {
    NextNulAt(d, from, i);
  }

  /** Unterminated text at the end contributes no entry. */
  lemma TableTail(d: Bytes, from: nat)
    requires from <= |d|
    requires forall k :: from <= k < |d| ==> d[k] != 0
    ensures Table(d, from) == []
  {
    NextNulAt(d, from, |d|);
  }

  /**
   * `StringHash::new`: decode the pool and, walking it, record every
   * NUL-terminated name under the offset where it starts.
   */
  method NewStringHash(encoded: Bytes) returns (h: StringHash)
    ensures h == StringHash(Table(Cipher(encoded), 0))
  {
    var entries := WalkNames(Cipher(encoded));
    h := StringHash(entries);
  }

  /** The loop of `StringHash::new` over the decoded text. */
  method WalkNames(d: Bytes) returns (entries: seq<(nat, Bytes)>)
    ensures entries == Table(d, 0)
  {
    entries := [];
    var referenceIdx := 0;
    var j := 0;
    while j < |d|
      invariant 0 <= referenceIdx <= j <= |d|
      invariant forall k :: referenceIdx <= k < j ==> d[k] != 0
      invariant entries + Table(d, referenceIdx) == Table(d, 0)
    {
      if d[j] == 0 {
        TableStep(d, referenceIdx, j);
        var e := (referenceIdx, d[referenceIdx..j]);
        AppendEntry(entries, e, Table(d, j + 1));
        entries := entries + [e];
        referenceIdx := j + 1;
      }
      j := j + 1;
    }
    TableTail(d, referenceIdx);
  }

  lemma AppendEntry(entries: seq<(nat, Bytes)>, e: (nat, Bytes), t: seq<(nat, Bytes)>)
    ensures entries + ([e] + t) == (entries + [e]) + t
  {
  }

  function Lookup(entries: seq<(nat, Bytes)>, key: nat): Option<Bytes>
  {
    if entries == [] then None
    else if entries[0].0 == key then Some(entries[0].1)
    else Lookup(entries[1..], key)
  }

  function Abs(x: int): nat { if x < 0 then -x else x }

  /**
   * `StringHash::get` in a release build: the name starting at offset
   * `|idx|`. There `i32::MIN.abs()` wraps to `i32::MIN`, which `as usize`
   * sign-extends (on a 64-bit target) past every offset of a pool whose size
   * is a u32, so that reference finds nothing.
   */
  function Get(h: StringHash, r: StringReference): Option<Bytes>
  {
    if r.idx == -0x8000_0000 then None else Lookup(h.entries, Abs(r.idx))
  }

  /** `StringHash::get` in a debug build, where `i32::MIN.abs()` overflows and panics. */
  function GetChecked(h: StringHash, r: StringReference): (g: Fallible<Option<Bytes>>)
    ensures g.Panics? <==> r.idx == -0x8000_0000
    ensures g.Returns? ==> g.value == Get(h, r)
  {
    if r.idx == -0x8000_0000 then Panics else Returns(Lookup(h.entries, Abs(r.idx)))
  }

  /** A reference and its negation name the same string. */
  lemma GetIgnoresSign(h: StringHash, n: i32)
    requires n > -0x8000_0000
    ensures Get(h, StringReference(-n)) == Get(h, StringReference(n))
  {
  }

  /** Offset `k` begins a NUL-terminated name of `d`. */
  predicate IsStart(d: Bytes, k: nat)
  {
    k < |d| && (k == 0 || d[k - 1] == 0) && NextNul(d, k) < |d|
  }

  /**
   * Looking an offset up in the pool built from `d` yields exactly the name
   * that starts there, and nothing for an offset that is not a name start.
   */
  lemma {:induction false} LookupTable(d: Bytes, from: nat, k: nat)
    requires from <= |d| && (from == 0 || d[from - 1] == 0)
    ensures Lookup(Table(d, from), k) ==
      if from <= k && IsStart(d, k) then Some(d[k..NextNul(d, k)]) else None
    decreases |d| - from
  {
    var i := NextNul(d, from);
    if i < |d| {
      if k != from {
        LookupTable(d, i + 1, k);
        if from < k <= i {
          assert d[k - 1] != 0;
        }
      }
    } else if from < k < |d| {
      assert d[k - 1] != 0;
    }
  }

  lemma LookupPool(d: Bytes, k: nat)
    ensures Lookup(Table(d, 0), k) == if IsStart(d, k) then Some(d[k..NextNul(d, k)]) else None
  {
    LookupTable(d, 0, k);
  }

  /** Entry `e` of the pool over `d`: a NUL-free name ended by the NUL right after it. */
  predicate NameEntry(d: Bytes, e: (nat, Bytes))
  {
    e.0 + |e.1| < |d| && d[e.0 + |e.1|] == 0 && NulFree(e.1)
  }

  /**
   * Keys are name starts: the first is where reading began, and each next key
   * is one past the NUL that ends the previous name.
   */
  lemma {:induction false} TableKeys(d: Bytes, from: nat)
    requires from <= |d|
    ensures var t := Table(d, from);
      (t != [] ==> t[0].0 == from) &&
      (forall j :: 0 <= j < |t| ==> NameEntry(d, t[j])) &&
      (forall j :: 0 < j < |t| ==> t[j].0 == t[j - 1].0 + |t[j - 1].1| + 1)
    decreases |d| - from
  {
    var i := NextNul(d, from);
    var t := Table(d, from);
    if i < |d| {
      var t' := Table(d, i + 1);
      TableKeys(d, i + 1);
      assert t == [(from, d[from..i])] + t';
      assert NameEntry(d, t[0]);
      assert forall j :: 0 < j < |t| ==> t[j] == t'[j - 1];
    }
  }

  // ---- serialisation

  function Values(entries: seq<(nat, Bytes)>): seq<Bytes>
  {
    seq(|entries|, j requires 0 <= j < |entries| => entries[j].1)
  }

  /** Every name followed by its NUL terminator. */
  function Join(names: seq<Bytes>): Bytes
  {
    if names == [] then [] else names[0] + [0] + Join(names[1..])
  }

  /** `StringHash::into_bytes`: the encoded names, zero-padded to a multiple of 4. */
  function StringHashBytes(h: StringHash): Bytes
  {
    var encoded := Cipher(Join(Values(h.entries)));
    var size := |encoded|;
    if size % 4 > 0 then encoded + Zeros(4 - size % 4) else encoded
  }

  lemma StringHashBytesAligned(h: StringHash)
    ensures |StringHashBytes(h)| % 4 == 0
  {
  }

  /** One NUL-free name and its terminator make one entry, keyed where the name starts. */
  lemma NameStep(prefix: Bytes, n: Bytes, rest: Bytes)
    requires NulFree(n)
    ensures var d := prefix + n + [0] + rest;
      Table(d, |prefix|) == [(|prefix|, n)] + Table(d, |prefix| + |n| + 1)
  {
    var d := prefix + n + [0] + rest;
    forall k | |prefix| <= k < |prefix| + |n| ensures d[k] != 0 {
      assert d[k] == n[k - |prefix|];
    }
    TableStep(d, |prefix|, |prefix| + |n|);
    assert d[|prefix|..|prefix| + |n|] == n;
  }

  lemma ValuesCons(e: (nat, Bytes), t: seq<(nat, Bytes)>)
    ensures Values([e] + t) == [e.1] + Values(t)
  {
  }

  lemma JoinUnfold(prefix: Bytes, names: seq<Bytes>, tail: Bytes)
    requires names != []
    ensures prefix + Join(names) + tail == prefix + names[0] + [0] + (Join(names[1..]) + tail)
    ensures prefix + Join(names) + tail == (prefix + names[0] + [0]) + Join(names[1..]) + tail
  {
  }

  lemma {:induction false} TableOfJoin(prefix: Bytes, names: seq<Bytes>, tail: Bytes)
    requires forall j :: 0 <= j < |names| ==> NulFree(names[j])
    requires NulFree(tail)
    ensures var d := prefix + Join(names) + tail;
      Values(Table(d, |prefix|)) == names
    decreases |names|
  {
    var d := prefix + Join(names) + tail;
    if names == [] {
      assert d == prefix + tail;
      forall k | |prefix| <= k < |d| ensures d[k] != 0 {
        assert d[k] == tail[k - |prefix|];
      }
      TableTail(d, |prefix|);
    } else {
      var n := names[0];
      JoinUnfold(prefix, names, tail);
      NameStep(prefix, n, Join(names[1..]) + tail);
      TableOfJoin(prefix + n + [0], names[1..], tail);
      ValuesCons((|prefix|, n), Table(d, |prefix| + |n| + 1));
      assert [n] + names[1..] == names;
    }
  }

  /** The key stream the decoder produces from zero padding never holds a NUL. */
  lemma DecodedPaddingNulFree(j: Bytes, p: nat)
    ensures var d := Cipher(Cipher(j) + Zeros(p));
      d[..|j|] == j && NulFree(d[|j|..])
  {
    var e := Cipher(j) + Zeros(p);
    var d := Cipher(e);
    CipherInvolution(j);
    forall i | 0 <= i < |j| ensures d[i] == j[i] {
      assert e[i] == Cipher(j)[i];
      XorByteInvolution(j[i], XorKey[i % 8]);
    }
    forall i | |j| <= i < |d| ensures d[i] != 0 {
      assert e[i] == 0;
      XorByteZero(XorKey[i % 8]);
    }
    assert d[..|j|] == j;
  }

  /** `into_bytes` pads exactly as far as the next multiple of 4. */
  lemma StringHashBytesPad(h: StringHash)
    ensures var encoded := Cipher(Join(Values(h.entries)));
      StringHashBytes(h) == encoded + Zeros(Pad4(|encoded|))
  {
  }

  /**
   * A pool made of NUL-free names, encoded and padded with zeros to a
   * multiple of 4, decodes to exactly those names, and re-serialising the
   * decoded pool rebuilds the input byte for byte.
   */
  lemma PoolRoundTrip(names: seq<Bytes>)
    requires forall j :: 0 <= j < |names| ==> NulFree(names[j])
    ensures var joined := Join(names);
      var data := Cipher(joined) + Zeros(Pad4(|joined|));
      var h := StringHash(Table(Cipher(data), 0));
      Values(h.entries) == names && StringHashBytes(h) == data
  {
    var joined := Join(names);
    var data := Cipher(joined) + Zeros(Pad4(|joined|));
    var d := Cipher(data);
    DecodedPaddingNulFree(joined, Pad4(|joined|));
    var tail := d[|joined|..];
    assert d == [] + joined + tail;
    TableOfJoin([], names, tail);
    StringHashBytesPad(StringHash(Table(d, 0)));
  }

  /**
   * A pool whose decoded text begins with an empty name and then "SGRASS":
   * offset 0 names the empty string, offset 1 "SGRASS", and offset 2 nothing.
   */
  lemma SgrassPool(encoded: Bytes)
    requires |encoded| >= 8
    requires Cipher(encoded)[..8] == [0, 'S' as byte, 'G' as byte, 'R' as byte, 'A' as byte, 'S' as byte, 'S' as byte, 0]
    ensures var h := StringHash(Table(Cipher(encoded), 0));
      Get(h, StringReference(0)) == Some([]) &&
      Get(h, StringReference(1)) == Some([0x53, 0x47, 0x52, 0x41, 0x53, 0x53]) &&
      Get(h, StringReference(2)) == None
  {
    var d := Cipher(encoded);
    assert d[0] == 0 && d[7] == 0;
    NextNulAt(d, 0, 0);
    NextNulAt(d, 1, 7);
    LookupPool(d, 0);
    LookupPool(d, 1);
    LookupPool(d, 2);
    assert IsStart(d, 1);
    assert d[1..7] == Cipher(encoded)[..8][1..7];
    assert d[1..NextNul(d, 1)] == [0x53, 0x47, 0x52, 0x41, 0x53, 0x53];
  }
}
