/**
 * The BmInfo fragment (type 0x03): a name and one or more texture file
 * names, stored with a count one less than the number of names.
 */
module BmInfoFragment {
  import opened Wire
  import opened Strings
  import opened EncodedFilenames

  datatype BmInfo = BmInfo(name_reference: StringReference, entry_count: u32, entries: seq<EncodedFilename>)

  /**
   * `BmInfo::parse`. The count is incremented in 32-bit arithmetic, which
   * panics on overflow for a stored count of 0xffffffff.
   */
  function ParseBmInfo(s: Bytes): (o: Outcome<BmInfo>)
  {
    ParseBmInfoWith(ParseEncodedFilename, s)
  }

  function ParseBmInfoWith(p: Bytes -> Outcome<EncodedFilename>, s: Bytes): (o: Outcome<BmInfo>)
    ensures o.Done? ==> |o.value.entries| == o.value.entry_count + 1
    ensures |s| < 8 ==> o.Failure?
    ensures o.Done? ==>
      s[..8] == StringReferenceBytes(o.value.name_reference) + LeU32(o.value.entry_count) &&
      o.value.entry_count != 0xffff_ffff &&
      Many(p, o.value.entry_count + 1, s[8..]) == Done(o.value.entries, o.rest)
  {
    var name :- ParseStringReference(s);
    var count :- U32(name.rest);
    if count.value == 0xffff_ffff then Panic
    else
      var entries :- Many(p, count.value + 1, count.rest);
      Done(BmInfo(name.value, count.value, entries.value), entries.rest)
  }

  /** The fragment's fields in order: the count is recomputed from the entries. */
  function BmInfoFields(b: BmInfo): Bytes
    requires 0 < |b.entries| <= 0x1_0000_0000
  {
    StringReferenceBytes(b.name_reference) + LeU32(|b.entries| - 1) + Flat(EncodedFilenameBytes, b.entries)
  }

  /** `(3 - len % 4) % 4`: the zeros that leave the length one short of a multiple of 4. */
  function BmInfoPadding(n: nat): (p: nat)
    ensures p < 4 && (n + p) % 4 == 3
  {
    (3 - n % 4) % 4
  }

  /**
   * `BmInfo::into_bytes`. `entries.len() - 1` converted to u32 panics for
   * an empty list and for one longer than the u32 range allows.
   */
  function BmInfoBytes(b: BmInfo): (r: Fallible<Bytes>)
    ensures r.Panics? <==> |b.entries| == 0 || |b.entries| > 0x1_0000_0000
    ensures r.Returns? ==> |r.value| % 4 == 3
  {
    if |b.entries| == 0 || |b.entries| > 0x1_0000_0000 then Panics
    else
      var bytes := BmInfoFields(b);
      Returns(bytes + Zeros(BmInfoPadding(|bytes|)))
  }

  predicate BmInfoWellFormed(b: BmInfo)
  {
    b.entry_count < 0xffff_ffff && b.entry_count + 1 == |b.entries| &&
    forall e :: e in b.entries ==> EncodedFilenameWellFormed(e)
  }

  lemma EntriesRoundTrip(entries: seq<EncodedFilename>, rest: Bytes)
    requires forall e :: e in entries ==> EncodedFilenameWellFormed(e)
    ensures Many(ParseEncodedFilename, |entries|, Flat(EncodedFilenameBytes, entries) + rest) == Done(entries, rest)
  {
    EncodedFilenameCodec();
    ManyRoundTrip(ParseEncodedFilename, EncodedFilenameBytes, EncodedFilenameWellFormed, entries, rest);
  }

  lemma BmInfoRoundTrip(b: BmInfo, rest: Bytes)
    requires BmInfoWellFormed(b)
    ensures ParseBmInfo(BmInfoFields(b) + rest) == Done(b, rest)
  {
    var t2 := Flat(EncodedFilenameBytes, b.entries) + rest;
    var t1 := LeU32(b.entry_count) + t2;
    assert BmInfoFields(b) + rest == StringReferenceBytes(b.name_reference) + t1;
    StringReferenceRoundTrip(b.name_reference, t1);
    U32RoundTrip(b.entry_count, t2);
    EntriesRoundTrip(b.entries, rest);
  }

  /**
   * Parsing a serialised BmInfo gives it back, with the padding left over;
   * appending one more zero reproduces the one-byte-longer fixtures.
   */
  lemma BmInfoBytesRoundTrip(b: BmInfo, rest: Bytes)
    requires BmInfoWellFormed(b)
    ensures BmInfoBytes(b).Returns?
    ensures var bytes := BmInfoFields(b);
      ParseBmInfo(BmInfoBytes(b).value + rest) == Done(b, Zeros(BmInfoPadding(|bytes|)) + rest)
  {
    var bytes := BmInfoFields(b);
    var pad := Zeros(BmInfoPadding(|bytes|));
    assert BmInfoBytes(b).value + rest == bytes + (pad + rest);
    BmInfoRoundTrip(b, pad + rest);
  }

  /** The header and the entries, laid end to end, are the fields `into_bytes` writes. */
  lemma BmInfoLayout(d: Bytes, x: BmInfo, rest: Bytes)
    requires |d| >= 8 && |x.entries| == x.entry_count + 1
    requires d[..8] == StringReferenceBytes(x.name_reference) + LeU32(x.entry_count)
    requires d[8..] == Flat(EncodedFilenameBytes, x.entries) + rest
    ensures d == BmInfoFields(x) + rest
  {
    assert d == d[..8] + d[8..];
  }

  /**
   * A parsed BmInfo whose entry names are all well formed is itself well
   * formed, and its fields re-encode to exactly the bytes consumed.
   */
  lemma BmInfoExactWith(p: Bytes -> Outcome<EncodedFilename>, d: Bytes)
    requires Exact(p, EncodedFilenameBytes, EncodedFilenameWellFormed)
    ensures var o := ParseBmInfoWith(p, d);
      o.Done? && (forall e :: e in o.value.entries ==> EncodedFilenameWellFormed(e)) ==>
        BmInfoWellFormed(o.value) && d == BmInfoFields(o.value) + o.rest
  {
    var o := ParseBmInfoWith(p, d);
    if o.Done? && (forall e :: e in o.value.entries ==> EncodedFilenameWellFormed(e)) {
      ManyExact(p, EncodedFilenameBytes, EncodedFilenameWellFormed, o.value.entry_count + 1, d[8..]);
      BmInfoLayout(d, o.value, o.rest);
    }
  }

  lemma BmInfoExact(d: Bytes)
    ensures var o := ParseBmInfo(d);
      o.Done? && (forall e :: e in o.value.entries ==> EncodedFilenameWellFormed(e)) ==>
        BmInfoWellFormed(o.value) && d == BmInfoFields(o.value) + o.rest
  {
    EncodedFilenameCodec();
    BmInfoExactWith(ParseEncodedFilename, d);
  }

  /**
   * When every entry name is well formed, `into_bytes` followed by one zero
   * reproduces the input exactly when the bytes parsing left over are the
   * padding and that zero.
   */
  lemma BmInfoReparse(d: Bytes)
    ensures var o := ParseBmInfo(d);
      o.Done? && (forall e :: e in o.value.entries ==> EncodedFilenameWellFormed(e)) ==>
        (BmInfoBytes(o.value).value + [0] == d <==>
          o.rest == Zeros(BmInfoPadding(|BmInfoFields(o.value)|)) + [0])
  {
    var o := ParseBmInfo(d);
    if o.Done? && (forall e :: e in o.value.entries ==> EncodedFilenameWellFormed(e)) {
      BmInfoExact(d);
      var bytes := BmInfoFields(o.value);
      var tail := Zeros(BmInfoPadding(|bytes|)) + [0];
      assert BmInfoBytes(o.value).value + [0] == bytes + tail;
      SuffixCancel(bytes, o.rest, tail);
    }
  }
}
