/**
 * The DmTrackDef fragment (type 0x2e): a vertex animation track with
 * floating-point positions. After the name come five u32 words (flags,
 * vertex count, frame count, sleep, `param1`) and then `frame_count` frames
 * of `vertex_count` `(f32, f32, f32)` positions.
 *
 * The parser reads the flags little-endian while the writer emits them
 * big-endian; `DmTrackDefBytesAsWritten` is that writer, `DmTrackDefBytes`
 * the little-endian one the rest of the model uses.
 */
module DmTrackDefFragment {
  import opened Wire
  import opened Strings
  import opened VertexFrames

  type Vertex = (f32, f32, f32)

  /** The bytes in front of the frames: the name and five u32 words. */
  const HeaderSize: nat := 24

  // ---- the frames, read with `(vertex_count, frame_count)` in hand

  function ParseFrames(c: (u32, u32), s: Bytes): (o: Outcome<seq<seq<Vertex>>>)
  {
    ParseMatrix(Word3, c.0, c.1, s)
  }

  function FramesBytes(m: seq<seq<Vertex>>): Bytes
  {
    MatrixBytes(Word3Bytes, m)
  }

  predicate FramesMatch(c: (u32, u32), m: seq<seq<Vertex>>)
  {
    IsMatrix(c.0, c.1, m)
  }

  lemma FramesCodec()
    ensures CompleteIn(ParseFrames, FramesBytes, FramesMatch) && SoundIn(ParseFrames, FramesBytes, FramesMatch)
  {
    Word3Codec();
    forall c: (u32, u32), m: seq<seq<Vertex>>, rest: Bytes | FramesMatch(c, m)
      ensures ParseFrames(c, FramesBytes(m) + rest) == Done(m, rest)
    {
      MatrixRoundTrip(Word3, Word3Bytes, c.0, m, rest);
    }
    forall c: (u32, u32), s: Bytes ensures var o := ParseFrames(c, s);
      o.Done? ==> FramesMatch(c, o.value) && s == FramesBytes(o.value) + o.rest
    {
      MatrixSound(Word3, Word3Bytes, c.0, c.1, s);
    }
  }

  /** The frames take `w * frame_count` bytes, `w = 12 * vertex_count`, and fail on anything shorter. */
  lemma FramesWidth(c: (u32, u32), w: nat, s: Bytes)
    requires w == 12 * c.0
    ensures var o := ParseFrames(c, s);
      !o.Panic? && (o.Failure? <==> |s| < w * c.1) && (o.Done? ==> |o.rest| == |s| - w * c.1)
  {
    Word3Width();
    MatrixWidth(Word3, 12, c.0, w, c.1, s);
  }

  // ---- the fragment

  datatype DmTrackDef = DmTrackDef(name_reference: StringReference, flags: u32, vertex_count: u32,
                                   frame_count: u32, sleep: u32, param1: u32, frames: seq<seq<Vertex>>)

  /** `DmTrackDef::parse`: every word little-endian. */
  function ParseDmTrackDef(s: Bytes): (o: Outcome<DmTrackDef>)
  {
    ParseDmTrackDefWith(ParseStringReference, U32, Word2, ParseFrames, s)
  }

  function ParseDmTrackDefWith(name: Bytes -> Outcome<StringReference>, word: Bytes -> Outcome<u32>,
                               pair: Bytes -> Outcome<(u32, u32)>,
                               frames: ((u32, u32), Bytes) -> Outcome<seq<seq<Vertex>>>, s: Bytes)
    : (o: Outcome<DmTrackDef>)
  {
    var n :- name(s);
    var flags :- word(n.rest);
    var counts :- pair(flags.rest);
    var params :- pair(counts.rest);
    var f :- frames(counts.value, params.rest);
    Done(DmTrackDef(n.value, flags.value, counts.value.0, counts.value.1, params.value.0, params.value.1, f.value),
         f.rest)
  }

  /** The header words after the flags, and the frames, as both writers emit them. */
  function TailBytes(d: DmTrackDef): Bytes
  {
    Word2Bytes((d.vertex_count, d.frame_count)) + Word2Bytes((d.sleep, d.param1)) + FramesBytes(d.frames)
  }

  /** `DmTrackDef::into_bytes` with the flags written little-endian, as they are read. */
  function DmTrackDefBytes(d: DmTrackDef): Bytes
  {
    StringReferenceBytes(d.name_reference) + LeU32(d.flags) + TailBytes(d)
  }

  /** `frame_count` frames, each of `vertex_count` positions. */
  predicate DmTrackDefWellFormed(d: DmTrackDef)
  {
    IsMatrix(d.vertex_count, d.frame_count, d.frames)
  }

  lemma DmTrackDefRoundTripWith(name: Bytes -> Outcome<StringReference>, word: Bytes -> Outcome<u32>,
                                pair: Bytes -> Outcome<(u32, u32)>,
                                frames: ((u32, u32), Bytes) -> Outcome<seq<seq<Vertex>>>, d: DmTrackDef, rest: Bytes)
    requires Complete(name, StringReferenceBytes, Any) && Complete(word, LeU32, Any) && Complete(pair, Word2Bytes, Any)
    requires CompleteIn(frames, FramesBytes, FramesMatch)
    requires DmTrackDefWellFormed(d)
    ensures ParseDmTrackDefWith(name, word, pair, frames, DmTrackDefBytes(d) + rest) == Done(d, rest)
  {
    var counts, params := (d.vertex_count, d.frame_count), (d.sleep, d.param1);
    var t4 := FramesBytes(d.frames) + rest;
    var t3 := Word2Bytes(params) + t4;
    var t2 := Word2Bytes(counts) + t3;
    var t1 := LeU32(d.flags) + t2;
    Nest5(StringReferenceBytes(d.name_reference), LeU32(d.flags), Word2Bytes(counts), Word2Bytes(params),
      FramesBytes(d.frames), rest);
    assert DmTrackDefBytes(d) + rest == StringReferenceBytes(d.name_reference) + t1;
    CompleteAt(name, StringReferenceBytes, Any, d.name_reference, t1);
    CompleteAt(word, LeU32, Any, d.flags, t2);
    CompleteAt(pair, Word2Bytes, Any, counts, t3);
    CompleteAt(pair, Word2Bytes, Any, params, t4);
    assert frames(counts, FramesBytes(d.frames) + rest) == Done(d.frames, rest);
  }

  lemma DmTrackDefExactWith(name: Bytes -> Outcome<StringReference>, word: Bytes -> Outcome<u32>,
                            pair: Bytes -> Outcome<(u32, u32)>,
                            frames: ((u32, u32), Bytes) -> Outcome<seq<seq<Vertex>>>, s: Bytes)
    requires Sound(name, StringReferenceBytes, Any) && Sound(word, LeU32, Any) && Sound(pair, Word2Bytes, Any)
    requires SoundIn(frames, FramesBytes, FramesMatch)
    ensures var o := ParseDmTrackDefWith(name, word, pair, frames, s);
      o.Done? ==> DmTrackDefWellFormed(o.value) && s == DmTrackDefBytes(o.value) + o.rest
  {
    var o := ParseDmTrackDefWith(name, word, pair, frames, s);
    if o.Done? {
      var d := o.value;
      var n := name(s);
      var flags := word(n.rest);
      var counts := pair(flags.rest);
      var params := pair(counts.rest);
      SoundAt(name, StringReferenceBytes, Any, s);
      SoundAt(word, LeU32, Any, n.rest);
      SoundAt(pair, Word2Bytes, Any, flags.rest);
      SoundAt(pair, Word2Bytes, Any, counts.rest);
      assert FramesMatch(counts.value, d.frames) && params.rest == FramesBytes(d.frames) + o.rest;
      Nest5(StringReferenceBytes(d.name_reference), LeU32(d.flags), Word2Bytes((d.vertex_count, d.frame_count)),
        Word2Bytes((d.sleep, d.param1)), FramesBytes(d.frames), o.rest);
    }
  }

  lemma DmTrackDefCodec()
    ensures Complete(ParseDmTrackDef, DmTrackDefBytes, DmTrackDefWellFormed)
    ensures Sound(ParseDmTrackDef, DmTrackDefBytes, DmTrackDefWellFormed)
  {
    StringReferenceCodec();
    U32Codec();
    Word2Codec();
    FramesCodec();
    forall d: DmTrackDef, rest: Bytes | DmTrackDefWellFormed(d)
      ensures ParseDmTrackDef(DmTrackDefBytes(d) + rest) == Done(d, rest)
    {
      DmTrackDefRoundTripWith(ParseStringReference, U32, Word2, ParseFrames, d, rest);
    }
    forall s: Bytes ensures var o := ParseDmTrackDef(s);
      o.Done? ==> DmTrackDefWellFormed(o.value) && s == DmTrackDefBytes(o.value) + o.rest
    {
      DmTrackDefExactWith(ParseStringReference, U32, Word2, ParseFrames, s);
    }
  }

  /** Parsing a track serialised with little-endian flags gives it back. */
  lemma DmTrackDefRoundTrip(d: DmTrackDef, rest: Bytes)
    requires DmTrackDefWellFormed(d)
    ensures ParseDmTrackDef(DmTrackDefBytes(d) + rest) == Done(d, rest)
  {
    DmTrackDefCodec();
    CompleteAt(ParseDmTrackDef, DmTrackDefBytes, DmTrackDefWellFormed, d, rest);
  }

  /**
   * A parsed track holds `frame_count` frames of `vertex_count` positions;
   * serialising it reproduces the input exactly when nothing was left over.
   */
  lemma DmTrackDefReparse(s: Bytes)
    ensures var o := ParseDmTrackDef(s);
      o.Done? ==> DmTrackDefWellFormed(o.value) && (DmTrackDefBytes(o.value) == s <==> o.rest == [])
  {
    var o := ParseDmTrackDef(s);
    if o.Done? {
      DmTrackDefCodec();
      SoundAt(ParseDmTrackDef, DmTrackDefBytes, DmTrackDefWellFormed, s);
      ReencodeExact(ParseDmTrackDef, DmTrackDefBytes, DmTrackDefWellFormed, s, []);
      assert DmTrackDefBytes(o.value) + [] == DmTrackDefBytes(o.value);
    }
  }

  /** A well-formed track serialises to `24 + 12 * vertex_count * frame_count` bytes. */
  lemma DmTrackDefBytesLength(d: DmTrackDef)
    requires DmTrackDefWellFormed(d)
    ensures |DmTrackDefBytes(d)| == HeaderSize + 12 * d.vertex_count * d.frame_count
  {
    MatrixBytesLength(Word3Bytes, 12, d.vertex_count, d.frames);
  }

  /** The vertex and frame counts a header declares, at offsets 8 and 12. */
  function DeclaredCounts(s: Bytes): (c: (u32, u32))
    requires |s| >= HeaderSize
    ensures Word2(s[8..]) == Done(c, s[16..])
  {
    assert s[8..] == Word2Bytes(Word2(s[8..]).value) + Word2(s[8..]).rest;
    Word2(s[8..]).value
  }

  /**
   * Parsing never panics: it fails exactly when the input is shorter than
   * the header, or than the header plus the frame matrix its counts
   * declare; otherwise it consumes exactly that many bytes.
   */
  lemma DmTrackDefWidth(s: Bytes)
    ensures var o := ParseDmTrackDef(s);
      !o.Panic? && (|s| < HeaderSize ==> o.Failure?) &&
      (|s| >= HeaderSize ==> var c := DeclaredCounts(s);
        var w := 12 * c.0;
        (o.Failure? <==> |s| < HeaderSize + w * c.1) && (o.Done? ==> |o.rest| == |s| - (HeaderSize + w * c.1)))
  {
    var n := ParseStringReference(s);
    if |s| >= HeaderSize {
      var c := DeclaredCounts(s);
      var w := 12 * c.0;
      assert n.rest == s[4..];
      var flags := U32(n.rest);
      assert flags.rest == s[8..];
      var params := Word2(s[16..]);
      var f := ParseFrames(c, params.rest);
      assert ParseDmTrackDef(s) == if f.Done? then Done(DmTrackDef(n.value, flags.value, c.0, c.1, params.value.0,
        params.value.1, f.value), f.rest) else f.PropagateFailure();
      FramesWidth(c, w, params.rest);
    }
  }

  // ---- the writer as it stands: flags big-endian

  /** `DmTrackDef::into_bytes` as written: `flags.to_be_bytes()`, every other field little-endian. */
  function DmTrackDefBytesAsWritten(d: DmTrackDef): Bytes
  {
    StringReferenceBytes(d.name_reference) + BeU32(d.flags) + TailBytes(d)
  }

  /** The word a little-endian read makes of the big-endian bytes of `x`: its bytes reversed. */
  function ByteSwap(x: u32): (r: u32)
    ensures LeU32(r) == BeU32(x)
  {
    var b0, b1, b2, b3 := x / 0x100_0000, (x / 0x1_0000) % 0x100, (x / 0x100) % 0x100, x % 0x100;
    Le32Digits(b0, b1, b2, b3);
    b0 + 0x100 * (b1 + 0x100 * (b2 + 0x100 * b3))
  }

  lemma LeU32Injective(x: u32, y: u32)
    requires LeU32(x) == LeU32(y)
    ensures x == y
  {
    U32RoundTrip(x, []);
    U32RoundTrip(y, []);
  }

  /** What the as-written bytes parse to: the same track with its flag bytes reversed. */
  lemma AsWrittenReversesFlags(d: DmTrackDef, rest: Bytes)
    requires DmTrackDefWellFormed(d)
    ensures ParseDmTrackDef(DmTrackDefBytesAsWritten(d) + rest) == Done(d.(flags := ByteSwap(d.flags)), rest)
  {
    var e := d.(flags := ByteSwap(d.flags));
    assert DmTrackDefBytesAsWritten(d) == DmTrackDefBytes(e);
    DmTrackDefRoundTrip(e, rest);
  }

  /** The as-written bytes parse back to the track exactly when its flag bytes read the same both ways round. */
  lemma AsWrittenRoundTripIff(d: DmTrackDef, rest: Bytes)
    requires DmTrackDefWellFormed(d)
    ensures ParseDmTrackDef(DmTrackDefBytesAsWritten(d) + rest) == Done(d, rest) <==> BeU32(d.flags) == LeU32(d.flags)
  {
    AsWrittenReversesFlags(d, rest);
    if BeU32(d.flags) == LeU32(d.flags) {
      LeU32Injective(ByteSwap(d.flags), d.flags);
      assert d.(flags := ByteSwap(d.flags)) == d;
    } else {
      assert d.(flags := ByteSwap(d.flags)).flags != d.flags;
    }
  }

  /** Flags of 1 (bytes `00 00 00 01` as written) come back as `0x0100_0000`. */
  lemma AsWrittenMisreadsFlagOne(d: DmTrackDef)
    requires DmTrackDefWellFormed(d) && d.flags == 1
    ensures ParseDmTrackDef(DmTrackDefBytesAsWritten(d)).Done?
    ensures ParseDmTrackDef(DmTrackDefBytesAsWritten(d)).value.flags == 0x0100_0000
  {
    AsWrittenReversesFlags(d, []);
    assert DmTrackDefBytesAsWritten(d) + [] == DmTrackDefBytesAsWritten(d);
    SwapOne();
  }

  lemma SwapOne()
    ensures ByteSwap(1) == 0x0100_0000
  {
    assert BeU32(1) == [0, 0, 0, 1] == LeU32(0x0100_0000);
    LeU32Injective(ByteSwap(1), 0x0100_0000);
  }
  /** A track whose flag word reads the same in either byte order, which the as-written writer therefore preserves. */
  predicate DmTrackDefWellFormedAsWritten(d: DmTrackDef)
  {
    DmTrackDefWellFormed(d) && BeU32(d.flags) == LeU32(d.flags)
  }

  /** Any other flag word comes back changed. */
  lemma AsWrittenChangesFlags(d: DmTrackDef, rest: Bytes)
    requires DmTrackDefWellFormed(d) && BeU32(d.flags) != LeU32(d.flags)
    ensures var o := ParseDmTrackDef(DmTrackDefBytesAsWritten(d) + rest); o.Done? && o.value != d
  {
    AsWrittenReversesFlags(d, rest);
    assert ByteSwap(d.flags) != d.flags;
  }
}
