/**
 * The DmTrackDef2 fragment (type 0x37): a vertex animation track with
 * 16-bit fixed-point positions. After the header (name, flags, vertex
 * and frame counts, two parameters and the scale) come `frame_count`
 * frames of `vertex_count` `(i16, i16, i16)` positions, then `size6`.
 */
module DmTrackDef2Fragment {
  import opened Wire
  import opened Strings
  import opened VertexFrames

  type Vertex = (i16, i16, i16)

  /** The bytes in front of the frames: name, flags, the two counts and three u16 parameters. */
  const HeaderSize: nat := 18

  // ---- the frames, read with `(vertex_count, frame_count)` in hand

  function ParseFrames(c: (u16, u16), s: Bytes): (o: Outcome<seq<seq<Vertex>>>)
  {
    ParseMatrix(Short3, c.0, c.1, s)
  }

  function FramesBytes(m: seq<seq<Vertex>>): Bytes
  {
    MatrixBytes(Short3Bytes, m)
  }

  predicate FramesMatch(c: (u16, u16), m: seq<seq<Vertex>>)
  {
    IsMatrix(c.0, c.1, m)
  }

  lemma FramesCodec()
    ensures CompleteIn(ParseFrames, FramesBytes, FramesMatch) && SoundIn(ParseFrames, FramesBytes, FramesMatch)
  {
    Short3Codec();
    forall c: (u16, u16), m: seq<seq<Vertex>>, rest: Bytes | FramesMatch(c, m)
      ensures ParseFrames(c, FramesBytes(m) + rest) == Done(m, rest)
    {
      MatrixRoundTrip(Short3, Short3Bytes, c.0, m, rest);
    }
    forall c: (u16, u16), s: Bytes ensures var o := ParseFrames(c, s);
      o.Done? ==> FramesMatch(c, o.value) && s == FramesBytes(o.value) + o.rest
    {
      MatrixSound(Short3, Short3Bytes, c.0, c.1, s);
    }
  }

  // ---- the body: the frames, then `size6`

  type Body = (seq<seq<Vertex>>, u16)

  function ParseBody(c: (u16, u16), s: Bytes): (o: Outcome<Body>)
  {
    var f :- ParseFrames(c, s);
    var size6 :- U16(f.rest);
    Done((f.value, size6.value), size6.rest)
  }

  function BodyBytes(x: Body): Bytes
  {
    FramesBytes(x.0) + LeU16(x.1)
  }

  predicate BodyMatches(c: (u16, u16), x: Body)
  {
    FramesMatch(c, x.0)
  }

  lemma BodyCodec()
    ensures CompleteIn(ParseBody, BodyBytes, BodyMatches) && SoundIn(ParseBody, BodyBytes, BodyMatches)
  {
    FramesCodec();
    forall c: (u16, u16), x: Body, rest: Bytes | BodyMatches(c, x)
      ensures ParseBody(c, BodyBytes(x) + rest) == Done(x, rest)
    {
      assert BodyBytes(x) + rest == FramesBytes(x.0) + (LeU16(x.1) + rest);
      U16RoundTrip(x.1, rest);
    }
    forall c: (u16, u16), s: Bytes ensures var o := ParseBody(c, s);
      o.Done? ==> BodyMatches(c, o.value) && s == BodyBytes(o.value) + o.rest
    {
      var o := ParseBody(c, s);
      if o.Done? {
        var f := ParseFrames(c, s);
        assert s == FramesBytes(f.value) + f.rest;
        assert f.rest == LeU16(o.value.1) + o.rest;
      }
    }
  }

  /** The body takes `w * frame_count + 2` bytes, `w = 6 * vertex_count`, and fails on anything shorter. */
  lemma BodyWidth(c: (u16, u16), w: nat, s: Bytes)
    requires w == 6 * c.0
    ensures var o := ParseBody(c, s);
      !o.Panic? && (o.Failure? <==> |s| < w * c.1 + 2) && (o.Done? ==> |o.rest| == |s| - (w * c.1 + 2))
  {
    Short3Width();
    MatrixWidth(Short3, 6, c.0, w, c.1, s);
    var f := ParseFrames(c, s);
    if f.Done? {
      assert ParseBody(c, s) == if |f.rest| < 2 then Failure else Done((f.value, U16(f.rest).value), U16(f.rest).rest);
    }
  }

  // ---- the fragment

  datatype DmTrackDef2 = DmTrackDef2(name_reference: StringReference, flags: u32, vertex_count: u16,
                                     frame_count: u16, param1: u16, param2: u16, scale: u16,
                                     frames: seq<seq<Vertex>>, size6: u16)

  /** `DmTrackDef2::parse`. */
  function ParseDmTrackDef2(s: Bytes): (o: Outcome<DmTrackDef2>)
  {
    ParseDmTrackDef2With(ParseStringReference, U32, Half2, Half3, ParseBody, s)
  }

  function ParseDmTrackDef2With(name: Bytes -> Outcome<StringReference>, word: Bytes -> Outcome<u32>,
                                pair: Bytes -> Outcome<(u16, u16)>, triple: Bytes -> Outcome<(u16, u16, u16)>,
                                body: ((u16, u16), Bytes) -> Outcome<Body>, s: Bytes): (o: Outcome<DmTrackDef2>)
  {
    var n :- name(s);
    var flags :- word(n.rest);
    var counts :- pair(flags.rest);
    var params :- triple(counts.rest);
    var b :- body(counts.value, params.rest);
    Done(DmTrackDef2(n.value, flags.value, counts.value.0, counts.value.1, params.value.0, params.value.1,
                     params.value.2, b.value.0, b.value.1), b.rest)
  }

  /** `DmTrackDef2::to_bytes`: every field little-endian, in parse order. */
  function DmTrackDef2Bytes(d: DmTrackDef2): Bytes
  {
    StringReferenceBytes(d.name_reference) + LeU32(d.flags) + Half2Bytes((d.vertex_count, d.frame_count)) +
    Half3Bytes((d.param1, d.param2, d.scale)) + BodyBytes((d.frames, d.size6))
  }

  /** `frame_count` frames, each of `vertex_count` positions. */
  predicate DmTrackDef2WellFormed(d: DmTrackDef2)
  {
    IsMatrix(d.vertex_count, d.frame_count, d.frames)
  }

  lemma DmTrackDef2RoundTripWith(name: Bytes -> Outcome<StringReference>, word: Bytes -> Outcome<u32>,
                                 pair: Bytes -> Outcome<(u16, u16)>, triple: Bytes -> Outcome<(u16, u16, u16)>,
                                 body: ((u16, u16), Bytes) -> Outcome<Body>, d: DmTrackDef2, rest: Bytes)
    requires Complete(name, StringReferenceBytes, Any) && Complete(word, LeU32, Any)
    requires Complete(pair, Half2Bytes, Any) && Complete(triple, Half3Bytes, Any)
    requires CompleteIn(body, BodyBytes, BodyMatches)
    requires DmTrackDef2WellFormed(d)
    ensures ParseDmTrackDef2With(name, word, pair, triple, body, DmTrackDef2Bytes(d) + rest) == Done(d, rest)
  {
    var counts, params, b := (d.vertex_count, d.frame_count), (d.param1, d.param2, d.scale), (d.frames, d.size6);
    var t4 := BodyBytes(b) + rest;
    var t3 := Half3Bytes(params) + t4;
    var t2 := Half2Bytes(counts) + t3;
    var t1 := LeU32(d.flags) + t2;
    Nest5(StringReferenceBytes(d.name_reference), LeU32(d.flags), Half2Bytes(counts), Half3Bytes(params),
      BodyBytes(b), rest);
    CompleteAt(name, StringReferenceBytes, Any, d.name_reference, t1);
    CompleteAt(word, LeU32, Any, d.flags, t2);
    CompleteAt(pair, Half2Bytes, Any, counts, t3);
    CompleteAt(triple, Half3Bytes, Any, params, t4);
    assert body(counts, BodyBytes(b) + rest) == Done(b, rest);
  }

  lemma DmTrackDef2ExactWith(name: Bytes -> Outcome<StringReference>, word: Bytes -> Outcome<u32>,
                             pair: Bytes -> Outcome<(u16, u16)>, triple: Bytes -> Outcome<(u16, u16, u16)>,
                             body: ((u16, u16), Bytes) -> Outcome<Body>, s: Bytes)
    requires Sound(name, StringReferenceBytes, Any) && Sound(word, LeU32, Any)
    requires Sound(pair, Half2Bytes, Any) && Sound(triple, Half3Bytes, Any)
    requires SoundIn(body, BodyBytes, BodyMatches)
    ensures var o := ParseDmTrackDef2With(name, word, pair, triple, body, s);
      o.Done? ==> DmTrackDef2WellFormed(o.value) && s == DmTrackDef2Bytes(o.value) + o.rest
  {
    var o := ParseDmTrackDef2With(name, word, pair, triple, body, s);
    if o.Done? {
      var d := o.value;
      var n := name(s);
      var flags := word(n.rest);
      var counts := pair(flags.rest);
      var params := triple(counts.rest);
      var b := body(counts.value, params.rest);
      SoundAt(name, StringReferenceBytes, Any, s);
      SoundAt(word, LeU32, Any, n.rest);
      SoundAt(pair, Half2Bytes, Any, flags.rest);
      SoundAt(triple, Half3Bytes, Any, counts.rest);
      assert BodyMatches(counts.value, b.value) && params.rest == BodyBytes(b.value) + b.rest;
      assert b.value == (d.frames, d.size6);
      Nest5(StringReferenceBytes(d.name_reference), LeU32(d.flags), Half2Bytes((d.vertex_count, d.frame_count)),
        Half3Bytes((d.param1, d.param2, d.scale)), BodyBytes(b.value), o.rest);
    }
  }

  lemma DmTrackDef2Codec()
    ensures Complete(ParseDmTrackDef2, DmTrackDef2Bytes, DmTrackDef2WellFormed)
    ensures Sound(ParseDmTrackDef2, DmTrackDef2Bytes, DmTrackDef2WellFormed)
  {
    StringReferenceCodec();
    U32Codec();
    Half2Codec();
    Half3Codec();
    BodyCodec();
    forall d: DmTrackDef2, rest: Bytes | DmTrackDef2WellFormed(d)
      ensures ParseDmTrackDef2(DmTrackDef2Bytes(d) + rest) == Done(d, rest)
    {
      DmTrackDef2RoundTripWith(ParseStringReference, U32, Half2, Half3, ParseBody, d, rest);
    }
    forall s: Bytes ensures var o := ParseDmTrackDef2(s);
      o.Done? ==> DmTrackDef2WellFormed(o.value) && s == DmTrackDef2Bytes(o.value) + o.rest
    {
      DmTrackDef2ExactWith(ParseStringReference, U32, Half2, Half3, ParseBody, s);
    }
  }

  /** Parsing a serialised track gives it back. */
  lemma DmTrackDef2RoundTrip(d: DmTrackDef2, rest: Bytes)
    requires DmTrackDef2WellFormed(d)
    ensures ParseDmTrackDef2(DmTrackDef2Bytes(d) + rest) == Done(d, rest)
  {
    DmTrackDef2Codec();
    CompleteAt(ParseDmTrackDef2, DmTrackDef2Bytes, DmTrackDef2WellFormed, d, rest);
  }

  /**
   * A parsed track holds `frame_count` frames of `vertex_count` positions;
   * serialising it reproduces the input exactly when nothing was left over.
   */
  lemma DmTrackDef2Reparse(s: Bytes)
    ensures var o := ParseDmTrackDef2(s);
      o.Done? ==> DmTrackDef2WellFormed(o.value) && (DmTrackDef2Bytes(o.value) == s <==> o.rest == [])
  {
    var o := ParseDmTrackDef2(s);
    if o.Done? {
      DmTrackDef2Codec();
      SoundAt(ParseDmTrackDef2, DmTrackDef2Bytes, DmTrackDef2WellFormed, s);
      ReencodeExact(ParseDmTrackDef2, DmTrackDef2Bytes, DmTrackDef2WellFormed, s, []);
      assert DmTrackDef2Bytes(o.value) + [] == DmTrackDef2Bytes(o.value);
    }
  }

  // ---- sizes

  /** A well-formed track serialises to `20 + 6 * vertex_count * frame_count` bytes. */
  lemma DmTrackDef2BytesLength(d: DmTrackDef2)
    requires DmTrackDef2WellFormed(d)
    ensures |DmTrackDef2Bytes(d)| == HeaderSize + 6 * d.vertex_count * d.frame_count + 2
  {
    MatrixBytesLength(Short3Bytes, 6, d.vertex_count, d.frames);
  }

  /** The vertex and frame counts a header declares, at offsets 8 and 10. */
  function DeclaredCounts(s: Bytes): (c: (u16, u16))
    requires |s| >= HeaderSize
    ensures Half2(s[8..]) == Done(c, s[12..])
  {
    assert s[8..] == Half2Bytes(Half2(s[8..]).value) + Half2(s[8..]).rest;
    Half2(s[8..]).value
  }

  /**
   * Parsing never panics: it fails exactly when the input is shorter than
   * the header, or than the header plus the frame matrix its counts declare
   * plus `size6`; otherwise it consumes exactly that many bytes.
   */
  lemma DmTrackDef2Width(s: Bytes)
    ensures var o := ParseDmTrackDef2(s);
      !o.Panic? && (|s| < HeaderSize ==> o.Failure?) &&
      (|s| >= HeaderSize ==> var c := DeclaredCounts(s);
        var w := 6 * c.0;
        (o.Failure? <==> |s| < HeaderSize + w * c.1 + 2) && (o.Done? ==> |o.rest| == |s| - (HeaderSize + w * c.1 + 2)))
  {
    var n := ParseStringReference(s);
    if |s| >= HeaderSize {
      var c := DeclaredCounts(s);
      var w := 6 * c.0;
      assert n.rest == s[4..];
      var flags := U32(n.rest);
      assert flags.rest == s[8..];
      var params := Half3(s[12..]);
      var b := ParseBody(c, params.rest);
      assert ParseDmTrackDef2(s) == if b.Done? then Done(DmTrackDef2(n.value, flags.value, c.0, c.1, params.value.0,
        params.value.1, params.value.2, b.value.0, b.value.1), b.rest) else b.PropagateFailure();
      BodyWidth(c, w, params.rest);
    }
  }

  /**
   * The gfaydark fixture's header declares 104 vertices in 15 frames; an
   * input of that header followed by exactly 9380 bytes in all parses with
   * nothing left over and re-serialises to itself.
   */
  lemma FixtureReserialises(s: Bytes)
    requires |s| == 9380 && DeclaredCounts(s) == (104, 15)
    ensures ParseDmTrackDef2(s).Done? && ParseDmTrackDef2(s).rest == []
    ensures DmTrackDef2Bytes(ParseDmTrackDef2(s).value) == s
  {
    DmTrackDef2Width(s);
    DmTrackDef2Reparse(s);
  }
}
