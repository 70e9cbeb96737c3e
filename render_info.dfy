/**
 * The render-info record shared by several fragments: a flag word and up
 * to six optional fields, each present exactly when its flag bit is set,
 * and the render-method word whose bit fields select draw style, lighting,
 * shading and texture style.
 */
module RenderInfoRecord {
  import opened Wire

  const PenFlag: u32 := 0x01
  const BrightnessFlag: u32 := 0x02
  const ScaledAmbientFlag: u32 := 0x04
  const SimpleSpriteFlag: u32 := 0x08
  const UvInfoFlag: u32 := 0x10
  const UvMapFlag: u32 := 0x20
  /** Read by `is_two_sided` only: it selects no field. */
  const TwoSidedFlag: u32 := 0x40

  /** Origin, u axis and v axis of a texture mapping, nine f32 words. */
  datatype UvInfo = UvInfo(uv_origin: (f32, f32, f32), u_axis: (f32, f32, f32), v_axis: (f32, f32, f32))

  /** A stored count followed by that many (u, v) pairs. */
  datatype UvMap = UvMap(entry_count: u32, entries: seq<(f32, f32)>)

  datatype RenderInfo = RenderInfo(
    flags: u32,
    pen: Option<u32>,
    brightness: Option<f32>,
    scaled_ambient: Option<f32>,
    simple_sprite_reference: Option<u32>,
    uv_info: Option<UvInfo>,
    uv_map: Option<UvMap>)

  // ---- UvInfo

  /** `UvInfo::parse`: three triples of f32 words. */
  function ParseUvInfo(s: Bytes): (o: Outcome<UvInfo>)
  {
    ParseUvInfoWith(Word3, s)
  }

  /** The same read over any parser of a word triple. */
  function ParseUvInfoWith(triple: Bytes -> Outcome<(u32, u32, u32)>, s: Bytes): (o: Outcome<UvInfo>)
  {
    var origin :- triple(s);
    var u :- triple(origin.rest);
    var v :- triple(u.rest);
    Done(UvInfo(origin.value, u.value, v.value), v.rest)
  }

  function UvInfoBytes(u: UvInfo): (b: Bytes)
    ensures |b| == 36
  {
    Word3Bytes(u.uv_origin) + Word3Bytes(u.u_axis) + Word3Bytes(u.v_axis)
  }

  lemma UvInfoRoundTripWith(triple: Bytes -> Outcome<(u32, u32, u32)>, u: UvInfo, rest: Bytes)
    requires Complete(triple, Word3Bytes, Any)
    ensures ParseUvInfoWith(triple, UvInfoBytes(u) + rest) == Done(u, rest)
  {
    var t2 := Word3Bytes(u.v_axis) + rest;
    var t1 := Word3Bytes(u.u_axis) + t2;
    Nest3(Word3Bytes(u.uv_origin), Word3Bytes(u.u_axis), Word3Bytes(u.v_axis), rest);
    assert triple(Word3Bytes(u.uv_origin) + t1) == Done(u.uv_origin, t1);
    assert triple(Word3Bytes(u.u_axis) + t2) == Done(u.u_axis, t2);
    assert triple(Word3Bytes(u.v_axis) + rest) == Done(u.v_axis, rest);
  }

  lemma UvInfoSoundWith(triple: Bytes -> Outcome<(u32, u32, u32)>, s: Bytes)
    requires Sound(triple, Word3Bytes, Any) && FixedWidth(triple, 12)
    ensures var o := ParseUvInfoWith(triple, s);
      !o.Panic? && (o.Failure? <==> |s| < 36) && (o.Done? ==> s == UvInfoBytes(o.value) + o.rest)
  {
    var o := ParseUvInfoWith(triple, s);
    FixedWidthAt(triple, 12, s);
    if triple(s).Done? {
      var a := triple(s);
      FixedWidthAt(triple, 12, a.rest);
      if triple(a.rest).Done? {
        var b := triple(a.rest);
        FixedWidthAt(triple, 12, b.rest);
        if o.Done? {
          Nest3(Word3Bytes(o.value.uv_origin), Word3Bytes(o.value.u_axis), Word3Bytes(o.value.v_axis), o.rest);
        }
      }
    }
  }

  /** A UvInfo is always 36 bytes and reads back from its encoding. */
  lemma UvInfoCodec()
    ensures Complete(ParseUvInfo, UvInfoBytes, Any) && Sound(ParseUvInfo, UvInfoBytes, Any)
    ensures FixedWidth(ParseUvInfo, 36)
  {
    Word3Codec();
    forall u: UvInfo, rest: Bytes ensures ParseUvInfo(UvInfoBytes(u) + rest) == Done(u, rest) {
      UvInfoRoundTripWith(Word3, u, rest);
    }
    forall s: Bytes ensures var o := ParseUvInfo(s);
      !o.Panic? && (o.Failure? <==> |s| < 36) && (o.Done? ==> |o.rest| == |s| - 36 && s == UvInfoBytes(o.value) + o.rest) {
      UvInfoSoundWith(Word3, s);
    }
  }

  // ---- UvMap

  /** `UvMap::parse`: the count, then that many (u, v) pairs. */
  function ParseUvMap(s: Bytes): (o: Outcome<UvMap>)
    ensures !o.Panic?
    ensures o.Failure? <==> |s| < 4 || |s| - 4 < 8 * LeU32Value(s)
    ensures o.Done? ==> |o.value.entries| == o.value.entry_count
    ensures o.Done? ==>
      s[..4] == LeU32(o.value.entry_count) && Many(Word2, o.value.entry_count, s[4..]) == Done(o.value.entries, o.rest)
  {
    var count :- U32(s);
    Word2Codec();
    ManyFixedWidth(Word2, 8, count.value, count.rest);
    var entries :- Many(Word2, count.value, count.rest);
    Done(UvMap(count.value, entries.value), entries.rest)
  }

  /** The count a little-endian u32 prefix announces (0 for a shorter input). */
  function LeU32Value(s: Bytes): nat
  {
    if |s| < 4 then 0 else U32(s).value
  }

  /** `UvMap::into_bytes` writes the stored count, not the list length. */
  function UvMapBytes(m: UvMap): (b: Bytes)
  {
    LeU32(m.entry_count) + Flat(Word2Bytes, m.entries)
  }

  predicate UvMapWellFormed(m: UvMap)
  {
    |m.entries| == m.entry_count
  }

  lemma UvMapRoundTrip(m: UvMap, rest: Bytes)
    requires UvMapWellFormed(m)
    ensures ParseUvMap(UvMapBytes(m) + rest) == Done(m, rest)
  {
    var t1 := Flat(Word2Bytes, m.entries) + rest;
    assert UvMapBytes(m) + rest == LeU32(m.entry_count) + t1;
    U32RoundTrip(m.entry_count, t1);
    Word2Codec();
    ManyRoundTrip(Word2, Word2Bytes, Any, m.entries, rest);
  }

  lemma UvMapExact(s: Bytes)
    ensures var o := ParseUvMap(s);
      o.Done? ==> UvMapWellFormed(o.value) && s == UvMapBytes(o.value) + o.rest
  {
    var o := ParseUvMap(s);
    if o.Done? {
      UvMapLayout(s, o.value, o.rest);
    }
  }

  lemma UvMapLayout(s: Bytes, m: UvMap, rest: Bytes)
    requires |s| >= 4 && s[..4] == LeU32(m.entry_count)
    requires Many(Word2, m.entry_count, s[4..]) == Done(m.entries, rest)
    ensures s == UvMapBytes(m) + rest
  {
    Word2Codec();
    ManySound(Word2, Word2Bytes, Any, m.entry_count, s[4..]);
    SplitAt(s, 4, LeU32(m.entry_count), Flat(Word2Bytes, m.entries) + rest);
    Nest2(LeU32(m.entry_count), Flat(Word2Bytes, m.entries), rest);
  }

  /** A UvMap whose count matches its list reads back from its encoding, and every parsed one does. */
  lemma UvMapCodec()
    ensures Complete(ParseUvMap, UvMapBytes, UvMapWellFormed)
    ensures Sound(ParseUvMap, UvMapBytes, UvMapWellFormed)
  {
    forall m: UvMap, rest: Bytes | UvMapWellFormed(m) ensures ParseUvMap(UvMapBytes(m) + rest) == Done(m, rest) {
      UvMapRoundTrip(m, rest);
    }
    forall s: Bytes ensures ParseUvMap(s).Done? ==>
      UvMapWellFormed(ParseUvMap(s).value) && s == UvMapBytes(ParseUvMap(s).value) + ParseUvMap(s).rest {
      UvMapExact(s);
    }
  }

  // ---- RenderInfo

  /** Each optional field is present exactly when its flag bit is set. */
  predicate RenderInfoWellFormed(r: RenderInfo)
  {
    Gated(HasFlag(r.flags, PenFlag), Any, r.pen) &&
    Gated(HasFlag(r.flags, BrightnessFlag), Any, r.brightness) &&
    Gated(HasFlag(r.flags, ScaledAmbientFlag), Any, r.scaled_ambient) &&
    Gated(HasFlag(r.flags, SimpleSpriteFlag), Any, r.simple_sprite_reference) &&
    Gated(HasFlag(r.flags, UvInfoFlag), Any, r.uv_info) &&
    Gated(HasFlag(r.flags, UvMapFlag), UvMapWellFormed, r.uv_map)
  }

  /** `RenderInfo::parse`: the flags, then each field its bit announces, in a fixed order. */
  function ParseRenderInfo(s: Bytes): (o: Outcome<RenderInfo>)
  {
    ParseRenderInfoWith(U32, ParseUvInfo, ParseUvMap, s)
  }

  /** The same read over any parsers of its words, UvInfo and UvMap. */
  function ParseRenderInfoWith(word: Bytes -> Outcome<u32>, info: Bytes -> Outcome<UvInfo>,
                               pairs: Bytes -> Outcome<UvMap>, s: Bytes): (o: Outcome<RenderInfo>)
    ensures o.Done? ==> var r := o.value;
      (r.pen.Some? <==> HasFlag(r.flags, PenFlag)) &&
      (r.brightness.Some? <==> HasFlag(r.flags, BrightnessFlag)) &&
      (r.scaled_ambient.Some? <==> HasFlag(r.flags, ScaledAmbientFlag)) &&
      (r.simple_sprite_reference.Some? <==> HasFlag(r.flags, SimpleSpriteFlag)) &&
      (r.uv_info.Some? <==> HasFlag(r.flags, UvInfoFlag)) &&
      (r.uv_map.Some? <==> HasFlag(r.flags, UvMapFlag))
  {
    var flags :- word(s);
    var f := flags.value;
    var pen :- When(HasFlag(f, PenFlag), word, flags.rest);
    var brightness :- When(HasFlag(f, BrightnessFlag), word, pen.rest);
    var ambient :- When(HasFlag(f, ScaledAmbientFlag), word, brightness.rest);
    var sprite :- When(HasFlag(f, SimpleSpriteFlag), word, ambient.rest);
    var uvInfo :- When(HasFlag(f, UvInfoFlag), info, sprite.rest);
    var uvMap :- When(HasFlag(f, UvMapFlag), pairs, uvInfo.rest);
    Done(RenderInfo(f, pen.value, brightness.value, ambient.value, sprite.value, uvInfo.value, uvMap.value), uvMap.rest)
  }

  /** `RenderInfo::into_bytes`: the flags, then every present field in parse order. */
  function RenderInfoBytes(r: RenderInfo): (b: Bytes)
    ensures |b| >= 4
  {
    LeU32(r.flags) + OptBytes(LeU32, r.pen) + OptBytes(LeU32, r.brightness) +
    OptBytes(LeU32, r.scaled_ambient) + OptBytes(LeU32, r.simple_sprite_reference) +
    OptBytes(UvInfoBytes, r.uv_info) + OptBytes(UvMapBytes, r.uv_map)
  }

  lemma RenderInfoRoundTripWith(word: Bytes -> Outcome<u32>, info: Bytes -> Outcome<UvInfo>,
                                pairs: Bytes -> Outcome<UvMap>, r: RenderInfo, rest: Bytes)
    requires Complete(word, LeU32, Any) && Complete(info, UvInfoBytes, Any)
    requires Complete(pairs, UvMapBytes, UvMapWellFormed)
    requires RenderInfoWellFormed(r)
    ensures ParseRenderInfoWith(word, info, pairs, RenderInfoBytes(r) + rest) == Done(r, rest)
  {
    var t6 := OptBytes(UvMapBytes, r.uv_map) + rest;
    var t5 := OptBytes(UvInfoBytes, r.uv_info) + t6;
    var t4 := OptBytes(LeU32, r.simple_sprite_reference) + t5;
    var t3 := OptBytes(LeU32, r.scaled_ambient) + t4;
    var t2 := OptBytes(LeU32, r.brightness) + t3;
    var t1 := OptBytes(LeU32, r.pen) + t2;
    Nest7(LeU32(r.flags), OptBytes(LeU32, r.pen), OptBytes(LeU32, r.brightness),
      OptBytes(LeU32, r.scaled_ambient), OptBytes(LeU32, r.simple_sprite_reference),
      OptBytes(UvInfoBytes, r.uv_info), OptBytes(UvMapBytes, r.uv_map), rest);
    CompleteAt(word, LeU32, Any, r.flags, t1);
    WhenRoundTrip(HasFlag(r.flags, PenFlag), word, LeU32, Any, r.pen, t2);
    WhenRoundTrip(HasFlag(r.flags, BrightnessFlag), word, LeU32, Any, r.brightness, t3);
    WhenRoundTrip(HasFlag(r.flags, ScaledAmbientFlag), word, LeU32, Any, r.scaled_ambient, t4);
    WhenRoundTrip(HasFlag(r.flags, SimpleSpriteFlag), word, LeU32, Any, r.simple_sprite_reference, t5);
    WhenRoundTrip(HasFlag(r.flags, UvInfoFlag), info, UvInfoBytes, Any, r.uv_info, t6);
    WhenRoundTrip(HasFlag(r.flags, UvMapFlag), pairs, UvMapBytes, UvMapWellFormed, r.uv_map, rest);
  }

  /** A record whose fields match its flags reads back from its encoding. */
  lemma RenderInfoRoundTrip(r: RenderInfo, rest: Bytes)
    requires RenderInfoWellFormed(r)
    ensures ParseRenderInfo(RenderInfoBytes(r) + rest) == Done(r, rest)
  {
    U32Codec();
    UvInfoCodec();
    UvMapCodec();
    RenderInfoRoundTripWith(U32, ParseUvInfo, ParseUvMap, r, rest);
  }

  lemma RenderInfoExactWith(word: Bytes -> Outcome<u32>, info: Bytes -> Outcome<UvInfo>,
                            pairs: Bytes -> Outcome<UvMap>, s: Bytes)
    requires Sound(word, LeU32, Any) && Sound(info, UvInfoBytes, Any)
    requires Sound(pairs, UvMapBytes, UvMapWellFormed)
    ensures var o := ParseRenderInfoWith(word, info, pairs, s);
      o.Done? ==> RenderInfoWellFormed(o.value) && s == RenderInfoBytes(o.value) + o.rest
  {
    var o := ParseRenderInfoWith(word, info, pairs, s);
    if o.Done? {
      var flags := word(s);
      var f := flags.value;
      var pen := When(HasFlag(f, PenFlag), word, flags.rest);
      var brightness := When(HasFlag(f, BrightnessFlag), word, pen.rest);
      var ambient := When(HasFlag(f, ScaledAmbientFlag), word, brightness.rest);
      var sprite := When(HasFlag(f, SimpleSpriteFlag), word, ambient.rest);
      var uvInfo := When(HasFlag(f, UvInfoFlag), info, sprite.rest);
      var uvMap := When(HasFlag(f, UvMapFlag), pairs, uvInfo.rest);
      assert flags.Done? && pen.Done? && brightness.Done? && ambient.Done? && sprite.Done? && uvInfo.Done? && uvMap.Done?;
      var r := RenderInfo(f, pen.value, brightness.value, ambient.value, sprite.value, uvInfo.value, uvMap.value);
      assert o == Done(r, uvMap.rest);
      SoundAt(word, LeU32, Any, s);
      WhenSound(HasFlag(f, PenFlag), word, LeU32, Any, flags.rest);
      WhenSound(HasFlag(f, BrightnessFlag), word, LeU32, Any, pen.rest);
      WhenSound(HasFlag(f, ScaledAmbientFlag), word, LeU32, Any, brightness.rest);
      WhenSound(HasFlag(f, SimpleSpriteFlag), word, LeU32, Any, ambient.rest);
      WhenSound(HasFlag(f, UvInfoFlag), info, UvInfoBytes, Any, sprite.rest);
      WhenSound(HasFlag(f, UvMapFlag), pairs, UvMapBytes, UvMapWellFormed, uvInfo.rest);
      Nest7(LeU32(f), OptBytes(LeU32, r.pen), OptBytes(LeU32, r.brightness),
        OptBytes(LeU32, r.scaled_ambient), OptBytes(LeU32, r.simple_sprite_reference),
        OptBytes(UvInfoBytes, r.uv_info), OptBytes(UvMapBytes, r.uv_map), uvMap.rest);
    }
  }

  /**
   * Every parsed record has each optional field exactly when its flag bit
   * is set, and re-encodes to exactly the bytes consumed.
   */
  lemma RenderInfoExact(s: Bytes)
    ensures var o := ParseRenderInfo(s);
      o.Done? ==> RenderInfoWellFormed(o.value) && s == RenderInfoBytes(o.value) + o.rest
  {
    U32Codec();
    UvInfoCodec();
    UvMapCodec();
    RenderInfoExactWith(U32, ParseUvInfo, ParseUvMap, s);
  }

  lemma RenderInfoCodec()
    ensures Complete(ParseRenderInfo, RenderInfoBytes, RenderInfoWellFormed)
    ensures Sound(ParseRenderInfo, RenderInfoBytes, RenderInfoWellFormed)
  {
    forall r: RenderInfo, rest: Bytes | RenderInfoWellFormed(r)
      ensures ParseRenderInfo(RenderInfoBytes(r) + rest) == Done(r, rest)
    {
      RenderInfoRoundTrip(r, rest);
    }
    forall s: Bytes ensures var o := ParseRenderInfo(s);
      o.Done? ==> RenderInfoWellFormed(o.value) && s == RenderInfoBytes(o.value) + o.rest
    {
      RenderInfoExact(s);
    }
  }

  lemma RenderInfoNeverPanicsWith(word: Bytes -> Outcome<u32>, info: Bytes -> Outcome<UvInfo>,
                                  pairs: Bytes -> Outcome<UvMap>, s: Bytes)
    requires NeverPanics(word) && NeverPanics(info) && NeverPanics(pairs)
    ensures !ParseRenderInfoWith(word, info, pairs, s).Panic?
  {
  }

  /** Parsing reports a short input as an error and never panics. */
  lemma RenderInfoNeverPanics(s: Bytes)
    ensures !ParseRenderInfo(s).Panic?
    ensures |s| < 4 ==> ParseRenderInfo(s).Failure?
  {
    UvInfoCodec();
    assert NeverPanics(U32);
    assert NeverPanics(ParseUvInfo) by {
      forall t: Bytes ensures !ParseUvInfo(t).Panic? { FixedWidthAt(ParseUvInfo, 36, t); }
    }
    assert NeverPanics(ParseUvMap);
    RenderInfoNeverPanicsWith(U32, ParseUvInfo, ParseUvMap, s);
  }

  // ---- the render-method word

  /** `self.0 & 0b11`: bits 0-1. */
  function DrawStyleBits(m: u32): (v: nat)
    ensures v < 4
  {
    m % 4
  }

  /** `(self.0 >> 2) & 0b111`: bits 2-4. */
  function LightingBits(m: u32): (v: nat)
    ensures v < 8
  {
    (m / 4) % 8
  }

  /** `(self.0 >> 5) & 0b11`: bits 5-6. */
  function ShadingBits(m: u32): (v: nat)
    ensures v < 4
  {
    (m / 32) % 4
  }

  /** `(self.0 >> 7) & 0b1111`: bits 7-10. */
  function TextureStyleBits(m: u32): (v: nat)
    ensures v < 16
  {
    (m / 128) % 16
  }

  /** `unknown_bits`, `(self.0 >> 11) & 0xfffff`: bits 11-30. */
  function UnknownBits(m: u32): (v: nat)
    ensures v < 0x10_0000
  {
    (m / 0x800) % 0x10_0000
  }

  /** `user_defined`, `self.0 >> 31 == 1`: bit 31. */
  predicate UserDefined(m: u32)
  {
    m / 0x8000_0000 == 1
  }

  /** The word with the given bit fields, low field first. */
  function RenderMethodOf(draw: nat, lighting: nat, shading: nat, texture: nat, unknown: nat, userDefined: bool): (m: u32)
    requires draw < 4 && lighting < 8 && shading < 4 && texture < 16 && unknown < 0x10_0000
  {
    draw + 4 * lighting + 32 * shading + 128 * texture + 0x800 * unknown + (if userDefined then 0x8000_0000 else 0)
  }

  /** Splitting `lo + base * hi` back into its digit and the rest, for the field widths of the word. */
  lemma FieldDigit(base: nat, lo: int, hi: int)
    requires base == 4 || base == 8 || base == 16 || base == 32 || base == 128 || base == 0x800 ||
             base == 0x10_0000 || base == 0x8000_0000
    requires 0 <= lo < base
    ensures (lo + base * hi) / base == hi && (lo + base * hi) % base == lo
  {
    if base == 4 {
    } else if base == 8 {
    } else if base == 16 {
    } else if base == 32 {
    } else if base == 128 {
    } else if base == 0x800 {
    } else if base == 0x10_0000 {
    } else {
    }
  }

  /**
   * The six accessors read disjoint fields that together cover the word:
   * composing a word from its fields gives it back.
   */
  lemma RenderMethodFields(m: u32)
    ensures RenderMethodOf(DrawStyleBits(m), LightingBits(m), ShadingBits(m), TextureStyleBits(m), UnknownBits(m), UserDefined(m)) == m
  {
    var q1 := m / 4;
    var q2 := q1 / 8;
    var q3 := q2 / 4;
    var q4 := q3 / 16;
    var q5 := q4 / 0x10_0000;
    var lo2 := m % 4 + 4 * (q1 % 8);
    assert m == lo2 + 32 * q2;
    FieldDigit(32, lo2, q2);
    var lo3 := lo2 + 32 * (q2 % 4);
    assert m == lo3 + 128 * q3;
    FieldDigit(128, lo3, q3);
    var lo4 := lo3 + 128 * (q3 % 16);
    assert m == lo4 + 0x800 * q4;
    FieldDigit(0x800, lo4, q4);
    var lo5 := lo4 + 0x800 * (q4 % 0x10_0000);
    assert m == lo5 + 0x8000_0000 * q5;
    FieldDigit(0x8000_0000, lo5, q5);
  }

  /** Each accessor reads back exactly its own field of a composed word. */
  lemma RenderMethodAccessors(draw: nat, lighting: nat, shading: nat, texture: nat, unknown: nat, userDefined: bool)
    requires draw < 4 && lighting < 8 && shading < 4 && texture < 16 && unknown < 0x10_0000
    ensures var m := RenderMethodOf(draw, lighting, shading, texture, unknown, userDefined);
      DrawStyleBits(m) == draw && LightingBits(m) == lighting && ShadingBits(m) == shading &&
      TextureStyleBits(m) == texture && UnknownBits(m) == unknown && UserDefined(m) == userDefined
  {
    var top := if userDefined then 1 else 0;
    var m := RenderMethodOf(draw, lighting, shading, texture, unknown, userDefined);
    var q4 := unknown + 0x10_0000 * top;
    var q3 := texture + 16 * q4;
    var q2 := shading + 4 * q3;
    var q1 := lighting + 8 * q2;
    assert m == draw + 4 * q1;
    FieldDigit(4, draw, q1);
    FieldDigit(8, lighting, q2);
    var lo2 := draw + 4 * lighting;
    assert m == lo2 + 32 * q2;
    FieldDigit(32, lo2, q2);
    FieldDigit(4, shading, q3);
    var lo3 := lo2 + 32 * shading;
    assert m == lo3 + 128 * q3;
    FieldDigit(128, lo3, q3);
    FieldDigit(16, texture, q4);
    var lo4 := lo3 + 128 * texture;
    assert m == lo4 + 0x800 * q4;
    FieldDigit(0x800, lo4, q4);
    FieldDigit(0x10_0000, unknown, top);
    var lo5 := lo4 + 0x800 * unknown;
    assert m == lo5 + 0x8000_0000 * top;
    FieldDigit(0x8000_0000, lo5, top);
  }

  // ---- the variants the render-method fields name (`#[derive(FromPrimitive)]` enums)

  datatype DrawStyle = Transparent | Unknown | Wireframe | Solid

  /** The discriminant `DrawStyle` declares for each variant. */
  function DrawStyleCode(x: DrawStyle): (v: nat)
    ensures v < 4
  {
    match x
    case Transparent => 0x0
    case Unknown => 0x1
    case Wireframe => 0x2
    case Solid => 0x3
  }

  /** `FromPrimitive::from_u32` for `DrawStyle`: the variant with discriminant `v`, if one is declared. */
  function DrawStyleFromU32(v: nat): (r: Option<DrawStyle>)
    ensures r.Some? <==> v < 4
    ensures r.Some? ==> DrawStyleCode(r.value) == v
  {
    if v == 0x0 then Some(DrawStyle.Transparent)
    else if v == 0x1 then Some(DrawStyle.Unknown)
    else if v == 0x2 then Some(DrawStyle.Wireframe)
    else if v == 0x3 then Some(DrawStyle.Solid)
    else Option.None
  }

  lemma DrawStyleDecodes(x: DrawStyle)
    ensures DrawStyleFromU32(DrawStyleCode(x)) == Some(x)
  {
  }
  datatype Lighting = ZeroIntensity | Unknown1 | Constant | XXXXX | Ambient | ScaledAmbient | Unknown2 | Invalid

  /** The discriminant `Lighting` declares for each variant. */
  function LightingCode(x: Lighting): (v: nat)
    ensures v < 8
  {
    match x
    case ZeroIntensity => 0x0
    case Unknown1 => 0x1
    case Constant => 0x2
    case XXXXX => 0x3
    case Ambient => 0x4
    case ScaledAmbient => 0x5
    case Unknown2 => 0x6
    case Invalid => 0x7
  }

  /** `FromPrimitive::from_u32` for `Lighting`: the variant with discriminant `v`, if one is declared. */
  function LightingFromU32(v: nat): (r: Option<Lighting>)
    ensures r.Some? <==> v < 8
    ensures r.Some? ==> LightingCode(r.value) == v
  {
    if v == 0x0 then Some(Lighting.ZeroIntensity)
    else if v == 0x1 then Some(Lighting.Unknown1)
    else if v == 0x2 then Some(Lighting.Constant)
    else if v == 0x3 then Some(Lighting.XXXXX)
    else if v == 0x4 then Some(Lighting.Ambient)
    else if v == 0x5 then Some(Lighting.ScaledAmbient)
    else if v == 0x6 then Some(Lighting.Unknown2)
    else if v == 0x7 then Some(Lighting.Invalid)
    else Option.None
  }

  lemma LightingDecodes(x: Lighting)
    ensures LightingFromU32(LightingCode(x)) == Some(x)
  {
  }
  datatype Shading = None1 | None2 | Gouraud1 | Gouraud2

  /** The discriminant `Shading` declares for each variant. */
  function ShadingCode(x: Shading): (v: nat)
    ensures v < 4
  {
    match x
    case None1 => 0x0
    case None2 => 0x1
    case Gouraud1 => 0x2
    case Gouraud2 => 0x3
  }

  /** `FromPrimitive::from_u32` for `Shading`: the variant with discriminant `v`, if one is declared. */
  function ShadingFromU32(v: nat): (r: Option<Shading>)
    ensures r.Some? <==> v < 4
    ensures r.Some? ==> ShadingCode(r.value) == v
  {
    if v == 0x0 then Some(Shading.None1)
    else if v == 0x1 then Some(Shading.None2)
    else if v == 0x2 then Some(Shading.Gouraud1)
    else if v == 0x3 then Some(Shading.Gouraud2)
    else Option.None
  }

  lemma ShadingDecodes(x: Shading)
    ensures ShadingFromU32(ShadingCode(x)) == Some(x)
  {
  }
  /** The texture styles as declared: no variant has discriminant 0xd. */
  datatype TextureStyle = None | XXXXXXXX1 | Texture1 | TransTexture1 | Texture2 | TransTexture2 | Texture3 | XXXXXXXX2 | Texture4 | TransTexture4 | Texture5 | TransTexture5 | Unknown1 | Unknown2 | XXXXX

  /** The discriminant `TextureStyle` declares for each variant. */
  function TextureStyleCode(x: TextureStyle): (v: nat)
    ensures v < 16 && v != 0xd
  {
    match x
    case None => 0x0
    case XXXXXXXX1 => 0x1
    case Texture1 => 0x2
    case TransTexture1 => 0x3
    case Texture2 => 0x4
    case TransTexture2 => 0x5
    case Texture3 => 0x6
    case XXXXXXXX2 => 0x7
    case Texture4 => 0x8
    case TransTexture4 => 0x9
    case Texture5 => 0xa
    case TransTexture5 => 0xb
    case Unknown1 => 0xc
    case Unknown2 => 0xe
    case XXXXX => 0xf
  }

  /** `FromPrimitive::from_u32` for `TextureStyle`: the variant with discriminant `v`, if one is declared. */
  function TextureStyleFromU32(v: nat): (r: Option<TextureStyle>)
    ensures r.Some? <==> v < 16 && v != 0xd
    ensures r.Some? ==> TextureStyleCode(r.value) == v
  {
    if v == 0x0 then Some(TextureStyle.None)
    else if v == 0x1 then Some(TextureStyle.XXXXXXXX1)
    else if v == 0x2 then Some(TextureStyle.Texture1)
    else if v == 0x3 then Some(TextureStyle.TransTexture1)
    else if v == 0x4 then Some(TextureStyle.Texture2)
    else if v == 0x5 then Some(TextureStyle.TransTexture2)
    else if v == 0x6 then Some(TextureStyle.Texture3)
    else if v == 0x7 then Some(TextureStyle.XXXXXXXX2)
    else if v == 0x8 then Some(TextureStyle.Texture4)
    else if v == 0x9 then Some(TextureStyle.TransTexture4)
    else if v == 0xa then Some(TextureStyle.Texture5)
    else if v == 0xb then Some(TextureStyle.TransTexture5)
    else if v == 0xc then Some(TextureStyle.Unknown1)
    else if v == 0xe then Some(TextureStyle.Unknown2)
    else if v == 0xf then Some(TextureStyle.XXXXX)
    else Option.None
  }

  lemma TextureStyleDecodes(x: TextureStyle)
    ensures TextureStyleFromU32(TextureStyleCode(x)) == Some(x)
  {
  }
  // ---- the accessors: `FromPrimitive::from_u32(field).unwrap()`

  /** `draw_style`: every two-bit value names a variant, so the unwrap never panics. */
  function DrawStyleOf(m: u32): (r: Fallible<DrawStyle>)
    ensures r.Returns? && DrawStyleCode(r.value) == DrawStyleBits(m)
  {
    var d := DrawStyleFromU32(DrawStyleBits(m));
    if d.Some? then Returns(d.value) else Panics
  }

  /** `lighting`: every three-bit value names a variant. */
  function LightingOf(m: u32): (r: Fallible<Lighting>)
    ensures r.Returns? && LightingCode(r.value) == LightingBits(m)
  {
    var l := LightingFromU32(LightingBits(m));
    if l.Some? then Returns(l.value) else Panics
  }

  /** `shading`: every two-bit value names a variant. */
  function ShadingOf(m: u32): (r: Fallible<Shading>)
    ensures r.Returns? && ShadingCode(r.value) == ShadingBits(m)
  {
    var h := ShadingFromU32(ShadingBits(m));
    if h.Some? then Returns(h.value) else Panics
  }

  /**
   * `texture_style` as written: the four-bit field 0xd names no variant,
   * so the unwrap panics for it, although the comment beside it says every
   * value is covered.
   */
  function TextureStyleOf(m: u32): (r: Fallible<TextureStyle>)
    ensures r.Panics? <==> TextureStyleBits(m) == 0xd
    ensures r.Returns? ==> TextureStyleCode(r.value) == TextureStyleBits(m)
  {
    var t := TextureStyleFromU32(TextureStyleBits(m));
    if t.Some? then Returns(t.value) else Panics
  }

  /** The render method 0x680 (texture field 0xd, every other field 0) makes `texture_style` panic. */
  lemma TextureStylePanicsOn0xD()
    ensures TextureStyleBits(0x680) == 0xd && TextureStyleOf(0x680).Panics?
  {
  }

  /** A texture-style field that is either a declared variant or the undeclared value 0xd. */
  datatype TextureStyleField = Declared(style: TextureStyle) | Undeclared

  function TextureStyleFieldCode(t: TextureStyleField): (v: nat)
    ensures v < 16
  {
    if t.Declared? then TextureStyleCode(t.style) else 0xd
  }

  /**
   * The intended total accessor: every four-bit value decodes, and the
   * value decoded is the field read.
   */
  function TextureStyleFieldOf(m: u32): (r: TextureStyleField)
    ensures TextureStyleFieldCode(r) == TextureStyleBits(m)
  {
    var t := TextureStyleFromU32(TextureStyleBits(m));
    if t.Some? then Declared(t.value) else Undeclared
  }

  /** The total accessor agrees with `texture_style` wherever the latter returns. */
  lemma TextureStyleFieldAgrees(m: u32)
    ensures TextureStyleOf(m).Returns? ==> TextureStyleFieldOf(m) == Declared(TextureStyleOf(m).value)
    ensures TextureStyleOf(m).Panics? <==> TextureStyleFieldOf(m) == Undeclared
  {
  }
}
