/**
 * The TrackDef fragment (type 0x12): a name, flags, and `frame_count`
 * transforms, stored either as eight i16 fixed-point values (flag bit
 * 0x08) or, in the legacy layout, as eight f32 values.
 */
module TrackDefFragment {
  import opened Wire
  import opened Strings

  /** The flag bit selecting the fixed-point transform layout. */
  const FixedPointFlag: u32 := 0x08

  // ---- the fixed-point transform

  datatype FrameTransform = FrameTransform(rotate_denominator: i16, rotate_x_numerator: i16,
                                           rotate_y_numerator: i16, rotate_z_numerator: i16,
                                           shift_x_numerator: i16, shift_y_numerator: i16,
                                           shift_z_numerator: i16, shift_denominator: i16)

  /** `FrameTransform::parse`: eight i16 in field order. */
  function ParseFrameTransform(s: Bytes): (o: Outcome<FrameTransform>)
    ensures !o.Panic? && (o.Failure? <==> |s| < 16)
    ensures o.Done? ==> |o.rest| == |s| - 16 && s == FrameTransformBytes(o.value) + o.rest
  {
    var a :- Short2(s);
    var b :- Short2(a.rest);
    var c :- Short2(b.rest);
    var d :- Short2(c.rest);
    Nest4(Short2Bytes(a.value), Short2Bytes(b.value), Short2Bytes(c.value), Short2Bytes(d.value), d.rest);
    Done(FrameTransform(a.value.0, a.value.1, b.value.0, b.value.1, c.value.0, c.value.1, d.value.0, d.value.1),
      d.rest)
  }

  /** `FrameTransform::into_bytes`. */
  function FrameTransformBytes(f: FrameTransform): (b: Bytes)
    ensures |b| == 16
  {
    Short2Bytes((f.rotate_denominator, f.rotate_x_numerator)) + Short2Bytes((f.rotate_y_numerator, f.rotate_z_numerator)) +
    Short2Bytes((f.shift_x_numerator, f.shift_y_numerator)) + Short2Bytes((f.shift_z_numerator, f.shift_denominator))
  }

  lemma FrameTransformRoundTrip(f: FrameTransform, rest: Bytes)
    ensures ParseFrameTransform(FrameTransformBytes(f) + rest) == Done(f, rest)
  {
    var a, b := (f.rotate_denominator, f.rotate_x_numerator), (f.rotate_y_numerator, f.rotate_z_numerator);
    var c, d := (f.shift_x_numerator, f.shift_y_numerator), (f.shift_z_numerator, f.shift_denominator);
    var t3 := Short2Bytes(d) + rest;
    var t2 := Short2Bytes(c) + t3;
    var t1 := Short2Bytes(b) + t2;
    Nest4(Short2Bytes(a), Short2Bytes(b), Short2Bytes(c), Short2Bytes(d), rest);
    Short2RoundTrip(a, t1);
    Short2RoundTrip(b, t2);
    Short2RoundTrip(c, t3);
    Short2RoundTrip(d, rest);
  }

  // ---- the legacy transform: eight f32, stored shift first

  datatype LegacyFrameTransform = LegacyFrameTransform(rotate_x: f32, rotate_y: f32, rotate_z: f32, rotate_w: f32,
                                                       shift_x_numerator: f32, shift_y_numerator: f32,
                                                       shift_z_numerator: f32, shift_denominator: f32)

  /** `LegacyFrameTransform::parse`: the shift (denominator first), then the rotation (w first). */
  function ParseLegacyFrameTransform(s: Bytes): (o: Outcome<LegacyFrameTransform>)
    ensures !o.Panic? && (o.Failure? <==> |s| < 32)
    ensures o.Done? ==> |o.rest| == |s| - 32 && s == LegacyFrameTransformBytes(o.value) + o.rest
  {
    var shift :- Word4(s);
    var rotate :- Word4(shift.rest);
    Nest2(Word4Bytes(shift.value), Word4Bytes(rotate.value), rotate.rest);
    Done(LegacyFrameTransform(rotate.value.1, rotate.value.2, rotate.value.3, rotate.value.0,
      shift.value.1, shift.value.2, shift.value.3, shift.value.0), rotate.rest)
  }

  /** `LegacyFrameTransform::into_bytes`: the same on-disk order `parse` reads. */
  function LegacyFrameTransformBytes(f: LegacyFrameTransform): (b: Bytes)
    ensures |b| == 32
  {
    Word4Bytes((f.shift_denominator, f.shift_x_numerator, f.shift_y_numerator, f.shift_z_numerator)) +
    Word4Bytes((f.rotate_w, f.rotate_x, f.rotate_y, f.rotate_z))
  }

  lemma LegacyFrameTransformRoundTrip(f: LegacyFrameTransform, rest: Bytes)
    ensures ParseLegacyFrameTransform(LegacyFrameTransformBytes(f) + rest) == Done(f, rest)
  {
    var shift := (f.shift_denominator, f.shift_x_numerator, f.shift_y_numerator, f.shift_z_numerator);
    var rotate := (f.rotate_w, f.rotate_x, f.rotate_y, f.rotate_z);
    Nest2(Word4Bytes(shift), Word4Bytes(rotate), rest);
    Word4RoundTrip(shift, Word4Bytes(rotate) + rest);
    Word4RoundTrip(rotate, rest);
  }

  lemma TransformCodecs()
    ensures Complete(ParseFrameTransform, FrameTransformBytes, Any)
    ensures Sound(ParseFrameTransform, FrameTransformBytes, Any)
    ensures Complete(ParseLegacyFrameTransform, LegacyFrameTransformBytes, Any)
    ensures Sound(ParseLegacyFrameTransform, LegacyFrameTransformBytes, Any)
  {
    forall f: FrameTransform, rest: Bytes ensures ParseFrameTransform(FrameTransformBytes(f) + rest) == Done(f, rest) {
      FrameTransformRoundTrip(f, rest);
    }
    forall f: LegacyFrameTransform, rest: Bytes
      ensures ParseLegacyFrameTransform(LegacyFrameTransformBytes(f) + rest) == Done(f, rest)
    {
      LegacyFrameTransformRoundTrip(f, rest);
    }
  }

  // ---- the fragment

  datatype TrackDef = TrackDef(name_reference: StringReference, flags: u32, frame_count: u32,
                               frame_transforms: Option<seq<FrameTransform>>,
                               legacy_frame_transforms: Option<seq<LegacyFrameTransform>>)

  /** `TrackDef::parse`. */
  function ParseTrackDef(s: Bytes): (o: Outcome<TrackDef>)
  {
    ParseTrackDefWith(ParseStringReference, U32, ParseFrameTransform, ParseLegacyFrameTransform, s)
  }

  function ParseTrackDefWith(name: Bytes -> Outcome<StringReference>, word: Bytes -> Outcome<u32>,
                             frame: Bytes -> Outcome<FrameTransform>, legacy: Bytes -> Outcome<LegacyFrameTransform>,
                             s: Bytes): (o: Outcome<TrackDef>)
  {
    var n :- name(s);
    var flags :- word(n.rest);
    var count :- word(flags.rest);
    if HasFlag(flags.value, FixedPointFlag) then
      var frames :- Many(frame, count.value, count.rest);
      Done(TrackDef(n.value, flags.value, count.value, Some(frames.value), None), frames.rest)
    else
      var frames :- Many(legacy, count.value, count.rest);
      Done(TrackDef(n.value, flags.value, count.value, None, Some(frames.value)), frames.rest)
  }

  /** The frames of whichever layout is present. */
  function FramesBytes(t: TrackDef): Bytes
  {
    OptFlat(FrameTransformBytes, t.frame_transforms) + OptFlat(LegacyFrameTransformBytes, t.legacy_frame_transforms)
  }

  /** `TrackDef::into_bytes`. */
  function TrackDefBytes(t: TrackDef): Bytes
  {
    StringReferenceBytes(t.name_reference) + LeU32(t.flags) + LeU32(t.frame_count) + FramesBytes(t)
  }

  /** Exactly one of the two lists is present, the fixed-point one iff bit 0x08 is set, with `frame_count` entries. */
  predicate TrackDefWellFormed(t: TrackDef)
  {
    var fixed := HasFlag(t.flags, FixedPointFlag);
    CountMatches(if fixed then Some(t.frame_count) else None, Any, t.frame_transforms) &&
    CountMatches(if fixed then None else Some(t.frame_count), Any, t.legacy_frame_transforms)
  }

  lemma TrackDefRoundTripWith(name: Bytes -> Outcome<StringReference>, word: Bytes -> Outcome<u32>,
                              frame: Bytes -> Outcome<FrameTransform>,
                              legacy: Bytes -> Outcome<LegacyFrameTransform>, t: TrackDef, rest: Bytes)
    requires Complete(name, StringReferenceBytes, Any) && Complete(word, LeU32, Any)
    requires Complete(frame, FrameTransformBytes, Any) && Complete(legacy, LegacyFrameTransformBytes, Any)
    requires TrackDefWellFormed(t)
    ensures ParseTrackDefWith(name, word, frame, legacy, TrackDefBytes(t) + rest) == Done(t, rest)
  {
    var t3 := FramesBytes(t) + rest;
    var t2 := LeU32(t.frame_count) + t3;
    var t1 := LeU32(t.flags) + t2;
    Nest4(StringReferenceBytes(t.name_reference), LeU32(t.flags), LeU32(t.frame_count), FramesBytes(t), rest);
    CompleteAt(name, StringReferenceBytes, Any, t.name_reference, t1);
    CompleteAt(word, LeU32, Any, t.flags, t2);
    CompleteAt(word, LeU32, Any, t.frame_count, t3);
    if HasFlag(t.flags, FixedPointFlag) {
      assert FramesBytes(t) == Flat(FrameTransformBytes, t.frame_transforms.value);
      ManyRoundTrip(frame, FrameTransformBytes, Any, t.frame_transforms.value, rest);
    } else {
      assert FramesBytes(t) == Flat(LegacyFrameTransformBytes, t.legacy_frame_transforms.value);
      ManyRoundTrip(legacy, LegacyFrameTransformBytes, Any, t.legacy_frame_transforms.value, rest);
    }
  }

  lemma TrackDefExactWith(name: Bytes -> Outcome<StringReference>, word: Bytes -> Outcome<u32>,
                          frame: Bytes -> Outcome<FrameTransform>, legacy: Bytes -> Outcome<LegacyFrameTransform>,
                          s: Bytes)
    requires Sound(name, StringReferenceBytes, Any) && Sound(word, LeU32, Any)
    requires Sound(frame, FrameTransformBytes, Any) && Sound(legacy, LegacyFrameTransformBytes, Any)
    ensures var o := ParseTrackDefWith(name, word, frame, legacy, s);
      o.Done? ==> TrackDefWellFormed(o.value) && s == TrackDefBytes(o.value) + o.rest
  {
    var o := ParseTrackDefWith(name, word, frame, legacy, s);
    if o.Done? {
      var t := o.value;
      var n := name(s);
      var flags := word(n.rest);
      var count := word(flags.rest);
      SoundAt(name, StringReferenceBytes, Any, s);
      SoundAt(word, LeU32, Any, n.rest);
      SoundAt(word, LeU32, Any, flags.rest);
      if HasFlag(t.flags, FixedPointFlag) {
        ManySound(frame, FrameTransformBytes, Any, count.value, count.rest);
        assert FramesBytes(t) == Flat(FrameTransformBytes, t.frame_transforms.value);
      } else {
        ManySound(legacy, LegacyFrameTransformBytes, Any, count.value, count.rest);
        assert FramesBytes(t) == Flat(LegacyFrameTransformBytes, t.legacy_frame_transforms.value);
      }
      Nest4(StringReferenceBytes(t.name_reference), LeU32(t.flags), LeU32(t.frame_count), FramesBytes(t), o.rest);
    }
  }

  lemma TrackDefCodec()
    ensures Complete(ParseTrackDef, TrackDefBytes, TrackDefWellFormed)
    ensures Sound(ParseTrackDef, TrackDefBytes, TrackDefWellFormed)
  {
    StringReferenceCodec();
    U32Codec();
    TransformCodecs();
    forall t: TrackDef, rest: Bytes | TrackDefWellFormed(t) ensures ParseTrackDef(TrackDefBytes(t) + rest) == Done(t, rest) {
      TrackDefRoundTripWith(ParseStringReference, U32, ParseFrameTransform, ParseLegacyFrameTransform, t, rest);
    }
    forall s: Bytes ensures var o := ParseTrackDef(s);
      o.Done? ==> TrackDefWellFormed(o.value) && s == TrackDefBytes(o.value) + o.rest
    {
      TrackDefExactWith(ParseStringReference, U32, ParseFrameTransform, ParseLegacyFrameTransform, s);
    }
  }

  /** Parsing a serialised track gives it back, for either layout. */
  lemma TrackDefRoundTrip(t: TrackDef, rest: Bytes)
    requires TrackDefWellFormed(t)
    ensures ParseTrackDef(TrackDefBytes(t) + rest) == Done(t, rest)
  {
    TrackDefCodec();
    CompleteAt(ParseTrackDef, TrackDefBytes, TrackDefWellFormed, t, rest);
  }

  /**
   * A parsed track has exactly one list, chosen by bit 0x08, with
   * `frame_count` entries; serialising it reproduces the input exactly when
   * nothing was left over.
   */
  lemma TrackDefReparse(s: Bytes)
    ensures var o := ParseTrackDef(s);
      o.Done? ==> TrackDefWellFormed(o.value) && (TrackDefBytes(o.value) == s <==> o.rest == [])
  {
    var o := ParseTrackDef(s);
    if o.Done? {
      TrackDefCodec();
      SoundAt(ParseTrackDef, TrackDefBytes, TrackDefWellFormed, s);
      ReencodeExact(ParseTrackDef, TrackDefBytes, TrackDefWellFormed, s, []);
      assert TrackDefBytes(o.value) + [] == TrackDefBytes(o.value);
    }
  }

  /** Exactly one of the two lists is present in a well-formed track. */
  lemma OneLayout(t: TrackDef)
    requires TrackDefWellFormed(t)
    ensures t.frame_transforms.Some? != t.legacy_frame_transforms.Some?
    ensures t.frame_transforms.Some? <==> HasFlag(t.flags, FixedPointFlag)
    ensures var frames := if t.frame_transforms.Some? then |t.frame_transforms.value| else |t.legacy_frame_transforms.value|;
      frames == t.frame_count
  {
  }
}
