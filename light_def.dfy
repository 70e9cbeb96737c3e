/**
 * The LightDef fragment (type 0x1b): a light's frame count, then an
 * optional current frame, sleep time, per-frame light levels and per-frame
 * colours, each selected by a flag bit.
 */
module LightDefFragment {
  import opened Wire
  import opened Strings

  type Triple = (u32, u32, u32)

  const CurrentFrameFlag: u32 := 0x01
  const SleepFlag: u32 := 0x02
  const LightLevelsFlag: u32 := 0x04
  /** `SKIP_FRAMES`: only read back by an accessor, it selects no field. */
  const SkipFramesFlag: u32 := 0x08
  const ColorFlag: u32 := 0x10

  // ---- the flag-selected part, read with the flags and frame count in hand

  type Frames = (Option<u32>, Option<u32>, Option<seq<f32>>, Option<seq<Triple>>)

  /** The frame count, when `bit` is set in the flags. */
  function CountIf(flags: u32, bit: u32, frame_count: u32): Option<u32>
    requires bit > 0
  {
    if HasFlag(flags, bit) then Some(frame_count) else None
  }

  function ParseFrames(c: (u32, u32), s: Bytes): (o: Outcome<Frames>)
  {
    ParseFramesWith(U32, Word3, c, s)
  }

  function ParseFramesWith(word: Bytes -> Outcome<u32>, triple: Bytes -> Outcome<Triple>, c: (u32, u32),
                           s: Bytes): (o: Outcome<Frames>)
  {
    var current :- When(HasFlag(c.0, CurrentFrameFlag), word, s);
    var sleep :- When(HasFlag(c.0, SleepFlag), word, current.rest);
    var levels :- Counted(CountIf(c.0, LightLevelsFlag, c.1), word, sleep.rest);
    var colors :- Counted(CountIf(c.0, ColorFlag, c.1), triple, levels.rest);
    Done((current.value, sleep.value, levels.value, colors.value), colors.rest)
  }

  function FramesBytes(x: Frames): Bytes
  {
    OptBytes(LeU32, x.0) + OptBytes(LeU32, x.1) + OptFlat(LeU32, x.2) + OptFlat(Word3Bytes, x.3)
  }

  /**
   * The current frame, sleep, light levels and colours are present exactly
   * when bits 0x01, 0x02, 0x04 and 0x10 are set, both lists `frame_count`
   * long.
   */
  predicate FramesMatch(c: (u32, u32), x: Frames)
  {
    Gated(HasFlag(c.0, CurrentFrameFlag), Any, x.0) && Gated(HasFlag(c.0, SleepFlag), Any, x.1) &&
    CountMatches(CountIf(c.0, LightLevelsFlag, c.1), Any, x.2) && CountMatches(CountIf(c.0, ColorFlag, c.1), Any, x.3)
  }

  lemma FramesRoundTripWith(word: Bytes -> Outcome<u32>, triple: Bytes -> Outcome<Triple>, c: (u32, u32), x: Frames,
                            rest: Bytes)
    requires Complete(word, LeU32, Any) && Complete(triple, Word3Bytes, Any)
    requires FramesMatch(c, x)
    ensures ParseFramesWith(word, triple, c, FramesBytes(x) + rest) == Done(x, rest)
  {
    var t3 := OptFlat(Word3Bytes, x.3) + rest;
    var t2 := OptFlat(LeU32, x.2) + t3;
    var t1 := OptBytes(LeU32, x.1) + t2;
    Nest4(OptBytes(LeU32, x.0), OptBytes(LeU32, x.1), OptFlat(LeU32, x.2), OptFlat(Word3Bytes, x.3), rest);
    WhenRoundTrip(HasFlag(c.0, CurrentFrameFlag), word, LeU32, Any, x.0, t1);
    WhenRoundTrip(HasFlag(c.0, SleepFlag), word, LeU32, Any, x.1, t2);
    CountedRoundTrip(CountIf(c.0, LightLevelsFlag, c.1), word, LeU32, Any, x.2, t3);
    CountedRoundTrip(CountIf(c.0, ColorFlag, c.1), triple, Word3Bytes, Any, x.3, rest);
  }

  lemma FramesSoundWith(word: Bytes -> Outcome<u32>, triple: Bytes -> Outcome<Triple>, c: (u32, u32), s: Bytes)
    requires Sound(word, LeU32, Any) && Sound(triple, Word3Bytes, Any)
    ensures var o := ParseFramesWith(word, triple, c, s);
      o.Done? ==> FramesMatch(c, o.value) && s == FramesBytes(o.value) + o.rest
  {
    var o := ParseFramesWith(word, triple, c, s);
    if o.Done? {
      var current := When(HasFlag(c.0, CurrentFrameFlag), word, s);
      var sleep := When(HasFlag(c.0, SleepFlag), word, current.rest);
      var levels := Counted(CountIf(c.0, LightLevelsFlag, c.1), word, sleep.rest);
      WhenSound(HasFlag(c.0, CurrentFrameFlag), word, LeU32, Any, s);
      WhenSound(HasFlag(c.0, SleepFlag), word, LeU32, Any, current.rest);
      CountedSound(CountIf(c.0, LightLevelsFlag, c.1), word, LeU32, Any, sleep.rest);
      CountedSound(CountIf(c.0, ColorFlag, c.1), triple, Word3Bytes, Any, levels.rest);
      Nest4(OptBytes(LeU32, o.value.0), OptBytes(LeU32, o.value.1), OptFlat(LeU32, o.value.2),
        OptFlat(Word3Bytes, o.value.3), o.rest);
    }
  }

  lemma FramesCodec()
    ensures CompleteIn(ParseFrames, FramesBytes, FramesMatch) && SoundIn(ParseFrames, FramesBytes, FramesMatch)
  {
    U32Codec();
    Word3Codec();
    forall c: (u32, u32), x: Frames, rest: Bytes | FramesMatch(c, x)
      ensures ParseFrames(c, FramesBytes(x) + rest) == Done(x, rest)
    {
      FramesRoundTripWith(U32, Word3, c, x, rest);
    }
    forall c: (u32, u32), s: Bytes ensures var o := ParseFrames(c, s);
      o.Done? ==> FramesMatch(c, o.value) && s == FramesBytes(o.value) + o.rest
    {
      FramesSoundWith(U32, Word3, c, s);
    }
  }

  /** Two flag words that agree on the four bits that select fields. */
  predicate SameLayoutBits(f: u32, g: u32)
  {
    HasFlag(f, CurrentFrameFlag) == HasFlag(g, CurrentFrameFlag) && HasFlag(f, SleepFlag) == HasFlag(g, SleepFlag) &&
    HasFlag(f, LightLevelsFlag) == HasFlag(g, LightLevelsFlag) && HasFlag(f, ColorFlag) == HasFlag(g, ColorFlag)
  }

  /** Only bits 0x01, 0x02, 0x04 and 0x10 shape the layout; every other bit, 0x08 included, is ignored. */
  lemma LayoutIgnoresOtherBits(f: u32, g: u32, frame_count: u32, s: Bytes, x: Frames)
    requires SameLayoutBits(f, g)
    ensures ParseFrames((f, frame_count), s) == ParseFrames((g, frame_count), s)
    ensures FramesMatch((f, frame_count), x) <==> FramesMatch((g, frame_count), x)
  {
    assert CountIf(f, LightLevelsFlag, frame_count) == CountIf(g, LightLevelsFlag, frame_count);
    assert CountIf(f, ColorFlag, frame_count) == CountIf(g, ColorFlag, frame_count);
  }

  /** The fixture's flags, 0x04, read the same layout with skip-frames (0x08) set as well. */
  lemma SkipFramesKeepsLayout(frame_count: u32, s: Bytes)
    ensures ParseFrames((0x04 + SkipFramesFlag, frame_count), s) == ParseFrames((0x04, frame_count), s)
  {
    assert SameLayoutBits(0x0c, 0x04);
    LayoutIgnoresOtherBits(0x0c, 0x04, frame_count, s, (None, None, None, None));
  }

  // ---- the fragment

  datatype LightDef = LightDef(name_reference: StringReference, flags: u32, frame_count: u32,
                               current_frame: Option<u32>, sleep: Option<u32>,
                               light_levels: Option<seq<f32>>, colors: Option<seq<Triple>>)

  function FramesOf(l: LightDef): Frames
  {
    (l.current_frame, l.sleep, l.light_levels, l.colors)
  }

  /** `LightDef::parse`. */
  function ParseLightDef(s: Bytes): (o: Outcome<LightDef>)
  {
    ParseLightDefWith(ParseStringReference, U32, ParseFrames, s)
  }

  function ParseLightDefWith(name: Bytes -> Outcome<StringReference>, word: Bytes -> Outcome<u32>,
                             frames: ((u32, u32), Bytes) -> Outcome<Frames>, s: Bytes): (o: Outcome<LightDef>)
  {
    var n :- name(s);
    var flags :- word(n.rest);
    var count :- word(flags.rest);
    var f :- frames((flags.value, count.value), count.rest);
    Done(LightDef(n.value, flags.value, count.value, f.value.0, f.value.1, f.value.2, f.value.3), f.rest)
  }

  /** `LightDef::into_bytes`: every field in parse order. */
  function LightDefBytes(l: LightDef): Bytes
  {
    StringReferenceBytes(l.name_reference) + LeU32(l.flags) + LeU32(l.frame_count) + FramesBytes(FramesOf(l))
  }

  predicate LightDefWellFormed(l: LightDef)
  {
    FramesMatch((l.flags, l.frame_count), FramesOf(l))
  }

  lemma LightDefRoundTripWith(name: Bytes -> Outcome<StringReference>, word: Bytes -> Outcome<u32>,
                              frames: ((u32, u32), Bytes) -> Outcome<Frames>, l: LightDef, rest: Bytes)
    requires Complete(name, StringReferenceBytes, Any) && Complete(word, LeU32, Any)
    requires CompleteIn(frames, FramesBytes, FramesMatch)
    requires LightDefWellFormed(l)
    ensures ParseLightDefWith(name, word, frames, LightDefBytes(l) + rest) == Done(l, rest)
  {
    var t3 := FramesBytes(FramesOf(l)) + rest;
    var t2 := LeU32(l.frame_count) + t3;
    var t1 := LeU32(l.flags) + t2;
    Nest4(StringReferenceBytes(l.name_reference), LeU32(l.flags), LeU32(l.frame_count), FramesBytes(FramesOf(l)), rest);
    CompleteAt(name, StringReferenceBytes, Any, l.name_reference, t1);
    CompleteAt(word, LeU32, Any, l.flags, t2);
    CompleteAt(word, LeU32, Any, l.frame_count, t3);
    assert frames((l.flags, l.frame_count), FramesBytes(FramesOf(l)) + rest) == Done(FramesOf(l), rest);
  }

  lemma LightDefExactWith(name: Bytes -> Outcome<StringReference>, word: Bytes -> Outcome<u32>,
                          frames: ((u32, u32), Bytes) -> Outcome<Frames>, s: Bytes)
    requires Sound(name, StringReferenceBytes, Any) && Sound(word, LeU32, Any)
    requires SoundIn(frames, FramesBytes, FramesMatch)
    ensures var o := ParseLightDefWith(name, word, frames, s);
      o.Done? ==> LightDefWellFormed(o.value) && s == LightDefBytes(o.value) + o.rest
  {
    var o := ParseLightDefWith(name, word, frames, s);
    if o.Done? {
      var l := o.value;
      var n := name(s);
      var flags := word(n.rest);
      var count := word(flags.rest);
      SoundAt(name, StringReferenceBytes, Any, s);
      SoundAt(word, LeU32, Any, n.rest);
      SoundAt(word, LeU32, Any, flags.rest);
      assert FramesOf(l) == frames((l.flags, l.frame_count), count.rest).value;
      assert count.rest == FramesBytes(FramesOf(l)) + o.rest;
      Nest4(StringReferenceBytes(l.name_reference), LeU32(l.flags), LeU32(l.frame_count), FramesBytes(FramesOf(l)),
        o.rest);
    }
  }

  lemma LightDefCodec()
    ensures Complete(ParseLightDef, LightDefBytes, LightDefWellFormed)
    ensures Sound(ParseLightDef, LightDefBytes, LightDefWellFormed)
  {
    StringReferenceCodec();
    U32Codec();
    FramesCodec();
    forall l: LightDef, rest: Bytes | LightDefWellFormed(l) ensures ParseLightDef(LightDefBytes(l) + rest) == Done(l, rest) {
      LightDefRoundTripWith(ParseStringReference, U32, ParseFrames, l, rest);
    }
    forall s: Bytes ensures var o := ParseLightDef(s);
      o.Done? ==> LightDefWellFormed(o.value) && s == LightDefBytes(o.value) + o.rest
    {
      LightDefExactWith(ParseStringReference, U32, ParseFrames, s);
    }
  }

  /** Parsing a serialised light gives it back. */
  lemma LightDefRoundTrip(l: LightDef, rest: Bytes)
    requires LightDefWellFormed(l)
    ensures ParseLightDef(LightDefBytes(l) + rest) == Done(l, rest)
  {
    LightDefCodec();
    CompleteAt(ParseLightDef, LightDefBytes, LightDefWellFormed, l, rest);
  }

  /**
   * A parsed light has its optional parts exactly as its flags say, each
   * list `frame_count` long; serialising it reproduces the input exactly
   * when nothing was left over.
   */
  lemma LightDefReparse(s: Bytes)
    ensures var o := ParseLightDef(s);
      o.Done? ==> LightDefWellFormed(o.value) && (LightDefBytes(o.value) == s <==> o.rest == [])
  {
    var o := ParseLightDef(s);
    if o.Done? {
      LightDefCodec();
      SoundAt(ParseLightDef, LightDefBytes, LightDefWellFormed, s);
      ReencodeExact(ParseLightDef, LightDefBytes, LightDefWellFormed, s, []);
      assert LightDefBytes(o.value) + [] == LightDefBytes(o.value);
    }
  }
}
