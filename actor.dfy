/**
 * The Actor fragment (type 0x15): a placed instance of an actor
 * definition, with six optional fields selected by its flags and a block of
 * encoded user data.
 */
module ActorFragment {
  import opened Wire
  import opened Strings
  import opened FragmentRefs

  type Triple = (u32, u32, u32)

  const CurrentActionFlag: u32 := 0x01
  const LocationFlag: u32 := 0x02
  const BoundingRadiusFlag: u32 := 0x04
  const ScaleFactorFlag: u32 := 0x08
  const SoundFlag: u32 := 0x10
  const VertexColorReferenceFlag: u32 := 0x100

  // ---- the placement (`Location`): six f32 and a trailing word

  datatype Location = Location(x: f32, y: f32, z: f32, rotate_z: f32, rotate_y: f32, rotate_x: f32, unknown: u32)

  /** `Location::parse`: x, y, z, then the rotations about z, y and x, then the unknown word. */
  function ParseLocation(s: Bytes): (o: Outcome<Location>)
    ensures !o.Panic? && (o.Failure? <==> |s| < 28)
    ensures o.Done? ==> |o.rest| == |s| - 28 && s == LocationBytes(o.value) + o.rest
  {
    var p :- Word3(s);
    var r :- Word4(p.rest);
    Nest2(Word3Bytes(p.value), Word4Bytes(r.value), r.rest);
    Done(Location(p.value.0, p.value.1, p.value.2, r.value.0, r.value.1, r.value.2, r.value.3), r.rest)
  }

  /** `Location::into_bytes`, in the order `parse` reads. */
  function LocationBytes(l: Location): (b: Bytes)
    ensures |b| == 28
  {
    Word3Bytes((l.x, l.y, l.z)) + Word4Bytes((l.rotate_z, l.rotate_y, l.rotate_x, l.unknown))
  }

  lemma LocationRoundTrip(l: Location, rest: Bytes)
    ensures ParseLocation(LocationBytes(l) + rest) == Done(l, rest)
  {
    var p, r := (l.x, l.y, l.z), (l.rotate_z, l.rotate_y, l.rotate_x, l.unknown);
    Nest2(Word3Bytes(p), Word4Bytes(r), rest);
    Word3RoundTrip(p, Word4Bytes(r) + rest);
    Word4RoundTrip(r, rest);
  }

  lemma LocationCodec()
    ensures Complete(ParseLocation, LocationBytes, Any) && Sound(ParseLocation, LocationBytes, Any)
  {
    forall l: Location, rest: Bytes ensures ParseLocation(LocationBytes(l) + rest) == Done(l, rest) {
      LocationRoundTrip(l, rest);
    }
  }

  // ---- the six flag-gated fields

  type Placement = (Option<u32>, Option<Location>, Option<f32>)
  type Extras = (Option<f32>, Option<StringReference>, Option<FragmentRef>)
  type Options = (Placement, Extras)

  function ParseOptions(flags: u32, s: Bytes): (o: Outcome<Options>)
  {
    ParseOptionsWith(U32, ParseLocation, ParseStringReference, ParseFragmentRef, flags, s)
  }

  /** The current action, location, bounding radius, scale factor, sound and vertex colours, each if its bit is set. */
  function ParseOptionsWith(word: Bytes -> Outcome<u32>, location: Bytes -> Outcome<Location>,
                            name: Bytes -> Outcome<StringReference>, fref: Bytes -> Outcome<FragmentRef>,
                            flags: u32, s: Bytes): (o: Outcome<Options>)
  {
    var placement :- ParsePlacementWith(word, location, flags, s);
    var extras :- ParseExtrasWith(word, name, fref, flags, placement.rest);
    Done((placement.value, extras.value), extras.rest)
  }

  function ParsePlacementWith(word: Bytes -> Outcome<u32>, location: Bytes -> Outcome<Location>, flags: u32,
                              s: Bytes): (o: Outcome<Placement>)
  {
    When3(HasFlag(flags, CurrentActionFlag), word, HasFlag(flags, LocationFlag), location,
      HasFlag(flags, BoundingRadiusFlag), word, s)
  }

  function ParseExtrasWith(word: Bytes -> Outcome<u32>, name: Bytes -> Outcome<StringReference>,
                           fref: Bytes -> Outcome<FragmentRef>, flags: u32, s: Bytes): (o: Outcome<Extras>)
  {
    When3(HasFlag(flags, ScaleFactorFlag), word, HasFlag(flags, SoundFlag), name,
      HasFlag(flags, VertexColorReferenceFlag), fref, s)
  }

  function PlacementBytes(x: Placement): Bytes
  {
    OptBytes3(LeU32, LocationBytes, LeU32, x)
  }

  function ExtrasBytes(x: Extras): Bytes
  {
    OptBytes3(LeU32, StringReferenceBytes, FragmentRefBytes, x)
  }

  function OptionsBytes(x: Options): Bytes
  {
    PlacementBytes(x.0) + ExtrasBytes(x.1)
  }

  predicate PlacementMatches(flags: u32, x: Placement)
  {
    Gated(HasFlag(flags, CurrentActionFlag), Any, x.0) && Gated(HasFlag(flags, LocationFlag), Any, x.1) &&
    Gated(HasFlag(flags, BoundingRadiusFlag), Any, x.2)
  }

  predicate ExtrasMatch(flags: u32, x: Extras)
  {
    Gated(HasFlag(flags, ScaleFactorFlag), Any, x.0) && Gated(HasFlag(flags, SoundFlag), Any, x.1) &&
    Gated(HasFlag(flags, VertexColorReferenceFlag), WellFormed, x.2)
  }

  /** Each optional field is present exactly when its bit (0x01, 0x02, 0x04, 0x08, 0x10, 0x100) is set. */
  predicate OptionsMatch(flags: u32, x: Options)
  {
    PlacementMatches(flags, x.0) && ExtrasMatch(flags, x.1)
  }

  lemma PlacementRoundTripWith(word: Bytes -> Outcome<u32>, location: Bytes -> Outcome<Location>, flags: u32,
                               x: Placement, rest: Bytes)
    requires Complete(word, LeU32, Any) && Complete(location, LocationBytes, Any)
    requires PlacementMatches(flags, x)
    ensures ParsePlacementWith(word, location, flags, PlacementBytes(x) + rest) == Done(x, rest)
  {
    When3RoundTrip(HasFlag(flags, CurrentActionFlag), word, LeU32, Any, HasFlag(flags, LocationFlag), location,
      LocationBytes, Any, HasFlag(flags, BoundingRadiusFlag), word, LeU32, Any, x, rest);
  }

  lemma ExtrasRoundTripWith(word: Bytes -> Outcome<u32>, name: Bytes -> Outcome<StringReference>,
                            fref: Bytes -> Outcome<FragmentRef>, flags: u32, x: Extras, rest: Bytes)
    requires Complete(word, LeU32, Any) && Complete(name, StringReferenceBytes, Any)
    requires Complete(fref, FragmentRefBytes, WellFormed)
    requires ExtrasMatch(flags, x)
    ensures ParseExtrasWith(word, name, fref, flags, ExtrasBytes(x) + rest) == Done(x, rest)
  {
    When3RoundTrip(HasFlag(flags, ScaleFactorFlag), word, LeU32, Any, HasFlag(flags, SoundFlag), name,
      StringReferenceBytes, Any, HasFlag(flags, VertexColorReferenceFlag), fref, FragmentRefBytes, WellFormed, x, rest);
  }

  lemma PlacementSoundWith(word: Bytes -> Outcome<u32>, location: Bytes -> Outcome<Location>, flags: u32, s: Bytes)
    requires Sound(word, LeU32, Any) && Sound(location, LocationBytes, Any)
    ensures var o := ParsePlacementWith(word, location, flags, s);
      o.Done? ==> PlacementMatches(flags, o.value) && s == PlacementBytes(o.value) + o.rest
  {
    When3Sound(HasFlag(flags, CurrentActionFlag), word, LeU32, Any, HasFlag(flags, LocationFlag), location,
      LocationBytes, Any, HasFlag(flags, BoundingRadiusFlag), word, LeU32, Any, s);
  }

  lemma ExtrasSoundWith(word: Bytes -> Outcome<u32>, name: Bytes -> Outcome<StringReference>,
                        fref: Bytes -> Outcome<FragmentRef>, flags: u32, s: Bytes)
    requires Sound(word, LeU32, Any) && Sound(name, StringReferenceBytes, Any)
    requires Sound(fref, FragmentRefBytes, WellFormed)
    ensures var o := ParseExtrasWith(word, name, fref, flags, s);
      o.Done? ==> ExtrasMatch(flags, o.value) && s == ExtrasBytes(o.value) + o.rest
  {
    When3Sound(HasFlag(flags, ScaleFactorFlag), word, LeU32, Any, HasFlag(flags, SoundFlag), name,
      StringReferenceBytes, Any, HasFlag(flags, VertexColorReferenceFlag), fref, FragmentRefBytes, WellFormed, s);
  }

  lemma OptionsRoundTripWith(word: Bytes -> Outcome<u32>, location: Bytes -> Outcome<Location>,
                             name: Bytes -> Outcome<StringReference>, fref: Bytes -> Outcome<FragmentRef>,
                             flags: u32, x: Options, rest: Bytes)
    requires Complete(word, LeU32, Any) && Complete(location, LocationBytes, Any)
    requires Complete(name, StringReferenceBytes, Any) && Complete(fref, FragmentRefBytes, WellFormed)
    requires OptionsMatch(flags, x)
    ensures ParseOptionsWith(word, location, name, fref, flags, OptionsBytes(x) + rest) == Done(x, rest)
  {
    Nest2(PlacementBytes(x.0), ExtrasBytes(x.1), rest);
    PlacementRoundTripWith(word, location, flags, x.0, ExtrasBytes(x.1) + rest);
    ExtrasRoundTripWith(word, name, fref, flags, x.1, rest);
  }

  lemma OptionsSoundWith(word: Bytes -> Outcome<u32>, location: Bytes -> Outcome<Location>,
                         name: Bytes -> Outcome<StringReference>, fref: Bytes -> Outcome<FragmentRef>,
                         flags: u32, s: Bytes)
    requires Sound(word, LeU32, Any) && Sound(location, LocationBytes, Any)
    requires Sound(name, StringReferenceBytes, Any) && Sound(fref, FragmentRefBytes, WellFormed)
    ensures var o := ParseOptionsWith(word, location, name, fref, flags, s);
      o.Done? ==> OptionsMatch(flags, o.value) && s == OptionsBytes(o.value) + o.rest
  {
    var o := ParseOptionsWith(word, location, name, fref, flags, s);
    if o.Done? {
      var placement := ParsePlacementWith(word, location, flags, s);
      PlacementSoundWith(word, location, flags, s);
      ExtrasSoundWith(word, name, fref, flags, placement.rest);
      Nest2(PlacementBytes(o.value.0), ExtrasBytes(o.value.1), o.rest);
    }
  }

  lemma OptionsCodec()
    ensures CompleteIn(ParseOptions, OptionsBytes, OptionsMatch) && SoundIn(ParseOptions, OptionsBytes, OptionsMatch)
  {
    U32Codec();
    LocationCodec();
    StringReferenceCodec();
    FragmentRefCodec();
    forall f: u32, x: Options, rest: Bytes | OptionsMatch(f, x)
      ensures ParseOptions(f, OptionsBytes(x) + rest) == Done(x, rest)
    {
      OptionsRoundTripWith(U32, ParseLocation, ParseStringReference, ParseFragmentRef, f, x, rest);
    }
    forall f: u32, s: Bytes ensures var o := ParseOptions(f, s);
      o.Done? ==> OptionsMatch(f, o.value) && s == OptionsBytes(o.value) + o.rest
    {
      OptionsSoundWith(U32, ParseLocation, ParseStringReference, ParseFragmentRef, f, s);
    }
  }

  // ---- the user data: its size, then that many encoded bytes

  /** `Vec::resize(n, 0)`: cut to `n` bytes, or filled up to `n` with zeros. */
  function Resize(b: Bytes, n: nat): (r: Bytes)
    ensures |r| == n
    ensures n <= |b| ==> r == b[..n]
    ensures |b| <= n ==> r == b + Zeros(n - |b|)
  {
    if n <= |b| then b[..n] else b + Zeros(n - |b|)
  }

  type UserData = (u32, Bytes)

  /** A size and the decoded user data with its trailing NULs removed. */
  function ParseUserData(s: Bytes): (o: Outcome<UserData>)
  {
    var size :- U32(s);
    var raw :- Take(size.value, size.rest);
    Done((size.value, TrimEndNuls(Cipher(raw.value))), raw.rest)
  }

  /** The size, then the user data NUL-filled to exactly that size and encoded. */
  function UserDataBytes(x: UserData): (b: Bytes)
    ensures |b| == 4 + x.0
  {
    LeU32(x.0) + Cipher(Resize(x.1, x.0))
  }

  /** User data that parsing can produce: no longer than its size, and not ending in a NUL. */
  predicate UserDataWellFormed(x: UserData)
  {
    |x.1| <= x.0 && NoTrailingNul(x.1)
  }

  /** Encoding is position-wise, so it commutes with taking a prefix. */
  lemma CipherPrefix(b: Bytes, n: nat)
    requires n <= |b|
    ensures Cipher(b)[..n] == Cipher(b[..n])
  {
  }

  lemma UserDataRoundTrip(x: UserData, rest: Bytes)
    requires UserDataWellFormed(x)
    ensures ParseUserData(UserDataBytes(x) + rest) == Done(x, rest)
  {
    var body := Cipher(Resize(x.1, x.0));
    Nest2(LeU32(x.0), body, rest);
    U32RoundTrip(x.0, body + rest);
    TakeRoundTrip(body, rest);
    CipherInvolution(Resize(x.1, x.0));
    TrimZeros(x.1, x.0 - |x.1|);
  }

  lemma UserDataSound(s: Bytes)
    ensures var o := ParseUserData(s);
      o.Done? ==> UserDataWellFormed(o.value) && s == UserDataBytes(o.value) + o.rest
  {
    var o := ParseUserData(s);
    if o.Done? {
      var size := U32(s);
      var raw := Take(size.value, size.rest);
      var data := TrimEndNuls(Cipher(raw.value));
      TrimSplit(Cipher(raw.value));
      assert Resize(data, size.value) == Cipher(raw.value);
      CipherInvolution(raw.value);
      Nest2(LeU32(size.value), raw.value, raw.rest);
    }
  }

  lemma UserDataCodec()
    ensures Complete(ParseUserData, UserDataBytes, UserDataWellFormed)
    ensures Sound(ParseUserData, UserDataBytes, UserDataWellFormed)
  {
    forall x: UserData, rest: Bytes | UserDataWellFormed(x) ensures ParseUserData(UserDataBytes(x) + rest) == Done(x, rest) {
      UserDataRoundTrip(x, rest);
    }
    forall s: Bytes ensures var o := ParseUserData(s);
      o.Done? ==> UserDataWellFormed(o.value) && s == UserDataBytes(o.value) + o.rest
    {
      UserDataSound(s);
    }
  }

  // ---- the fragment

  datatype Actor = Actor(
    name_reference: StringReference, actor_def_reference: StringReference, flags: u32, sphere_reference: FragmentRef,
    current_action: Option<u32>, location: Option<Location>, bounding_radius: Option<f32>, scale_factor: Option<f32>,
    sound_name_reference: Option<StringReference>, vertex_color_reference: Option<FragmentRef>,
    user_data_size: u32, user_data: Bytes)

  function OptionsOf(a: Actor): Options
  {
    ((a.current_action, a.location, a.bounding_radius), (a.scale_factor, a.sound_name_reference, a.vertex_color_reference))
  }

  function UserDataOf(a: Actor): UserData
  {
    (a.user_data_size, a.user_data)
  }

  /** `Actor::parse`; the padding after the user data is left unread. */
  function ParseActor(s: Bytes): (o: Outcome<Actor>)
  {
    ParseActorWith(ParseStringReference, U32, ParseFragmentRef, ParseOptions, ParseUserData, s)
  }

  function ParseActorWith(name: Bytes -> Outcome<StringReference>, word: Bytes -> Outcome<u32>,
                          fref: Bytes -> Outcome<FragmentRef>, options: (u32, Bytes) -> Outcome<Options>,
                          userdata: Bytes -> Outcome<UserData>, s: Bytes): (o: Outcome<Actor>)
  {
    var n :- name(s);
    var def :- name(n.rest);
    var flags :- word(def.rest);
    var sphere :- fref(flags.rest);
    var opts :- options(flags.value, sphere.rest);
    var data :- userdata(opts.rest);
    Done(Actor(n.value, def.value, flags.value, sphere.value, opts.value.0.0, opts.value.0.1, opts.value.0.2,
      opts.value.1.0, opts.value.1.1, opts.value.1.2, data.value.0, data.value.1), data.rest)
  }

  /** Every field `ParseActor` reads, in order. */
  function ActorFields(a: Actor): Bytes
  {
    StringReferenceBytes(a.name_reference) + StringReferenceBytes(a.actor_def_reference) + LeU32(a.flags) +
    FragmentRefBytes(a.sphere_reference) + OptionsBytes(OptionsOf(a)) + UserDataBytes(UserDataOf(a))
  }

  /** The serialised fragment: the fields, then zeros up to a multiple of 4 past the user data. */
  function ActorBytes(a: Actor): Bytes
  {
    ActorFields(a) + Zeros(Pad4(a.user_data_size))
  }

  predicate ActorWellFormed(a: Actor)
  {
    WellFormed(a.sphere_reference) && OptionsMatch(a.flags, OptionsOf(a)) && UserDataWellFormed(UserDataOf(a))
  }

  lemma ActorRoundTripWith(name: Bytes -> Outcome<StringReference>, word: Bytes -> Outcome<u32>,
                           fref: Bytes -> Outcome<FragmentRef>, options: (u32, Bytes) -> Outcome<Options>,
                           userdata: Bytes -> Outcome<UserData>, a: Actor, rest: Bytes)
    requires Complete(name, StringReferenceBytes, Any) && Complete(word, LeU32, Any)
    requires Complete(fref, FragmentRefBytes, WellFormed) && CompleteIn(options, OptionsBytes, OptionsMatch)
    requires Complete(userdata, UserDataBytes, UserDataWellFormed)
    requires ActorWellFormed(a)
    ensures ParseActorWith(name, word, fref, options, userdata, ActorFields(a) + rest) == Done(a, rest)
  {
    var t5 := UserDataBytes(UserDataOf(a)) + rest;
    var t4 := OptionsBytes(OptionsOf(a)) + t5;
    var t3 := FragmentRefBytes(a.sphere_reference) + t4;
    var t2 := LeU32(a.flags) + t3;
    var t1 := StringReferenceBytes(a.actor_def_reference) + t2;
    Nest6(StringReferenceBytes(a.name_reference), StringReferenceBytes(a.actor_def_reference), LeU32(a.flags),
      FragmentRefBytes(a.sphere_reference), OptionsBytes(OptionsOf(a)), UserDataBytes(UserDataOf(a)), rest);
    CompleteAt(name, StringReferenceBytes, Any, a.name_reference, t1);
    CompleteAt(name, StringReferenceBytes, Any, a.actor_def_reference, t2);
    CompleteAt(word, LeU32, Any, a.flags, t3);
    CompleteAt(fref, FragmentRefBytes, WellFormed, a.sphere_reference, t4);
    assert options(a.flags, OptionsBytes(OptionsOf(a)) + t5) == Done(OptionsOf(a), t5);
    CompleteAt(userdata, UserDataBytes, UserDataWellFormed, UserDataOf(a), rest);
  }

  lemma ActorExactWith(name: Bytes -> Outcome<StringReference>, word: Bytes -> Outcome<u32>,
                       fref: Bytes -> Outcome<FragmentRef>, options: (u32, Bytes) -> Outcome<Options>,
                       userdata: Bytes -> Outcome<UserData>, s: Bytes)
    requires Sound(name, StringReferenceBytes, Any) && Sound(word, LeU32, Any)
    requires Sound(fref, FragmentRefBytes, WellFormed) && SoundIn(options, OptionsBytes, OptionsMatch)
    requires Sound(userdata, UserDataBytes, UserDataWellFormed)
    ensures var o := ParseActorWith(name, word, fref, options, userdata, s);
      o.Done? ==> ActorWellFormed(o.value) && s == ActorFields(o.value) + o.rest
  {
    var o := ParseActorWith(name, word, fref, options, userdata, s);
    if o.Done? {
      var a := o.value;
      var n := name(s);
      var def := name(n.rest);
      var flags := word(def.rest);
      var sphere := fref(flags.rest);
      var opts := options(a.flags, sphere.rest);
      SoundAt(name, StringReferenceBytes, Any, s);
      SoundAt(name, StringReferenceBytes, Any, n.rest);
      SoundAt(word, LeU32, Any, def.rest);
      SoundAt(fref, FragmentRefBytes, WellFormed, flags.rest);
      assert OptionsOf(a) == opts.value && UserDataOf(a) == userdata(opts.rest).value;
      assert OptionsMatch(a.flags, opts.value) && sphere.rest == OptionsBytes(opts.value) + opts.rest;
      SoundAt(userdata, UserDataBytes, UserDataWellFormed, opts.rest);
      Nest6(StringReferenceBytes(a.name_reference), StringReferenceBytes(a.actor_def_reference), LeU32(a.flags),
        FragmentRefBytes(a.sphere_reference), OptionsBytes(OptionsOf(a)), UserDataBytes(UserDataOf(a)), o.rest);
    }
  }

  lemma ActorCodec()
    ensures Complete(ParseActor, ActorFields, ActorWellFormed) && Sound(ParseActor, ActorFields, ActorWellFormed)
  {
    StringReferenceCodec();
    U32Codec();
    FragmentRefCodec();
    OptionsCodec();
    UserDataCodec();
    forall a: Actor, rest: Bytes | ActorWellFormed(a) ensures ParseActor(ActorFields(a) + rest) == Done(a, rest) {
      ActorRoundTripWith(ParseStringReference, U32, ParseFragmentRef, ParseOptions, ParseUserData, a, rest);
    }
    forall s: Bytes ensures var o := ParseActor(s); o.Done? ==> ActorWellFormed(o.value) && s == ActorFields(o.value) + o.rest {
      ActorExactWith(ParseStringReference, U32, ParseFragmentRef, ParseOptions, ParseUserData, s);
    }
  }

  /**
   * Parsing a serialised actor gives it back, user data included, leaving
   * the padding after the user data unread.
   */
  lemma ActorRoundTrip(a: Actor, rest: Bytes)
    requires ActorWellFormed(a)
    ensures ParseActor(ActorBytes(a) + rest) == Done(a, Zeros(Pad4(a.user_data_size)) + rest)
  {
    ActorCodec();
    CompleteThen(ParseActor, ActorFields, ActorWellFormed, a, Zeros(Pad4(a.user_data_size)), rest);
  }

  /**
   * A parsed actor has its optional fields exactly as its flags say and its
   * user data NUL-trimmed within its size; serialising it reproduces the
   * input exactly when what was left over is the zero padding.
   */
  lemma ActorReparse(s: Bytes)
    ensures var o := ParseActor(s);
      o.Done? ==> ActorWellFormed(o.value) && (ActorBytes(o.value) == s <==> o.rest == Zeros(Pad4(o.value.user_data_size)))
  {
    var o := ParseActor(s);
    if o.Done? {
      ActorCodec();
      SoundAt(ParseActor, ActorFields, ActorWellFormed, s);
      ReencodeExact(ParseActor, ActorFields, ActorWellFormed, s, Zeros(Pad4(o.value.user_data_size)));
    }
  }

  /** The serialised user-data section is the size rounded up to a multiple of 4. */
  lemma UserDataSectionAligned(a: Actor)
    ensures |Cipher(Resize(a.user_data, a.user_data_size)) + Zeros(Pad4(a.user_data_size))| % 4 == 0
  {
  }

  // ---- `Actor::into_bytes` as written

  /**
   * The user-data section `into_bytes` writes: the text with one NUL,
   * encoded, then cut or zero-filled to the size rounded up to 4. The
   * zero fill is not encoded, so between the terminator and the size it
   * decodes to key bytes rather than NULs.
   */
  function UserDataAsWritten(data: Bytes, size: u32): (b: Bytes)
    ensures |b| == size + Pad4(size)
  {
    Resize(Cipher(data + [0]), size + Pad4(size))
  }

  function ActorBytesAsWritten(a: Actor): Bytes
  {
    StringReferenceBytes(a.name_reference) + StringReferenceBytes(a.actor_def_reference) + LeU32(a.flags) +
    FragmentRefBytes(a.sphere_reference) + OptionsBytes(OptionsOf(a)) + LeU32(a.user_data_size) +
    UserDataAsWritten(a.user_data, a.user_data_size)
  }

  /** When the size is the text plus its one terminator, as in the fixtures, both writers agree. */
  lemma AsWrittenAgrees(a: Actor)
    requires |a.user_data| + 1 == a.user_data_size
    ensures ActorBytesAsWritten(a) == ActorBytes(a)
  {
    assert Resize(a.user_data, a.user_data_size) == a.user_data + [0];
    Nest2(LeU32(a.user_data_size), Cipher(a.user_data + [0]), Zeros(Pad4(a.user_data_size)));
  }

  /** The encoded terminator at position 0 is the first key byte. */
  lemma EncodedTerminator()
    ensures Cipher([0]) == [0x95]
  {
    assert XorKey[0] == 0x95;
    XorByteZero(0x95);
    assert Cipher([0])[0] == XorByte(0, 0x95);
  }

  /** `[0, 0x3a]` encodes to the first key byte and a zero. */
  lemma EncodedPair()
    ensures Cipher([0, 0x3a]) == [0x95, 0]
  {
    assert XorKey[0] == 0x95 && XorKey[1] == 0x3a;
    XorByteZero(0x95);
    XorByteZero(0x3a);
    XorByteInvolution(0, 0x3a);
    var pair := Cipher([0, 0x3a]);
    assert pair[0] == XorByte(0, 0x95) && pair[1] == XorByte(0x3a, 0x3a);
  }

  /** The as-written section for empty user data of size 2 is the encoding of `[0, 0x3a]`, then two zeros. */
  lemma AsWrittenEmptyPair()
    ensures UserDataAsWritten([], 2) == Cipher(Resize([0, 0x3a], 2)) + Zeros(2)
  {
    EncodedTerminator();
    EncodedPair();
    assert [] + [0] == [0];
    assert Resize([0, 0x3a], 2) == [0, 0x3a];
    assert UserDataAsWritten([], 2) == [0x95] + Zeros(3);
  }

  /**
   * An actor with empty user data of size 2 is written as the bytes of
   * an actor whose user data is `[0, 0x3a]`, and parses back as that one.
   */
  lemma AsWrittenLosesUserData(a: Actor, rest: Bytes)
    requires ActorWellFormed(a) && a.user_data == [] && a.user_data_size == 2
    ensures var o := ParseActor(ActorBytesAsWritten(a) + rest);
      o.Done? && o.value.user_data == [0, 0x3a] != a.user_data
  {
    var b := a.(user_data := [0, 0x3a]);
    AsWrittenEmptyPair();
    var head := StringReferenceBytes(a.name_reference) + StringReferenceBytes(a.actor_def_reference) + LeU32(a.flags) +
      FragmentRefBytes(a.sphere_reference) + OptionsBytes(OptionsOf(a));
    assert OptionsOf(a) == OptionsOf(b);
    assert ActorBytesAsWritten(a) == head + LeU32(2) + UserDataAsWritten([], 2);
    assert ActorBytes(b) == head + UserDataBytes(UserDataOf(b)) + Zeros(2);
    Nest3(head, LeU32(2), Cipher(Resize([0, 0x3a], 2)), Zeros(2));
    assert ActorBytesAsWritten(a) == ActorBytes(b);
    ActorRoundTrip(b, rest);
  }
  // ---- the actors the as-written writer preserves

  /** The `user_data_size` bytes the parser takes as user data from the as-written section. */
  function AsWrittenRaw(a: Actor): Bytes
  {
    UserDataAsWritten(a.user_data, a.user_data_size)[..a.user_data_size]
  }

  /** The actor the as-written bytes read as: every field kept, the user data replaced by what those bytes decode to. */
  function AsWrittenReading(a: Actor): Actor
  {
    a.(user_data := TrimEndNuls(Cipher(AsWrittenRaw(a))))
  }

  /** No zero fill between the terminator and the size, so nothing the writer leaves unencoded is read as user data. */
  predicate ActorWellFormedAsWritten(a: Actor)
  {
    ActorWellFormed(a) && a.user_data_size <= |a.user_data| + 1
  }

  /** What the as-written reading's user data writes back to: the size, then the raw bytes it was read from. */
  lemma AsWrittenUserData(a: Actor)
    ensures UserDataBytes(UserDataOf(AsWrittenReading(a))) == LeU32(a.user_data_size) + AsWrittenRaw(a)
  {
    var raw := AsWrittenRaw(a);
    var c := Cipher(raw);
    TrimSplit(c);
    assert Resize(TrimEndNuls(c), a.user_data_size) == c;
    CipherInvolution(raw);
  }

  /** The fields an actor writes before its user data. */
  function ActorHead(a: Actor): Bytes
  {
    StringReferenceBytes(a.name_reference) + StringReferenceBytes(a.actor_def_reference) + LeU32(a.flags) +
    FragmentRefBytes(a.sphere_reference) + OptionsBytes(OptionsOf(a))
  }

  /** Both writers put the same head before the user data section. */
  lemma HeadSplit(a: Actor)
    ensures ActorFields(a) == ActorHead(a) + UserDataBytes(UserDataOf(a))
    ensures ActorBytesAsWritten(a) == ActorHead(a) + LeU32(a.user_data_size) + UserDataAsWritten(a.user_data, a.user_data_size)
  {
  }

  /** The as-written reading writes the actor's own head, then the size and the raw bytes it was read from. */
  lemma ReadingFields(a: Actor)
    ensures ActorFields(AsWrittenReading(a)) == ActorHead(a) + (LeU32(a.user_data_size) + AsWrittenRaw(a))
  {
    var b := AsWrittenReading(a);
    AsWrittenUserData(a);
    HeadSplit(b);
    assert OptionsOf(a) == OptionsOf(b);
    assert ActorHead(a) == ActorHead(b);
  }

  lemma SplitAt(head: Bytes, size: Bytes, w: Bytes, n: nat)
    requires n <= |w|
    ensures head + size + w == head + (size + w[..n]) + w[n..]
  {
    assert w == w[..n] + w[n..];
  }

  /** The as-written bytes are the fields of the as-written reading, then the rest of the section. */
  lemma AsWrittenLayout(a: Actor)
    ensures var w := UserDataAsWritten(a.user_data, a.user_data_size);
      ActorBytesAsWritten(a) == ActorFields(AsWrittenReading(a)) + w[a.user_data_size..]
  {
    ReadingFields(a);
    HeadSplit(a);
    SplitAt(ActorHead(a), LeU32(a.user_data_size), UserDataAsWritten(a.user_data, a.user_data_size), a.user_data_size);
  }

  lemma AsWrittenReadingWellFormed(a: Actor)
    requires ActorWellFormed(a)
    ensures ActorWellFormed(AsWrittenReading(a))
  {
    assert OptionsOf(a) == OptionsOf(AsWrittenReading(a));
  }

  /** The as-written bytes of any well-formed actor parse as `AsWrittenReading`, leaving the tail of the section unread. */
  lemma AsWrittenParsesAs(a: Actor, rest: Bytes)
    requires ActorWellFormed(a)
    ensures var w := UserDataAsWritten(a.user_data, a.user_data_size);
      ParseActor(ActorBytesAsWritten(a) + rest) == Done(AsWrittenReading(a), w[a.user_data_size..] + rest)
  {
    var b := AsWrittenReading(a);
    var tail := UserDataAsWritten(a.user_data, a.user_data_size)[a.user_data_size..];
    AsWrittenLayout(a);
    AsWrittenReadingWellFormed(a);
    Nest2(ActorFields(b), tail, rest);
    ActorCodec();
    CompleteAt(ParseActor, ActorFields, ActorWellFormed, b, tail + rest);
  }

  lemma TrimOwn(b: Bytes)
    requires NoTrailingNul(b)
    ensures TrimEndNuls(b) == b
  {
  }

  /** Past the end of what it holds, a resized sequence is zero. */
  lemma ResizedZero(b: Bytes, n: nat, i: nat)
    requires |b| <= i < n
    ensures Resize(b, n)[i] == 0
  {
  }

  /** Beyond the terminator the as-written section holds zeros, which decode to key bytes, none of them NUL. */
  lemma FillDecodesNonNul(a: Actor)
    requires a.user_data_size > |a.user_data| + 1
    ensures NoTrailingNul(Cipher(AsWrittenRaw(a)))
  {
    var size := a.user_data_size;
    var w := UserDataAsWritten(a.user_data, size);
    ResizedZero(Cipher(a.user_data + [0]), size + Pad4(size), size - 1);
    assert w[size - 1] == 0;
    assert AsWrittenRaw(a) == w[..size];
    CipherEndsNonNul(w[..size]);
  }

  /** The as-written bytes read back as the actor itself exactly when its size leaves no zero fill past the terminator. */
  lemma AsWrittenReadsBackIff(a: Actor)
    requires ActorWellFormed(a)
    ensures AsWrittenReading(a) == a <==> a.user_data_size <= |a.user_data| + 1
  {
    var size := a.user_data_size;
    var data := a.user_data;
    var t := data + [0];
    if size <= |data| + 1 {
      assert AsWrittenRaw(a) == Cipher(t)[..size];
      CipherPrefix(t, size);
      CipherInvolution(t[..size]);
      if size == |data| + 1 {
        assert t[..size] == t && t[..|data|] == data;
      } else {
        assert t[..size] == data;
      }
      TrimOwn(data);
    } else {
      FillDecodesNonNul(a);
      TrimOwn(Cipher(AsWrittenRaw(a)));
      assert |AsWrittenReading(a).user_data| == size;
    }
  }

  /** An actor the as-written writer does not preserve parses, from its bytes and any padding, as some other actor. */
  lemma AsWrittenMisreadsPadded(a: Actor, pad: Bytes)
    requires ActorWellFormed(a) && !ActorWellFormedAsWritten(a)
    ensures var o := ParseActor(ActorBytesAsWritten(a) + pad); o.Done? && o.value != a
  {
    AsWrittenParsesAs(a, pad);
    AsWrittenReadsBackIff(a);
  }
}
