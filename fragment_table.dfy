/**
 * The fragment types this model covers, gathered into one sum type, and
 * a dispatch over their type ids that sends each id to the fragment type
 * `fragments/mod.rs` defines for it.
 *
 * This is not the dispatch `parse_body` in `parser/mod.rs` performs: that
 * match still names older structs for these ids (`TextureImagesFragment`
 * for 0x03, `BspRegionFragment` for 0x22, `MeshFragment` for 0x36,
 * `AlternateMeshFragment` for 0x2c, `MobSkeletonPieceTrackFragment` for
 * 0x12, `SkeletonTrackSetFragment` for 0x10, `ObjectLocationFragment`
 * for 0x15, `LightSourceFragment` for 0x1b,
 * `MeshAnimatedVerticesFragment` for 0x37 and `Unknown0x2eFragment` for
 * 0x2e), none of which `fragments/mod.rs` declares any longer, though
 * several of their files remain. Of those, `Unknown0x2eFragment` is
 * modelled (module `Unknown0x2eFragment`) to show what it loses of a
 * DmTrackDef.
 *
 * Two sets of writers go with the dispatch: `Standard`, whose Actor and
 * DmTrackDef writers are the corrected ones, and `AsWritten`, whose
 * writers are those of the source; each is proved to round-trip whole
 * documents, the second exactly on the fragments it preserves.
 */
module FragmentTable {
  import opened Wire
  import opened Strings
  import opened WldDocument
  import B = BmInfoFragment
  import R = RegionFragment
  import M2 = DmSpriteDef2Fragment
  import M = DmSpriteDefFragment
  import T = TrackDefFragment
  import H = HierarchicalSpriteDefFragment
  import A = ActorFragment
  import L = LightDefFragment
  import V2 = DmTrackDef2Fragment
  import V = DmTrackDefFragment

  datatype Fragment =
    | BmInfo(bm_info: B.BmInfo)
    | Region(region: R.Region)
    | DmSpriteDef2(dm_sprite_def2: M2.DmSpriteDef2)
    | DmSpriteDef(dm_sprite_def: M.DmSpriteDef)
    | TrackDef(track_def: T.TrackDef)
    | HierarchicalSpriteDef(hierarchical_sprite_def: H.HierarchicalSpriteDef)
    | Actor(actor: A.Actor)
    | LightDef(light_def: L.LightDef)
    | DmTrackDef2(dm_track_def2: V2.DmTrackDef2)
    | DmTrackDef(dm_track_def: V.DmTrackDef)

  /** The `TYPE_ID` of each fragment type. */
  function TypeOf(f: Fragment): u32
  {
    match f
    case BmInfo(_) => 0x03
    case Region(_) => 0x22
    case DmSpriteDef2(_) => 0x36
    case DmSpriteDef(_) => 0x2c
    case TrackDef(_) => 0x12
    case HierarchicalSpriteDef(_) => 0x10
    case Actor(_) => 0x15
    case LightDef(_) => 0x1b
    case DmTrackDef2(_) => 0x37
    case DmTrackDef(_) => 0x2e
  }

  const KnownTypes: set<u32> := {0x03, 0x22, 0x36, 0x2c, 0x12, 0x10, 0x15, 0x1b, 0x37, 0x2e}

  /** `Fragment::name_ref`: every covered fragment starts with its name reference. */
  function NameOf(f: Fragment): StringReference
  {
    match f
    case BmInfo(x) => x.name_reference
    case Region(x) => x.name_reference
    case DmSpriteDef2(x) => x.name_reference
    case DmSpriteDef(x) => x.name_reference
    case TrackDef(x) => x.name_reference
    case HierarchicalSpriteDef(x) => x.name_reference
    case Actor(x) => x.name_reference
    case LightDef(x) => x.name_reference
    case DmTrackDef2(x) => x.name_reference
    case DmTrackDef(x) => x.name_reference
  }

  /** A body parser's outcome, with the value wrapped as a `Fragment` (the `.map(|f| (f.0, FragmentType::X(f.1)))`). */
  function Tag<X>(o: Outcome<X>, wrap: X -> Fragment): Outcome<Fragment>
  {
    match o
    case Done(x, rest) => Done(wrap(x), rest)
    case Failure => Failure
    case Panic => Panic
  }

  /** One fragment type's body parser, its `into_bytes` and the condition under which the two agree. */
  datatype Codec<!X> = Codec(parse: Bytes -> Outcome<X>, write: X -> Fallible<Bytes>, wf: X -> bool)

  /** A writer that cannot panic, as one that may. */
  function Returning<X>(e: X -> Bytes): X -> Fallible<Bytes>
  {
    x => Returns(e(x))
  }

  /**
   * The writer writes every well-formed value, and the parser reads the
   * value back from any input its encoding begins (whatever bytes follow).
   */
  ghost predicate ReadsBack<X(!new)>(c: Codec<X>)
  {
    (forall x: X {:trigger c.write(x)} :: c.wf(x) ==> c.write(x).Returns?) &&
    forall x: X, s: Bytes {:trigger c.parse(s), c.wf(x)} :: c.wf(x) && c.write(x).Returns? && c.write(x).value <= s ==>
      c.parse(s).Done? && c.parse(s).value == x
  }

  lemma ReadsBackAt<X(!new)>(c: Codec<X>, x: X, pad: Bytes)
    requires ReadsBack(c) && c.wf(x)
    ensures c.write(x).Returns? && c.parse(c.write(x).value + pad) == Done(x, c.parse(c.write(x).value + pad).rest)
  {
    assert c.write(x).value <= c.write(x).value + pad;
  }

  /**
   * A parser that reads back the fields it was given reads back a writer
   * that writes those fields and then anything else (the padding).
   */
  lemma ReadsBackByPrefix<X(!new)>(c: Codec<X>, fields: X -> Bytes)
    requires Complete(c.parse, fields, c.wf)
    requires forall x :: c.wf(x) ==> c.write(x).Returns? && fields(x) <= c.write(x).value
    ensures ReadsBack(c)
  {
    forall x: X, s: Bytes | c.wf(x) && c.write(x).Returns? && c.write(x).value <= s
      ensures c.parse(s).Done? && c.parse(s).value == x
    {
      assert s == fields(x) + s[|fields(x)|..];
    }
  }

  /** The codec of each covered fragment type. */
  datatype Formats = Formats(
    bm_info: Codec<B.BmInfo>,
    region: Codec<R.Region>,
    dm_sprite_def2: Codec<M2.DmSpriteDef2>,
    dm_sprite_def: Codec<M.DmSpriteDef>,
    track_def: Codec<T.TrackDef>,
    hierarchical_sprite_def: Codec<H.HierarchicalSpriteDef>,
    actor: Codec<A.Actor>,
    light_def: Codec<L.LightDef>,
    dm_track_def2: Codec<V2.DmTrackDef2>,
    dm_track_def: Codec<V.DmTrackDef>)

  ghost predicate AllReadBack(t: Formats)
  {
    ReadsBack(t.bm_info) &&
    ReadsBack(t.region) &&
    ReadsBack(t.dm_sprite_def2) &&
    ReadsBack(t.dm_sprite_def) &&
    ReadsBack(t.track_def) &&
    ReadsBack(t.hierarchical_sprite_def) &&
    ReadsBack(t.actor) &&
    ReadsBack(t.light_def) &&
    ReadsBack(t.dm_track_def2) &&
    ReadsBack(t.dm_track_def)
  }

  /** The `parse_body` match over a set of codecs: the parser for a known type id, `None` (an unknown fragment) for any other. */
  function DecodeWith(t: Formats, typeId: u32, body: Bytes): Option<Outcome<Fragment>>
  {
    if typeId == 0x03 then Some(Tag(t.bm_info.parse(body), x => BmInfo(x)))
    else if typeId == 0x22 then Some(Tag(t.region.parse(body), x => Region(x)))
    else if typeId == 0x36 then Some(Tag(t.dm_sprite_def2.parse(body), x => DmSpriteDef2(x)))
    else if typeId == 0x2c then Some(Tag(t.dm_sprite_def.parse(body), x => DmSpriteDef(x)))
    else if typeId == 0x12 then Some(Tag(t.track_def.parse(body), x => TrackDef(x)))
    else if typeId == 0x10 then Some(Tag(t.hierarchical_sprite_def.parse(body), x => HierarchicalSpriteDef(x)))
    else if typeId == 0x15 then Some(Tag(t.actor.parse(body), x => Actor(x)))
    else if typeId == 0x1b then Some(Tag(t.light_def.parse(body), x => LightDef(x)))
    else if typeId == 0x37 then Some(Tag(t.dm_track_def2.parse(body), x => DmTrackDef2(x)))
    else if typeId == 0x2e then Some(Tag(t.dm_track_def.parse(body), x => DmTrackDef(x)))
    else None
  }

  /** Each fragment's `into_bytes` over a set of codecs. */
  function EncodeWith(t: Formats, f: Fragment): Fallible<Bytes>
  {
    match f
    case BmInfo(x) => t.bm_info.write(x)
    case Region(x) => t.region.write(x)
    case DmSpriteDef2(x) => t.dm_sprite_def2.write(x)
    case DmSpriteDef(x) => t.dm_sprite_def.write(x)
    case TrackDef(x) => t.track_def.write(x)
    case HierarchicalSpriteDef(x) => t.hierarchical_sprite_def.write(x)
    case Actor(x) => t.actor.write(x)
    case LightDef(x) => t.light_def.write(x)
    case DmTrackDef2(x) => t.dm_track_def2.write(x)
    case DmTrackDef(x) => t.dm_track_def.write(x)
  }

  predicate WellFormedWith(t: Formats, f: Fragment)
  {
    match f
    case BmInfo(x) => t.bm_info.wf(x)
    case Region(x) => t.region.wf(x)
    case DmSpriteDef2(x) => t.dm_sprite_def2.wf(x)
    case DmSpriteDef(x) => t.dm_sprite_def.wf(x)
    case TrackDef(x) => t.track_def.wf(x)
    case HierarchicalSpriteDef(x) => t.hierarchical_sprite_def.wf(x)
    case Actor(x) => t.actor.wf(x)
    case LightDef(x) => t.light_def.wf(x)
    case DmTrackDef2(x) => t.dm_track_def2.wf(x)
    case DmTrackDef(x) => t.dm_track_def.wf(x)
  }

  /** The dispatch knows exactly the ten covered type ids; any other is an unknown fragment. */
  lemma DecodeKnows(t: Formats, typeId: u32, body: Bytes)
    ensures DecodeWith(t, typeId, body).Some? <==> typeId in KnownTypes
  {
  }

  /** Each fragment decodes from its own encoding, whatever padding follows it, when every codec reads back. */
  lemma DecodeEncode(t: Formats, f: Fragment, pad: Bytes)
    requires AllReadBack(t) && WellFormedWith(t, f)
    ensures EncodeWith(t, f).Returns?
    ensures var o := DecodeWith(t, TypeOf(f), EncodeWith(t, f).value + pad); o.Some? && o.value.Done? && o.value.value == f
  {
    match f
    case BmInfo(x) =>
      ReadsBackAt(t.bm_info, x, pad);
    case Region(x) =>
      ReadsBackAt(t.region, x, pad);
    case DmSpriteDef2(x) =>
      ReadsBackAt(t.dm_sprite_def2, x, pad);
    case DmSpriteDef(x) =>
      ReadsBackAt(t.dm_sprite_def, x, pad);
    case TrackDef(x) =>
      ReadsBackAt(t.track_def, x, pad);
    case HierarchicalSpriteDef(x) =>
      ReadsBackAt(t.hierarchical_sprite_def, x, pad);
    case Actor(x) =>
      ReadsBackAt(t.actor, x, pad);
    case LightDef(x) =>
      ReadsBackAt(t.light_def, x, pad);
    case DmTrackDef2(x) =>
      ReadsBackAt(t.dm_track_def2, x, pad);
    case DmTrackDef(x) =>
      ReadsBackAt(t.dm_track_def, x, pad);
  }

  /** Any dispatcher, writer and condition that agree with a set of codecs that read back meet `Decodes`. */
  lemma DecodesWith(t: Formats, decode: Decoder<Fragment>, encode: Fragment -> Fallible<Bytes>, typeOf: Fragment -> u32,
                    wf: Fragment -> bool)
    requires AllReadBack(t)
    requires forall typeId, body :: decode(typeId, body) == DecodeWith(t, typeId, body)
    requires forall f :: encode(f) == EncodeWith(t, f) && typeOf(f) == TypeOf(f) && wf(f) == WellFormedWith(t, f)
    ensures Decodes(decode, encode, typeOf, wf)
  {
    forall f: Fragment | wf(f) ensures encode(f).Returns? {
      DecodeEncode(t, f, []);
    }
    forall f: Fragment, body: Bytes | wf(f) && encode(f).Returns? && encode(f).value <= body
      ensures decode(typeOf(f), body).Some? && decode(typeOf(f), body).value.Done? && decode(typeOf(f), body).value.value == f
    {
      assert body == encode(f).value + body[|encode(f).value|..];
      DecodeEncode(t, f, body[|encode(f).value|..]);
    }
  }

  /** The codecs this model defines, one per covered fragment type. */
  const Standard: Formats := Formats(
    Codec(B.ParseBmInfo, B.BmInfoBytes, B.BmInfoWellFormed),
    Codec(R.ParseRegion, Returning(R.RegionBytes), R.RegionWellFormed),
    Codec(M2.ParseDmSpriteDef2, Returning(M2.DmSpriteDef2Bytes), M2.DmSpriteDef2WellFormed),
    Codec(M.ParseDmSpriteDef, Returning(M.DmSpriteDefBytes), M.DmSpriteDefWellFormed),
    Codec(T.ParseTrackDef, Returning(T.TrackDefBytes), T.TrackDefWellFormed),
    Codec(H.ParseHierarchicalSpriteDef, Returning(H.HierarchicalSpriteDefBytes), H.HierarchicalSpriteDefWellFormed),
    Codec(A.ParseActor, Returning(A.ActorBytes), A.ActorWellFormed),
    Codec(L.ParseLightDef, Returning(L.LightDefBytes), L.LightDefWellFormed),
    Codec(V2.ParseDmTrackDef2, Returning(V2.DmTrackDef2Bytes), V2.DmTrackDef2WellFormed),
    Codec(V.ParseDmTrackDef, Returning(V.DmTrackDefBytes), V.DmTrackDefWellFormed))

  /** `parse_body` on the covered fragments: `None` is the `UnknownFragment` case. */
  function Decode(typeId: u32, body: Bytes): Option<Outcome<Fragment>>
  {
    DecodeWith(Standard, typeId, body)
  }

  function Encode(f: Fragment): Fallible<Bytes>
  {
    EncodeWith(Standard, f)
  }

  predicate WellFormed(f: Fragment)
  {
    WellFormedWith(Standard, f)
  }

  lemma BmInfoReadsBack()
    ensures ReadsBack(Codec(B.ParseBmInfo, B.BmInfoBytes, B.BmInfoWellFormed))
  {
    var c := Codec(B.ParseBmInfo, B.BmInfoBytes, B.BmInfoWellFormed);
    forall x: B.BmInfo | c.wf(x) ensures c.write(x).Returns? {
      B.BmInfoBytesRoundTrip(x, []);
    }
    forall x: B.BmInfo, s: Bytes | c.wf(x) && c.write(x).Returns? && c.write(x).value <= s
      ensures c.parse(s).Done? && c.parse(s).value == x
    {
      var w := B.BmInfoBytes(x).value;
      assert s == w + s[|w|..];
      B.BmInfoBytesRoundTrip(x, s[|w|..]);
    }
  }

  lemma RegionReadsBack()
    ensures ReadsBack(Codec(R.ParseRegion, Returning(R.RegionBytes), R.RegionWellFormed))
  {
    R.RegionCodec();
    ReadsBackByPrefix(Codec(R.ParseRegion, Returning(R.RegionBytes), R.RegionWellFormed), R.RegionFields);
  }

  lemma DmSpriteDef2ReadsBack()
    ensures ReadsBack(Codec(M2.ParseDmSpriteDef2, Returning(M2.DmSpriteDef2Bytes), M2.DmSpriteDef2WellFormed))
  {
    M2.DmSpriteDef2Codec();
    ReadsBackByPrefix(Codec(M2.ParseDmSpriteDef2, Returning(M2.DmSpriteDef2Bytes), M2.DmSpriteDef2WellFormed), M2.DmSpriteDef2Fields);
  }

  lemma DmSpriteDefReadsBack()
    ensures ReadsBack(Codec(M.ParseDmSpriteDef, Returning(M.DmSpriteDefBytes), M.DmSpriteDefWellFormed))
  {
    M.DmSpriteDefCodec();
    ReadsBackByPrefix(Codec(M.ParseDmSpriteDef, Returning(M.DmSpriteDefBytes), M.DmSpriteDefWellFormed), M.DmSpriteDefBytes);
  }

  lemma TrackDefReadsBack()
    ensures ReadsBack(Codec(T.ParseTrackDef, Returning(T.TrackDefBytes), T.TrackDefWellFormed))
  {
    T.TrackDefCodec();
    ReadsBackByPrefix(Codec(T.ParseTrackDef, Returning(T.TrackDefBytes), T.TrackDefWellFormed), T.TrackDefBytes);
  }

  lemma HierarchicalSpriteDefReadsBack()
    ensures ReadsBack(Codec(H.ParseHierarchicalSpriteDef, Returning(H.HierarchicalSpriteDefBytes), H.HierarchicalSpriteDefWellFormed))
  {
    H.HierarchicalSpriteDefCodec();
    ReadsBackByPrefix(Codec(H.ParseHierarchicalSpriteDef, Returning(H.HierarchicalSpriteDefBytes), H.HierarchicalSpriteDefWellFormed), H.HierarchicalSpriteDefBytes);
  }

  lemma ActorReadsBack()
    ensures ReadsBack(Codec(A.ParseActor, Returning(A.ActorBytes), A.ActorWellFormed))
  {
    A.ActorCodec();
    ReadsBackByPrefix(Codec(A.ParseActor, Returning(A.ActorBytes), A.ActorWellFormed), A.ActorFields);
  }

  lemma LightDefReadsBack()
    ensures ReadsBack(Codec(L.ParseLightDef, Returning(L.LightDefBytes), L.LightDefWellFormed))
  {
    L.LightDefCodec();
    ReadsBackByPrefix(Codec(L.ParseLightDef, Returning(L.LightDefBytes), L.LightDefWellFormed), L.LightDefBytes);
  }

  lemma DmTrackDef2ReadsBack()
    ensures ReadsBack(Codec(V2.ParseDmTrackDef2, Returning(V2.DmTrackDef2Bytes), V2.DmTrackDef2WellFormed))
  {
    V2.DmTrackDef2Codec();
    ReadsBackByPrefix(Codec(V2.ParseDmTrackDef2, Returning(V2.DmTrackDef2Bytes), V2.DmTrackDef2WellFormed), V2.DmTrackDef2Bytes);
  }

  lemma DmTrackDefReadsBack()
    ensures ReadsBack(Codec(V.ParseDmTrackDef, Returning(V.DmTrackDefBytes), V.DmTrackDefWellFormed))
  {
    V.DmTrackDefCodec();
    ReadsBackByPrefix(Codec(V.ParseDmTrackDef, Returning(V.DmTrackDefBytes), V.DmTrackDefWellFormed), V.DmTrackDefBytes);
  }

  lemma StandardReadsBack()
    ensures AllReadBack(Standard)
  {
    BmInfoReadsBack();
    RegionReadsBack();
    DmSpriteDef2ReadsBack();
    DmSpriteDefReadsBack();
    TrackDefReadsBack();
    HierarchicalSpriteDefReadsBack();
    ActorReadsBack();
    LightDefReadsBack();
    DmTrackDef2ReadsBack();
    DmTrackDefReadsBack();
  }

  /** An unknown type id rejects the body with an `UnknownFragment` error carrying the index and header. */
  lemma UnknownTypeRejected(h: FragmentHeader, index: nat)
    requires h.fragment_type !in KnownTypes
    ensures ParseBody(Decode, h, index) == Returns(Rejected(UnknownFragment(index, h)))
  {
    DecodeKnows(Standard, h.fragment_type, h.field_data);
  }

  lemma TableDecodes()
    ensures Decodes(Decode, Encode, TypeOf, WellFormed)
  {
    StandardReadsBack();
    DecodesWith(Standard, Decode, Encode, TypeOf, WellFormed);
  }

  /**
   * A well-formed document of covered fragments, written by `into_bytes`
   * and parsed again, is the same document.
   */
  lemma DocumentRoundTrip(d: WldDoc<Fragment>, rest: Bytes)
    requires DocWellFormed(Encode, WellFormed, d)
    ensures WldDocBytes(Encode, TypeOf, d).Returns?
    ensures ParseWldDoc(Decode, WldDocBytes(Encode, TypeOf, d).value + rest) == Returns(Ok(d))
  {
    TableDecodes();
    WldDocRoundTrip(Decode, Encode, TypeOf, WellFormed, d, rest);
  }

  // ---- the writers as the source has them

  /**
   * `Standard` with the two writers as written: the `Actor` writer that
   * sizes the user data from its length word, and the `DmTrackDef`
   * writer that emits the flags big-endian. Each is paired with the
   * condition under which its output reads back.
   */
  const AsWritten: Formats := Standard.(
    actor := Codec(A.ParseActor, Returning(A.ActorBytesAsWritten), A.ActorWellFormedAsWritten),
    dm_track_def := Codec(V.ParseDmTrackDef, Returning(V.DmTrackDefBytesAsWritten), V.DmTrackDefWellFormedAsWritten))

  function EncodeAsWritten(f: Fragment): Fallible<Bytes>
  {
    EncodeWith(AsWritten, f)
  }

  predicate WellFormedAsWritten(f: Fragment)
  {
    WellFormedWith(AsWritten, f)
  }

  lemma ActorAsWrittenReadsBack()
    ensures ReadsBack(Codec(A.ParseActor, Returning(A.ActorBytesAsWritten), A.ActorWellFormedAsWritten))
  {
    var c := Codec(A.ParseActor, Returning(A.ActorBytesAsWritten), A.ActorWellFormedAsWritten);
    forall x: A.Actor, s: Bytes | c.wf(x) && c.write(x).Returns? && c.write(x).value <= s
      ensures c.parse(s).Done? && c.parse(s).value == x
    {
      var w := A.ActorBytesAsWritten(x);
      assert s == w + s[|w|..];
      A.AsWrittenParsesAs(x, s[|w|..]);
      A.AsWrittenReadsBackIff(x);
    }
  }

  lemma DmTrackDefAsWrittenReadsBack()
    ensures ReadsBack(Codec(V.ParseDmTrackDef, Returning(V.DmTrackDefBytesAsWritten), V.DmTrackDefWellFormedAsWritten))
  {
    var c := Codec(V.ParseDmTrackDef, Returning(V.DmTrackDefBytesAsWritten), V.DmTrackDefWellFormedAsWritten);
    forall x: V.DmTrackDef, s: Bytes | c.wf(x) && c.write(x).Returns? && c.write(x).value <= s
      ensures c.parse(s).Done? && c.parse(s).value == x
    {
      var w := V.DmTrackDefBytesAsWritten(x);
      assert s == w + s[|w|..];
      V.AsWrittenRoundTripIff(x, s[|w|..]);
    }
  }

  lemma AsWrittenReadsBack()
    ensures AllReadBack(AsWritten)
  {
    BmInfoReadsBack();
    RegionReadsBack();
    DmSpriteDef2ReadsBack();
    DmSpriteDefReadsBack();
    TrackDefReadsBack();
    HierarchicalSpriteDefReadsBack();
    ActorAsWrittenReadsBack();
    LightDefReadsBack();
    DmTrackDef2ReadsBack();
    DmTrackDefAsWrittenReadsBack();
  }

  /** The dispatch reads the same parsers whichever writers go with them. */
  lemma AsWrittenDecodes()
    ensures Decodes(Decode, EncodeAsWritten, TypeOf, WellFormedAsWritten)
  {
    AsWrittenReadsBack();
    forall typeId: u32, body: Bytes ensures Decode(typeId, body) == DecodeWith(AsWritten, typeId, body) {
    }
    DecodesWith(AsWritten, Decode, EncodeAsWritten, TypeOf, WellFormedAsWritten);
  }

  /** A document whose fragments all meet the as-written conditions survives the as-written writers. */
  lemma AsWrittenDocumentRoundTrip(d: WldDoc<Fragment>, rest: Bytes)
    requires DocWellFormed(EncodeAsWritten, WellFormedAsWritten, d)
    ensures WldDocBytes(EncodeAsWritten, TypeOf, d).Returns?
    ensures ParseWldDoc(Decode, WldDocBytes(EncodeAsWritten, TypeOf, d).value + rest) == Returns(Ok(d))
  {
    AsWrittenDecodes();
    WldDocRoundTrip(Decode, EncodeAsWritten, TypeOf, WellFormedAsWritten, d, rest);
  }

  /**
   * A well-formed Actor whose length word runs past its data plus one,
   * or a DmTrackDef whose flags are not a byte palindrome, does not read
   * back from its as-written, padded body.
   */
  lemma AsWrittenMisreads(f: Fragment)
    requires WellFormed(f) && !WellFormedAsWritten(f)
    ensures !FramedReadsBack(Decode, EncodeAsWritten, TypeOf, f)
  {
    AsWrittenDispatch();
    AsWrittenBreaks(f);
    MisreadsWith(AsWritten, Decode, EncodeAsWritten, f);
  }

  /** Only an Actor or a DmTrackDef can meet the standard condition and miss the as-written one. */
  lemma AsWrittenBreaks(f: Fragment)
    requires WellFormed(f) && !WellFormedAsWritten(f)
    ensures Breaks(f)
  {
  }

  /** An Actor whose length word runs past its data plus one, or a DmTrackDef whose flags are not a byte palindrome. */
  predicate Breaks(f: Fragment)
  {
    (f.Actor? && A.ActorWellFormed(f.actor) && !A.ActorWellFormedAsWritten(f.actor)) ||
    (f.DmTrackDef? && V.DmTrackDefWellFormed(f.dm_track_def) && !V.DmTrackDefWellFormedAsWritten(f.dm_track_def))
  }

  lemma MisreadsWith(t: Formats, decode: Decoder<Fragment>, encode: Fragment -> Fallible<Bytes>, f: Fragment)
    requires t.actor == Codec(A.ParseActor, Returning(A.ActorBytesAsWritten), A.ActorWellFormedAsWritten)
    requires t.dm_track_def == Codec(V.ParseDmTrackDef, Returning(V.DmTrackDefBytesAsWritten), V.DmTrackDefWellFormedAsWritten)
    requires forall typeId, body :: decode(typeId, body) == DecodeWith(t, typeId, body)
    requires forall g :: encode(g) == EncodeWith(t, g)
    requires Breaks(f)
    ensures !FramedReadsBack(decode, encode, TypeOf, f)
  {
    if f.Actor? {
      ActorMisparsedWith(t, f.actor);
      var b := A.ActorBytesAsWritten(f.actor);
      ActorMisdecodedWith(t, f.actor, b + Zeros(Pad4(|b|)));
      DispatchedAsOther(t, decode, encode, f, b);
    } else {
      DmTrackDefMisparsedWith(t, f.dm_track_def);
      var b := V.DmTrackDefBytesAsWritten(f.dm_track_def);
      DmTrackDefMisdecodedWith(t, f.dm_track_def, b + Zeros(Pad4(|b|)));
      DispatchedAsOther(t, decode, encode, f, b);
    }
  }

  /** The dispatch and the as-written writers are those of `AsWritten`. */
  lemma AsWrittenDispatch()
    ensures AsWritten.actor == Codec(A.ParseActor, Returning(A.ActorBytesAsWritten), A.ActorWellFormedAsWritten)
    ensures AsWritten.dm_track_def == Codec(V.ParseDmTrackDef, Returning(V.DmTrackDefBytesAsWritten), V.DmTrackDefWellFormedAsWritten)
    ensures forall typeId, body :: Decode(typeId, body) == DecodeWith(AsWritten, typeId, body)
    ensures forall g :: EncodeAsWritten(g) == EncodeWith(AsWritten, g)
  {
    forall typeId: u32, body: Bytes ensures Decode(typeId, body) == DecodeWith(AsWritten, typeId, body) {
    }
  }

  /** An actor the as-written writer does not preserve is read back, padded, as another actor. */
  lemma ActorMisparsedWith(t: Formats, a: A.Actor)
    requires t.actor == Codec(A.ParseActor, Returning(A.ActorBytesAsWritten), A.ActorWellFormedAsWritten)
    requires A.ActorWellFormed(a) && !A.ActorWellFormedAsWritten(a)
    ensures t.actor.write(a) == Returns(A.ActorBytesAsWritten(a))
    ensures var b := A.ActorBytesAsWritten(a); var o := t.actor.parse(b + Zeros(Pad4(|b|))); o.Done? && o.value != a
  {
    var b := A.ActorBytesAsWritten(a);
    A.AsWrittenMisreadsPadded(a, Zeros(Pad4(|b|)));
  }

  lemma DmTrackDefMisparsedWith(t: Formats, x: V.DmTrackDef)
    requires t.dm_track_def == Codec(V.ParseDmTrackDef, Returning(V.DmTrackDefBytesAsWritten), V.DmTrackDefWellFormedAsWritten)
    requires V.DmTrackDefWellFormed(x) && !V.DmTrackDefWellFormedAsWritten(x)
    ensures t.dm_track_def.write(x) == Returns(V.DmTrackDefBytesAsWritten(x))
    ensures var b := V.DmTrackDefBytesAsWritten(x); var o := t.dm_track_def.parse(b + Zeros(Pad4(|b|))); o.Done? && o.value != x
  {
    var b := V.DmTrackDefBytesAsWritten(x);
    V.AsWrittenChangesFlags(x, Zeros(Pad4(|b|)));
  }

  /** A body the actor parser reads as another actor, the dispatch reads as another fragment. */
  lemma ActorMisdecodedWith(t: Formats, a: A.Actor, body: Bytes)
    requires var o := t.actor.parse(body); o.Done? && o.value != a
    ensures var o := DecodeWith(t, 0x15, body); o.Some? && o.value.Done? && o.value.value != Actor(a)
  {
  }

  lemma DmTrackDefMisdecodedWith(t: Formats, x: V.DmTrackDef, body: Bytes)
    requires var o := t.dm_track_def.parse(body); o.Done? && o.value != x
    ensures var o := DecodeWith(t, 0x2e, body); o.Some? && o.value.Done? && o.value.value != DmTrackDef(x)
  {
  }

  /** A fragment whose padded encoding the table's dispatch reads as another fragment does not read back. */
  lemma DispatchedAsOther(t: Formats, decode: Decoder<Fragment>, encode: Fragment -> Fallible<Bytes>, f: Fragment, b: Bytes)
    requires forall typeId, body :: decode(typeId, body) == DecodeWith(t, typeId, body)
    requires forall g :: encode(g) == EncodeWith(t, g)
    requires EncodeWith(t, f) == Returns(b)
    requires var o := DecodeWith(t, TypeOf(f), b + Zeros(Pad4(|b|))); o.Some? && o.value.Done? && o.value.value != f
    ensures !FramedReadsBack(decode, encode, TypeOf, f)
  {
    DecodesAsOther(decode, encode, TypeOf, f, b);
  }

  /**
   * A well-formed document written with the as-written writers parses
   * back as itself exactly when every fragment meets the as-written
   * conditions.
   */
  lemma AsWrittenDocumentRoundTripIff(d: WldDoc<Fragment>, rest: Bytes)
    requires DocWellFormed(EncodeAsWritten, WellFormed, d)
    ensures WldDocBytes(EncodeAsWritten, TypeOf, d).Returns?
    ensures ParseWldDoc(Decode, WldDocBytes(EncodeAsWritten, TypeOf, d).value + rest) == Returns(Ok(d)) <==>
      forall j :: 0 <= j < |d.fragments| ==> WellFormedAsWritten(d.fragments[j])
  {
    FramedAligned(EncodeAsWritten, TypeOf, d.fragments);
    if forall j :: 0 <= j < |d.fragments| ==> WellFormedAsWritten(d.fragments[j]) {
      AsWrittenDocumentRoundTrip(d, rest);
    } else {
      var j :| 0 <= j < |d.fragments| && !WellFormedAsWritten(d.fragments[j]);
      AsWrittenMisreads(d.fragments[j]);
      MisreadBreaksRoundTrip(Decode, EncodeAsWritten, TypeOf, WellFormed, d, rest, j);
    }
  }
}
