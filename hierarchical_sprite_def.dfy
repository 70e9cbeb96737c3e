/**
 * The HierarchicalSpriteDef fragment (type 0x10): a skeleton of dags
 * (nodes with their child indices), an optional centre and bounding radius,
 * and optionally the attached skins.
 */
module HierarchicalSpriteDefFragment {
  import opened Wire
  import opened Strings

  type Triple = (u32, u32, u32)

  const CenterOffsetFlag: u32 := 0x01
  const BoundingRadiusFlag: u32 := 0x02
  /** Named `UNKNOWN_FLAG` by the source; it gates the attached skins. */
  const AttachedSkinsFlag: u32 := 0x200

  // ---- one node of the skeleton

  datatype Dag = Dag(name_reference: i32, flags: u32, track_reference: u32, mesh_or_sprite_reference: u32,
                     num_sub_dags: u32, sub_dags: seq<u32>)

  /** `Dag::parse`: four words, the child count, then that many child indices. */
  function ParseDag(s: Bytes): (o: Outcome<Dag>)
  {
    ParseDagWith(I32, Word4, U32, s)
  }

  function ParseDagWith(int32: Bytes -> Outcome<i32>, words: Bytes -> Outcome<(u32, u32, u32, u32)>,
                        word: Bytes -> Outcome<u32>, s: Bytes): (o: Outcome<Dag>)
  {
    var n :- int32(s);
    var w :- words(n.rest);
    var subs :- Many(word, w.value.3, w.rest);
    Done(Dag(n.value, w.value.0, w.value.1, w.value.2, w.value.3, subs.value), subs.rest)
  }

  /** `Dag::into_bytes`. */
  function DagBytes(d: Dag): Bytes
  {
    LeI32(d.name_reference) + Word4Bytes(DagWords(d)) + Flat(LeU32, d.sub_dags)
  }

  function DagWords(d: Dag): (u32, u32, u32, u32)
  {
    (d.flags, d.track_reference, d.mesh_or_sprite_reference, d.num_sub_dags)
  }

  /** A dag lists exactly `num_sub_dags` children. */
  predicate DagWellFormed(d: Dag)
  {
    |d.sub_dags| == d.num_sub_dags
  }

  lemma DagRoundTripWith(int32: Bytes -> Outcome<i32>, words: Bytes -> Outcome<(u32, u32, u32, u32)>,
                         word: Bytes -> Outcome<u32>, d: Dag, rest: Bytes)
    requires Complete(int32, LeI32, Any) && Complete(words, Word4Bytes, Any) && Complete(word, LeU32, Any)
    requires DagWellFormed(d)
    ensures ParseDagWith(int32, words, word, DagBytes(d) + rest) == Done(d, rest)
  {
    var t2 := Flat(LeU32, d.sub_dags) + rest;
    var t1 := Word4Bytes(DagWords(d)) + t2;
    Nest3(LeI32(d.name_reference), Word4Bytes(DagWords(d)), Flat(LeU32, d.sub_dags), rest);
    CompleteAt(int32, LeI32, Any, d.name_reference, t1);
    CompleteAt(words, Word4Bytes, Any, DagWords(d), t2);
    ManyRoundTrip(word, LeU32, Any, d.sub_dags, rest);
  }

  lemma DagSoundWith(int32: Bytes -> Outcome<i32>, words: Bytes -> Outcome<(u32, u32, u32, u32)>,
                     word: Bytes -> Outcome<u32>, s: Bytes)
    requires Sound(int32, LeI32, Any) && Sound(words, Word4Bytes, Any) && Sound(word, LeU32, Any)
    ensures var o := ParseDagWith(int32, words, word, s);
      o.Done? ==> DagWellFormed(o.value) && s == DagBytes(o.value) + o.rest
  {
    var o := ParseDagWith(int32, words, word, s);
    if o.Done? {
      var d := o.value;
      var n := int32(s);
      var w := words(n.rest);
      SoundAt(int32, LeI32, Any, s);
      SoundAt(words, Word4Bytes, Any, n.rest);
      assert w.value == DagWords(d);
      ManySound(word, LeU32, Any, w.value.3, w.rest);
      Nest3(LeI32(d.name_reference), Word4Bytes(DagWords(d)), Flat(LeU32, d.sub_dags), o.rest);
    }
  }

  /** Every well-formed dag parses back, and whatever parses is well formed and re-encodes to its input. */
  lemma DagCodec()
    ensures Complete(ParseDag, DagBytes, DagWellFormed) && Sound(ParseDag, DagBytes, DagWellFormed)
  {
    I32Codec();
    Word4Codec();
    U32Codec();
    forall d: Dag, rest: Bytes | DagWellFormed(d) ensures ParseDag(DagBytes(d) + rest) == Done(d, rest) {
      DagRoundTripWith(I32, Word4, U32, d, rest);
    }
    forall s: Bytes ensures var o := ParseDag(s); o.Done? ==> DagWellFormed(o.value) && s == DagBytes(o.value) + o.rest {
      DagSoundWith(I32, Word4, U32, s);
    }
  }

  // ---- the centre offset and bounding radius, gated by bits 0x01 and 0x02

  type Extent = (Option<Triple>, Option<f32>)

  function ParseExtent(flags: u32, s: Bytes): (o: Outcome<Extent>)
  {
    ParseExtentWith(Word3, U32, flags, s)
  }

  function ParseExtentWith(triple: Bytes -> Outcome<Triple>, word: Bytes -> Outcome<u32>, flags: u32,
                           s: Bytes): (o: Outcome<Extent>)
  {
    var center :- When(HasFlag(flags, CenterOffsetFlag), triple, s);
    var radius :- When(HasFlag(flags, BoundingRadiusFlag), word, center.rest);
    Done((center.value, radius.value), radius.rest)
  }

  function ExtentBytes(x: Extent): Bytes
  {
    OptBytes(Word3Bytes, x.0) + OptBytes(LeU32, x.1)
  }

  predicate ExtentMatches(flags: u32, x: Extent)
  {
    Gated(HasFlag(flags, CenterOffsetFlag), Any, x.0) && Gated(HasFlag(flags, BoundingRadiusFlag), Any, x.1)
  }

  lemma ExtentRoundTripWith(triple: Bytes -> Outcome<Triple>, word: Bytes -> Outcome<u32>, flags: u32, x: Extent,
                            rest: Bytes)
    requires Complete(triple, Word3Bytes, Any) && Complete(word, LeU32, Any)
    requires ExtentMatches(flags, x)
    ensures ParseExtentWith(triple, word, flags, ExtentBytes(x) + rest) == Done(x, rest)
  {
    Nest2(OptBytes(Word3Bytes, x.0), OptBytes(LeU32, x.1), rest);
    WhenRoundTrip(HasFlag(flags, CenterOffsetFlag), triple, Word3Bytes, Any, x.0, OptBytes(LeU32, x.1) + rest);
    WhenRoundTrip(HasFlag(flags, BoundingRadiusFlag), word, LeU32, Any, x.1, rest);
  }

  lemma ExtentSoundWith(triple: Bytes -> Outcome<Triple>, word: Bytes -> Outcome<u32>, flags: u32, s: Bytes)
    requires Sound(triple, Word3Bytes, Any) && Sound(word, LeU32, Any)
    ensures var o := ParseExtentWith(triple, word, flags, s);
      o.Done? ==> ExtentMatches(flags, o.value) && s == ExtentBytes(o.value) + o.rest
  {
    var o := ParseExtentWith(triple, word, flags, s);
    if o.Done? {
      var center := When(HasFlag(flags, CenterOffsetFlag), triple, s);
      WhenSound(HasFlag(flags, CenterOffsetFlag), triple, Word3Bytes, Any, s);
      WhenSound(HasFlag(flags, BoundingRadiusFlag), word, LeU32, Any, center.rest);
      Nest2(OptBytes(Word3Bytes, o.value.0), OptBytes(LeU32, o.value.1), o.rest);
    }
  }

  // ---- the attached skins, gated by bit 0x200

  type Skins = (Option<u32>, Option<seq<u32>>, Option<seq<u32>>)

  function ParseSkins(flags: u32, s: Bytes): (o: Outcome<Skins>)
  {
    ParseSkinsWith(U32, flags, s)
  }

  /**
   * The skin count, then the sprites and the dag indices, both of that
   * length; the source falls back to 0 when the count is missing, which the
   * shared flag bit rules out.
   */
  function ParseSkinsWith(word: Bytes -> Outcome<u32>, flags: u32, s: Bytes): (o: Outcome<Skins>)
  {
    var skins :- When(HasFlag(flags, AttachedSkinsFlag), word, s);
    var size: Option<u32> := if HasFlag(flags, AttachedSkinsFlag) then
                                Some(if skins.value.Some? then skins.value.value else 0)
                              else None;
    var sprites :- Counted(size, word, skins.rest);
    var links :- Counted(size, word, sprites.rest);
    Done((skins.value, sprites.value, links.value), links.rest)
  }

  function SkinsBytes(x: Skins): Bytes
  {
    OptBytes(LeU32, x.0) + OptFlat(LeU32, x.1) + OptFlat(LeU32, x.2)
  }

  /** The count and both lists are present exactly when bit 0x200 is set, both lists of that length. */
  predicate SkinsMatch(flags: u32, x: Skins)
  {
    Gated(HasFlag(flags, AttachedSkinsFlag), Any, x.0) && CountMatches(x.0, Any, x.1) && CountMatches(x.0, Any, x.2)
  }

  lemma SkinsRoundTripWith(word: Bytes -> Outcome<u32>, flags: u32, x: Skins, rest: Bytes)
    requires Complete(word, LeU32, Any)
    requires SkinsMatch(flags, x)
    ensures ParseSkinsWith(word, flags, SkinsBytes(x) + rest) == Done(x, rest)
  {
    var t2 := OptFlat(LeU32, x.2) + rest;
    var t1 := OptFlat(LeU32, x.1) + t2;
    Nest3(OptBytes(LeU32, x.0), OptFlat(LeU32, x.1), OptFlat(LeU32, x.2), rest);
    WhenRoundTrip(HasFlag(flags, AttachedSkinsFlag), word, LeU32, Any, x.0, t1);
    CountedRoundTrip(x.0, word, LeU32, Any, x.1, t2);
    CountedRoundTrip(x.0, word, LeU32, Any, x.2, rest);
  }

  lemma SkinsSoundWith(word: Bytes -> Outcome<u32>, flags: u32, s: Bytes)
    requires Sound(word, LeU32, Any)
    ensures var o := ParseSkinsWith(word, flags, s);
      o.Done? ==> SkinsMatch(flags, o.value) && s == SkinsBytes(o.value) + o.rest
  {
    var o := ParseSkinsWith(word, flags, s);
    if o.Done? {
      var skins := When(HasFlag(flags, AttachedSkinsFlag), word, s);
      WhenSound(HasFlag(flags, AttachedSkinsFlag), word, LeU32, Any, s);
      var size: Option<u32> := if HasFlag(flags, AttachedSkinsFlag) then
                                  Some(if skins.value.Some? then skins.value.value else 0)
                                else None;
      assert size == skins.value;
      var sprites := Counted(size, word, skins.rest);
      CountedSound(size, word, LeU32, Any, skins.rest);
      CountedSound(size, word, LeU32, Any, sprites.rest);
      Nest3(OptBytes(LeU32, o.value.0), OptFlat(LeU32, o.value.1), OptFlat(LeU32, o.value.2), o.rest);
    }
  }

  lemma StagesCodec()
    ensures CompleteIn(ParseExtent, ExtentBytes, ExtentMatches) && SoundIn(ParseExtent, ExtentBytes, ExtentMatches)
    ensures CompleteIn(ParseSkins, SkinsBytes, SkinsMatch) && SoundIn(ParseSkins, SkinsBytes, SkinsMatch)
  {
    Word3Codec();
    U32Codec();
    forall f: u32, x: Extent, rest: Bytes | ExtentMatches(f, x)
      ensures ParseExtent(f, ExtentBytes(x) + rest) == Done(x, rest)
    {
      ExtentRoundTripWith(Word3, U32, f, x, rest);
    }
    forall f: u32, s: Bytes ensures var o := ParseExtent(f, s);
      o.Done? ==> ExtentMatches(f, o.value) && s == ExtentBytes(o.value) + o.rest
    {
      ExtentSoundWith(Word3, U32, f, s);
    }
    forall f: u32, x: Skins, rest: Bytes | SkinsMatch(f, x)
      ensures ParseSkins(f, SkinsBytes(x) + rest) == Done(x, rest)
    {
      SkinsRoundTripWith(U32, f, x, rest);
    }
    forall f: u32, s: Bytes ensures var o := ParseSkins(f, s);
      o.Done? ==> SkinsMatch(f, o.value) && s == SkinsBytes(o.value) + o.rest
    {
      SkinsSoundWith(U32, f, s);
    }
  }

  // ---- the fragment

  datatype HierarchicalSpriteDef = HierarchicalSpriteDef(
    name_reference: StringReference, flags: u32, num_dags: u32, collision_volume_reference: u32,
    center_offset: Option<Triple>, bounding_radius: Option<f32>, dags: seq<Dag>,
    num_attached_skins: Option<u32>, dm_sprites: Option<seq<u32>>, link_skin_updates_to_dag_index: Option<seq<u32>>)

  function ExtentOf(h: HierarchicalSpriteDef): Extent
  {
    (h.center_offset, h.bounding_radius)
  }

  function SkinsOf(h: HierarchicalSpriteDef): Skins
  {
    (h.num_attached_skins, h.dm_sprites, h.link_skin_updates_to_dag_index)
  }

  /** `HierarchicalSpriteDef::parse`. */
  function ParseHierarchicalSpriteDef(s: Bytes): (o: Outcome<HierarchicalSpriteDef>)
  {
    ParseHierarchicalSpriteDefWith(ParseStringReference, U32, Word2, ParseExtent, ParseDag, ParseSkins, s)
  }

  function ParseHierarchicalSpriteDefWith(name: Bytes -> Outcome<StringReference>, word: Bytes -> Outcome<u32>,
                                          pair: Bytes -> Outcome<(u32, u32)>, extent: (u32, Bytes) -> Outcome<Extent>,
                                          dag: Bytes -> Outcome<Dag>, skins: (u32, Bytes) -> Outcome<Skins>,
                                          s: Bytes): (o: Outcome<HierarchicalSpriteDef>)
  {
    var n :- name(s);
    var flags :- word(n.rest);
    var counts :- pair(flags.rest);
    var e :- extent(flags.value, counts.rest);
    var dags :- Many(dag, counts.value.0, e.rest);
    var k :- skins(flags.value, dags.rest);
    Done(HierarchicalSpriteDef(n.value, flags.value, counts.value.0, counts.value.1, e.value.0, e.value.1, dags.value,
      k.value.0, k.value.1, k.value.2), k.rest)
  }

  /** `HierarchicalSpriteDef::into_bytes`: every field in parse order. */
  function HierarchicalSpriteDefBytes(h: HierarchicalSpriteDef): Bytes
  {
    StringReferenceBytes(h.name_reference) + LeU32(h.flags) + Word2Bytes((h.num_dags, h.collision_volume_reference)) +
    ExtentBytes(ExtentOf(h)) + Flat(DagBytes, h.dags) + SkinsBytes(SkinsOf(h))
  }

  /**
   * There are `num_dags` dags, each with `num_sub_dags` children; the centre
   * offset, the bounding radius and the skins are present exactly when bits
   * 0x01, 0x02 and 0x200 are set, both skin lists `num_attached_skins` long.
   */
  predicate HierarchicalSpriteDefWellFormed(h: HierarchicalSpriteDef)
  {
    |h.dags| == h.num_dags && (forall d :: d in h.dags ==> DagWellFormed(d)) &&
    ExtentMatches(h.flags, ExtentOf(h)) && SkinsMatch(h.flags, SkinsOf(h))
  }

  lemma HierarchicalSpriteDefRoundTripWith(name: Bytes -> Outcome<StringReference>, word: Bytes -> Outcome<u32>,
                                           pair: Bytes -> Outcome<(u32, u32)>,
                                           extent: (u32, Bytes) -> Outcome<Extent>, dag: Bytes -> Outcome<Dag>,
                                           skins: (u32, Bytes) -> Outcome<Skins>, h: HierarchicalSpriteDef,
                                           rest: Bytes)
    requires Complete(name, StringReferenceBytes, Any) && Complete(word, LeU32, Any)
    requires Complete(pair, Word2Bytes, Any) && Complete(dag, DagBytes, DagWellFormed)
    requires CompleteIn(extent, ExtentBytes, ExtentMatches) && CompleteIn(skins, SkinsBytes, SkinsMatch)
    requires HierarchicalSpriteDefWellFormed(h)
    ensures ParseHierarchicalSpriteDefWith(name, word, pair, extent, dag, skins, HierarchicalSpriteDefBytes(h) + rest)
      == Done(h, rest)
  {
    var t5 := SkinsBytes(SkinsOf(h)) + rest;
    var t4 := Flat(DagBytes, h.dags) + t5;
    var t3 := ExtentBytes(ExtentOf(h)) + t4;
    var t2 := Word2Bytes((h.num_dags, h.collision_volume_reference)) + t3;
    var t1 := LeU32(h.flags) + t2;
    Nest6(StringReferenceBytes(h.name_reference), LeU32(h.flags), Word2Bytes((h.num_dags, h.collision_volume_reference)),
      ExtentBytes(ExtentOf(h)), Flat(DagBytes, h.dags), SkinsBytes(SkinsOf(h)), rest);
    CompleteAt(name, StringReferenceBytes, Any, h.name_reference, t1);
    CompleteAt(word, LeU32, Any, h.flags, t2);
    CompleteAt(pair, Word2Bytes, Any, (h.num_dags, h.collision_volume_reference), t3);
    assert extent(h.flags, ExtentBytes(ExtentOf(h)) + t4) == Done(ExtentOf(h), t4);
    ManyRoundTrip(dag, DagBytes, DagWellFormed, h.dags, t5);
    assert skins(h.flags, SkinsBytes(SkinsOf(h)) + rest) == Done(SkinsOf(h), rest);
  }

  lemma HierarchicalSpriteDefExactWith(name: Bytes -> Outcome<StringReference>, word: Bytes -> Outcome<u32>,
                                       pair: Bytes -> Outcome<(u32, u32)>, extent: (u32, Bytes) -> Outcome<Extent>,
                                       dag: Bytes -> Outcome<Dag>, skins: (u32, Bytes) -> Outcome<Skins>, s: Bytes)
    requires Sound(name, StringReferenceBytes, Any) && Sound(word, LeU32, Any)
    requires Sound(pair, Word2Bytes, Any) && Sound(dag, DagBytes, DagWellFormed)
    requires SoundIn(extent, ExtentBytes, ExtentMatches) && SoundIn(skins, SkinsBytes, SkinsMatch)
    ensures var o := ParseHierarchicalSpriteDefWith(name, word, pair, extent, dag, skins, s);
      o.Done? ==> HierarchicalSpriteDefWellFormed(o.value) && s == HierarchicalSpriteDefBytes(o.value) + o.rest
  {
    var o := ParseHierarchicalSpriteDefWith(name, word, pair, extent, dag, skins, s);
    if o.Done? {
      var h := o.value;
      var n := name(s);
      var flags := word(n.rest);
      var counts := pair(flags.rest);
      var e := extent(h.flags, counts.rest);
      var dags := Many(dag, h.num_dags, e.rest);
      SoundAt(name, StringReferenceBytes, Any, s);
      SoundAt(word, LeU32, Any, n.rest);
      SoundAt(pair, Word2Bytes, Any, flags.rest);
      assert ExtentOf(h) == e.value && SkinsOf(h) == skins(h.flags, dags.rest).value;
      assert ExtentMatches(h.flags, e.value) && counts.rest == ExtentBytes(e.value) + e.rest;
      ManySound(dag, DagBytes, DagWellFormed, h.num_dags, e.rest);
      assert SkinsMatch(h.flags, SkinsOf(h)) && dags.rest == SkinsBytes(SkinsOf(h)) + o.rest;
      Nest6(StringReferenceBytes(h.name_reference), LeU32(h.flags), Word2Bytes((h.num_dags, h.collision_volume_reference)),
        ExtentBytes(ExtentOf(h)), Flat(DagBytes, h.dags), SkinsBytes(SkinsOf(h)), o.rest);
    }
  }

  lemma HierarchicalSpriteDefCodec()
    ensures Complete(ParseHierarchicalSpriteDef, HierarchicalSpriteDefBytes, HierarchicalSpriteDefWellFormed)
    ensures Sound(ParseHierarchicalSpriteDef, HierarchicalSpriteDefBytes, HierarchicalSpriteDefWellFormed)
  {
    StringReferenceCodec();
    U32Codec();
    Word2Codec();
    DagCodec();
    StagesCodec();
    forall h: HierarchicalSpriteDef, rest: Bytes | HierarchicalSpriteDefWellFormed(h)
      ensures ParseHierarchicalSpriteDef(HierarchicalSpriteDefBytes(h) + rest) == Done(h, rest)
    {
      HierarchicalSpriteDefRoundTripWith(ParseStringReference, U32, Word2, ParseExtent, ParseDag, ParseSkins, h, rest);
    }
    forall s: Bytes ensures var o := ParseHierarchicalSpriteDef(s);
      o.Done? ==> HierarchicalSpriteDefWellFormed(o.value) && s == HierarchicalSpriteDefBytes(o.value) + o.rest
    {
      HierarchicalSpriteDefExactWith(ParseStringReference, U32, Word2, ParseExtent, ParseDag, ParseSkins, s);
    }
  }

  /** Parsing a serialised skeleton gives it back. */
  lemma HierarchicalSpriteDefRoundTrip(h: HierarchicalSpriteDef, rest: Bytes)
    requires HierarchicalSpriteDefWellFormed(h)
    ensures ParseHierarchicalSpriteDef(HierarchicalSpriteDefBytes(h) + rest) == Done(h, rest)
  {
    HierarchicalSpriteDefCodec();
    CompleteAt(ParseHierarchicalSpriteDef, HierarchicalSpriteDefBytes, HierarchicalSpriteDefWellFormed, h, rest);
  }

  /**
   * A parsed skeleton has `num_dags` dags with their declared child counts
   * and its optional parts exactly as its flags say; serialising it
   * reproduces the input exactly when nothing was left over.
   */
  lemma HierarchicalSpriteDefReparse(s: Bytes)
    ensures var o := ParseHierarchicalSpriteDef(s);
      o.Done? ==> HierarchicalSpriteDefWellFormed(o.value) && (HierarchicalSpriteDefBytes(o.value) == s <==> o.rest == [])
  {
    var o := ParseHierarchicalSpriteDef(s);
    if o.Done? {
      HierarchicalSpriteDefCodec();
      SoundAt(ParseHierarchicalSpriteDef, HierarchicalSpriteDefBytes, HierarchicalSpriteDefWellFormed, s);
      ReencodeExact(ParseHierarchicalSpriteDef, HierarchicalSpriteDefBytes, HierarchicalSpriteDefWellFormed, s, []);
      assert HierarchicalSpriteDefBytes(o.value) + [] == HierarchicalSpriteDefBytes(o.value);
    }
  }
}
