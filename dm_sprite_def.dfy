/**
 * The DmSpriteDef fragment (type 0x2c): the older mesh layout, with f32
 * geometry, 16-byte faces, 12-byte mesh operations and five optional
 * sections selected by bits 9 and 11 to 14 of the flags. `into_bytes`
 * writes no padding.
 */
module DmSpriteDefFragment {
  import opened Wire
  import opened Strings
  import opened FragmentRefs

  /** Three f32 fields, kept as their bit patterns. */
  type Triple = (u32, u32, u32)

  /** Six f32 fields, kept as their bit patterns. */
  type Six = (u32, u32, u32, u32, u32, u32)

  const Data8Flag: u32 := 0x200
  const FaceMaterialGroupsFlag: u32 := 0x800
  const VertexMaterialGroupsFlag: u32 := 0x1000
  const Params2Flag: u32 := 0x2000
  const Params3Flag: u32 := 0x4000

  // ---- face entries: a flag word, four data words and three vertex indexes

  datatype FaceEntry = FaceEntry(flags: u16, data: (u16, u16, u16, u16), vertex_indexes: (u16, u16, u16))

  /** `DmSpriteDefFaceEntry::parse`. */
  function ParseFaceEntry(s: Bytes): (o: Outcome<FaceEntry>)
    ensures !o.Panic? && (o.Failure? <==> |s| < 16)
    ensures o.Done? ==> |o.rest| == |s| - 16 && s == FaceEntryBytes(o.value) + o.rest
  {
    var flags :- U16(s);
    var d1 :- Half2(flags.rest);
    var d2 :- Half2(d1.rest);
    var indexes :- Half3(d2.rest);
    Nest4(LeU16(flags.value), Half2Bytes(d1.value), Half2Bytes(d2.value), Half3Bytes(indexes.value), indexes.rest);
    Done(FaceEntry(flags.value, (d1.value.0, d1.value.1, d2.value.0, d2.value.1), indexes.value), indexes.rest)
  }

  /** `DmSpriteDefFaceEntry::into_bytes`. */
  function FaceEntryBytes(f: FaceEntry): (b: Bytes)
    ensures |b| == 16
  {
    LeU16(f.flags) + Half2Bytes((f.data.0, f.data.1)) + Half2Bytes((f.data.2, f.data.3)) + Half3Bytes(f.vertex_indexes)
  }

  lemma FaceEntryRoundTrip(f: FaceEntry, rest: Bytes)
    ensures ParseFaceEntry(FaceEntryBytes(f) + rest) == Done(f, rest)
  {
    var a, b := (f.data.0, f.data.1), (f.data.2, f.data.3);
    var t3 := Half3Bytes(f.vertex_indexes) + rest;
    var t2 := Half2Bytes(b) + t3;
    var t1 := Half2Bytes(a) + t2;
    Nest4(LeU16(f.flags), Half2Bytes(a), Half2Bytes(b), Half3Bytes(f.vertex_indexes), rest);
    U16RoundTrip(f.flags, t1);
    Half2RoundTrip(a, t2);
    Half2RoundTrip(b, t3);
    Half3RoundTrip(f.vertex_indexes, rest);
  }

  lemma FaceEntryCodec()
    ensures Complete(ParseFaceEntry, FaceEntryBytes, Any) && Sound(ParseFaceEntry, FaceEntryBytes, Any)
    ensures FixedWidth(ParseFaceEntry, 16)
  {
    forall f: FaceEntry, rest: Bytes ensures ParseFaceEntry(FaceEntryBytes(f) + rest) == Done(f, rest) {
      FaceEntryRoundTrip(f, rest);
    }
  }

  // ---- mesh operations: a type word, then either a vertex index or (for type 4) an offset

  datatype MeshOp = MeshOp(type_field: u32, vertex_index: Option<u32>, offset: Option<f32>, param1: u16, param2: u16)

  /** The operation type that carries an f32 offset rather than a vertex index. */
  const OffsetOperation: u32 := 4

  /** Exactly one of the vertex index and the offset, the offset for type 4. */
  predicate MeshOpWellFormed(m: MeshOp)
  {
    (m.offset.Some? <==> m.type_field == OffsetOperation) && (m.vertex_index.Some? <==> m.type_field != OffsetOperation)
  }

  /** `DmSpriteDefMeshopEntry::parse`. */
  function ParseMeshOp(s: Bytes): (o: Outcome<MeshOp>)
    ensures !o.Panic? && (o.Failure? <==> |s| < 12)
    ensures o.Done? ==> MeshOpWellFormed(o.value) && |o.rest| == |s| - 12 && s == MeshOpBytes(o.value) + o.rest
  {
    var kind :- U32(s);
    var word :- U32(kind.rest);
    var params :- Half2(word.rest);
    var m := if kind.value == OffsetOperation
      then MeshOp(kind.value, None, Some(word.value), params.value.0, params.value.1)
      else MeshOp(kind.value, Some(word.value), None, params.value.0, params.value.1);
    assert MeshOpBytes(m) == LeU32(kind.value) + LeU32(word.value) + Half2Bytes(params.value);
    Nest3(LeU32(kind.value), LeU32(word.value), Half2Bytes(params.value), params.rest);
    Done(m, params.rest)
  }

  /** `DmSpriteDefMeshopEntry::into_bytes`: the type, whichever of the index and the offset is present, the parameters. */
  function MeshOpBytes(m: MeshOp): (b: Bytes)
    ensures MeshOpWellFormed(m) ==> |b| == 12
  {
    LeU32(m.type_field) + OptBytes(LeU32, m.vertex_index) + OptBytes(LeU32, m.offset) + Half2Bytes((m.param1, m.param2))
  }

  lemma MeshOpRoundTrip(m: MeshOp, rest: Bytes)
    requires MeshOpWellFormed(m)
    ensures ParseMeshOp(MeshOpBytes(m) + rest) == Done(m, rest)
  {
    var w := if m.type_field == OffsetOperation then m.offset.value else m.vertex_index.value;
    var p := (m.param1, m.param2);
    assert MeshOpBytes(m) == LeU32(m.type_field) + LeU32(w) + Half2Bytes(p);
    Nest3(LeU32(m.type_field), LeU32(w), Half2Bytes(p), rest);
    U32RoundTrip(m.type_field, LeU32(w) + (Half2Bytes(p) + rest));
    U32RoundTrip(w, Half2Bytes(p) + rest);
    Half2RoundTrip(p, rest);
  }

  lemma MeshOpCodec()
    ensures Complete(ParseMeshOp, MeshOpBytes, MeshOpWellFormed) && Sound(ParseMeshOp, MeshOpBytes, MeshOpWellFormed)
    ensures FixedWidth(ParseMeshOp, 12)
  {
    forall m: MeshOp, rest: Bytes | MeshOpWellFormed(m) ensures ParseMeshOp(MeshOpBytes(m) + rest) == Done(m, rest) {
      MeshOpRoundTrip(m, rest);
    }
  }

  // ---- the header

  /** The header words between the flags and the material list reference, in the order they are stored. */
  datatype SpriteCounts = SpriteCounts(vertex_count: u32, texture_coordinate_count: u32, normal_count: u32,
                                       color_count: u32, face_count: u32, meshop_count: u16, fragment1: i16,
                                       skin_assignment_group_count: u32)

  function ParseSpriteCounts(s: Bytes): (o: Outcome<SpriteCounts>)
    ensures !o.Panic? && (o.Failure? <==> |s| < 28)
    ensures o.Done? ==> s == SpriteCountsBytes(o.value) + o.rest
  {
    var a :- Word4(s);
    var faces :- U32(a.rest);
    var ops :- U16(faces.rest);
    var f1 :- I16(ops.rest);
    var skin :- U32(f1.rest);
    Nest5(Word4Bytes(a.value), LeU32(faces.value), LeU16(ops.value), LeI16(f1.value), LeU32(skin.value), skin.rest);
    Done(SpriteCounts(a.value.0, a.value.1, a.value.2, a.value.3, faces.value, ops.value, f1.value, skin.value),
      skin.rest)
  }

  function SpriteCountsBytes(c: SpriteCounts): (b: Bytes)
    ensures |b| == 28
  {
    Word4Bytes((c.vertex_count, c.texture_coordinate_count, c.normal_count, c.color_count)) + LeU32(c.face_count) +
    LeU16(c.meshop_count) + LeI16(c.fragment1) + LeU32(c.skin_assignment_group_count)
  }

  lemma SpriteCountsRoundTrip(c: SpriteCounts, rest: Bytes)
    ensures ParseSpriteCounts(SpriteCountsBytes(c) + rest) == Done(c, rest)
  {
    var a := (c.vertex_count, c.texture_coordinate_count, c.normal_count, c.color_count);
    var t4 := LeU32(c.skin_assignment_group_count) + rest;
    var t3 := LeI16(c.fragment1) + t4;
    var t2 := LeU16(c.meshop_count) + t3;
    var t1 := LeU32(c.face_count) + t2;
    Nest5(Word4Bytes(a), LeU32(c.face_count), LeU16(c.meshop_count), LeI16(c.fragment1),
      LeU32(c.skin_assignment_group_count), rest);
    Word4RoundTrip(a, t1);
    U32RoundTrip(c.face_count, t2);
    U16RoundTrip(c.meshop_count, t3);
    I16RoundTrip(c.fragment1, t4);
    U32RoundTrip(c.skin_assignment_group_count, rest);
  }

  /** `material_list_ref`, `fragment3`, `center` and `params1`. */
  type Placement = (FragmentRef, u32, Triple, Triple)

  predicate PlacementWellFormed(x: Placement)
  {
    WellFormed(x.0)
  }

  function ParsePlacement(s: Bytes): (o: Outcome<Placement>)
    ensures !o.Panic? && (o.Failure? <==> |s| < 32)
    ensures o.Done? ==> PlacementWellFormed(o.value) && s == PlacementBytes(o.value) + o.rest
  {
    var r :- ParseFragmentRef(s);
    var f3 :- U32(r.rest);
    var center :- Word3(f3.rest);
    var params1 :- Word3(center.rest);
    FragmentRefBytesWord(r.value);
    Nest4(FragmentRefBytes(r.value), LeU32(f3.value), Word3Bytes(center.value), Word3Bytes(params1.value),
      params1.rest);
    Done((r.value, f3.value, center.value, params1.value), params1.rest)
  }

  function PlacementBytes(x: Placement): (b: Bytes)
    ensures |b| == 32
  {
    FragmentRefBytes(x.0) + LeU32(x.1) + Word3Bytes(x.2) + Word3Bytes(x.3)
  }

  lemma PlacementRoundTrip(x: Placement, rest: Bytes)
    requires PlacementWellFormed(x)
    ensures ParsePlacement(PlacementBytes(x) + rest) == Done(x, rest)
  {
    var t3 := Word3Bytes(x.3) + rest;
    var t2 := Word3Bytes(x.2) + t3;
    var t1 := LeU32(x.1) + t2;
    Nest4(FragmentRefBytes(x.0), LeU32(x.1), Word3Bytes(x.2), Word3Bytes(x.3), rest);
    FragmentRefRoundTrip(x.0, t1);
    U32RoundTrip(x.1, t2);
    Word3RoundTrip(x.2, t3);
    Word3RoundTrip(x.3, rest);
  }

  lemma HeaderCodecs()
    ensures Complete(ParseSpriteCounts, SpriteCountsBytes, Any) && Sound(ParseSpriteCounts, SpriteCountsBytes, Any)
    ensures Complete(ParsePlacement, PlacementBytes, PlacementWellFormed)
    ensures Sound(ParsePlacement, PlacementBytes, PlacementWellFormed)
  {
    forall c: SpriteCounts, rest: Bytes ensures ParseSpriteCounts(SpriteCountsBytes(c) + rest) == Done(c, rest) {
      SpriteCountsRoundTrip(c, rest);
    }
    forall x: Placement, rest: Bytes | PlacementWellFormed(x) ensures ParsePlacement(PlacementBytes(x) + rest) == Done(x, rest) {
      PlacementRoundTrip(x, rest);
    }
  }

  // ---- the geometry lists: vertices, texture coordinates, normals, colors and faces

  type Geometry = (seq<Triple>, seq<(u32, u32)>, seq<Triple>, seq<u32>, seq<FaceEntry>)

  function ParseGeometry(c: SpriteCounts, s: Bytes): (o: Outcome<Geometry>)
  {
    ParseGeometryWith(Word3, Word2, U32, ParseFaceEntry, c, s)
  }

  function ParseGeometryWith(triple: Bytes -> Outcome<Triple>, pair: Bytes -> Outcome<(u32, u32)>,
                             word: Bytes -> Outcome<u32>, face: Bytes -> Outcome<FaceEntry>, c: SpriteCounts,
                             s: Bytes): (o: Outcome<Geometry>)
  {
    var vertices :- Many(triple, c.vertex_count, s);
    var uvs :- Many(pair, c.texture_coordinate_count, vertices.rest);
    var normals :- Many(triple, c.normal_count, uvs.rest);
    var colors :- Many(word, c.color_count, normals.rest);
    var faces :- Many(face, c.face_count, colors.rest);
    Done((vertices.value, uvs.value, normals.value, colors.value, faces.value), faces.rest)
  }

  function GeometryBytes(x: Geometry): Bytes
  {
    Flat(Word3Bytes, x.0) + Flat(Word2Bytes, x.1) + Flat(Word3Bytes, x.2) + Flat(LeU32, x.3) + Flat(FaceEntryBytes, x.4)
  }

  predicate GeometryMatches(c: SpriteCounts, x: Geometry)
  {
    |x.0| == c.vertex_count && |x.1| == c.texture_coordinate_count && |x.2| == c.normal_count &&
    |x.3| == c.color_count && |x.4| == c.face_count
  }

  lemma GeometryRoundTripWith(triple: Bytes -> Outcome<Triple>, pair: Bytes -> Outcome<(u32, u32)>,
                              word: Bytes -> Outcome<u32>, face: Bytes -> Outcome<FaceEntry>, c: SpriteCounts,
                              x: Geometry, rest: Bytes)
    requires Complete(triple, Word3Bytes, Any) && Complete(pair, Word2Bytes, Any)
    requires Complete(word, LeU32, Any) && Complete(face, FaceEntryBytes, Any)
    requires GeometryMatches(c, x)
    ensures ParseGeometryWith(triple, pair, word, face, c, GeometryBytes(x) + rest) == Done(x, rest)
  {
    var t4 := Flat(FaceEntryBytes, x.4) + rest;
    var t3 := Flat(LeU32, x.3) + t4;
    var t2 := Flat(Word3Bytes, x.2) + t3;
    var t1 := Flat(Word2Bytes, x.1) + t2;
    Nest5(Flat(Word3Bytes, x.0), Flat(Word2Bytes, x.1), Flat(Word3Bytes, x.2), Flat(LeU32, x.3),
      Flat(FaceEntryBytes, x.4), rest);
    ManyRoundTrip(triple, Word3Bytes, Any, x.0, t1);
    ManyRoundTrip(pair, Word2Bytes, Any, x.1, t2);
    ManyRoundTrip(triple, Word3Bytes, Any, x.2, t3);
    ManyRoundTrip(word, LeU32, Any, x.3, t4);
    ManyRoundTrip(face, FaceEntryBytes, Any, x.4, rest);
  }

  lemma GeometrySoundWith(triple: Bytes -> Outcome<Triple>, pair: Bytes -> Outcome<(u32, u32)>,
                          word: Bytes -> Outcome<u32>, face: Bytes -> Outcome<FaceEntry>, c: SpriteCounts, s: Bytes)
    requires Sound(triple, Word3Bytes, Any) && Sound(pair, Word2Bytes, Any)
    requires Sound(word, LeU32, Any) && Sound(face, FaceEntryBytes, Any)
    ensures var o := ParseGeometryWith(triple, pair, word, face, c, s);
      o.Done? ==> GeometryMatches(c, o.value) && s == GeometryBytes(o.value) + o.rest
  {
    var o := ParseGeometryWith(triple, pair, word, face, c, s);
    if o.Done? {
      var vertices := Many(triple, c.vertex_count, s);
      var uvs := Many(pair, c.texture_coordinate_count, vertices.rest);
      var normals := Many(triple, c.normal_count, uvs.rest);
      var colors := Many(word, c.color_count, normals.rest);
      ManySound(triple, Word3Bytes, Any, c.vertex_count, s);
      ManySound(pair, Word2Bytes, Any, c.texture_coordinate_count, vertices.rest);
      ManySound(triple, Word3Bytes, Any, c.normal_count, uvs.rest);
      ManySound(word, LeU32, Any, c.color_count, normals.rest);
      ManySound(face, FaceEntryBytes, Any, c.face_count, colors.rest);
      Nest5(Flat(Word3Bytes, o.value.0), Flat(Word2Bytes, o.value.1), Flat(Word3Bytes, o.value.2),
        Flat(LeU32, o.value.3), Flat(FaceEntryBytes, o.value.4), o.rest);
    }
  }

  // ---- the mesh operations and the skin assignment groups

  type Operations = (seq<MeshOp>, seq<(u16, u16)>)

  function ParseOperations(c: SpriteCounts, s: Bytes): (o: Outcome<Operations>)
  {
    ParseOperationsWith(ParseMeshOp, Half2, c, s)
  }

  function ParseOperationsWith(meshop: Bytes -> Outcome<MeshOp>, half2: Bytes -> Outcome<(u16, u16)>,
                               c: SpriteCounts, s: Bytes): (o: Outcome<Operations>)
  {
    var ops :- Many(meshop, c.meshop_count, s);
    var skin :- Many(half2, c.skin_assignment_group_count, ops.rest);
    Done((ops.value, skin.value), skin.rest)
  }

  function OperationsBytes(x: Operations): Bytes
  {
    Flat(MeshOpBytes, x.0) + Flat(Half2Bytes, x.1)
  }

  predicate OperationsMatch(c: SpriteCounts, x: Operations)
  {
    |x.0| == c.meshop_count && |x.1| == c.skin_assignment_group_count && forall m :: m in x.0 ==> MeshOpWellFormed(m)
  }

  lemma OperationsRoundTripWith(meshop: Bytes -> Outcome<MeshOp>, half2: Bytes -> Outcome<(u16, u16)>,
                                c: SpriteCounts, x: Operations, rest: Bytes)
    requires Complete(meshop, MeshOpBytes, MeshOpWellFormed) && Complete(half2, Half2Bytes, Any)
    requires OperationsMatch(c, x)
    ensures ParseOperationsWith(meshop, half2, c, OperationsBytes(x) + rest) == Done(x, rest)
  {
    Nest2(Flat(MeshOpBytes, x.0), Flat(Half2Bytes, x.1), rest);
    ManyRoundTrip(meshop, MeshOpBytes, MeshOpWellFormed, x.0, Flat(Half2Bytes, x.1) + rest);
    ManyRoundTrip(half2, Half2Bytes, Any, x.1, rest);
  }

  lemma OperationsSoundWith(meshop: Bytes -> Outcome<MeshOp>, half2: Bytes -> Outcome<(u16, u16)>,
                            c: SpriteCounts, s: Bytes)
    requires Sound(meshop, MeshOpBytes, MeshOpWellFormed) && Sound(half2, Half2Bytes, Any)
    ensures var o := ParseOperationsWith(meshop, half2, c, s);
      o.Done? ==> OperationsMatch(c, o.value) && s == OperationsBytes(o.value) + o.rest
  {
    var o := ParseOperationsWith(meshop, half2, c, s);
    if o.Done? {
      var ops := Many(meshop, c.meshop_count, s);
      ManySound(meshop, MeshOpBytes, MeshOpWellFormed, c.meshop_count, s);
      ManySound(half2, Half2Bytes, Any, c.skin_assignment_group_count, ops.rest);
      Nest2(Flat(MeshOpBytes, o.value.0), Flat(Half2Bytes, o.value.1), o.rest);
    }
  }

  // ---- the sections bits 9 and 11 select: data8 and the face material groups, each after its count

  type Counted2 = (Option<u32>, Option<seq<u32>>, Option<u32>, Option<seq<(u16, u16)>>)

  function ParseDataAndFaceGroups(flags: u32, s: Bytes): (o: Outcome<Counted2>)
  {
    ParseDataAndFaceGroupsWith(U32, Half2, flags, s)
  }

  function ParseDataAndFaceGroupsWith(word: Bytes -> Outcome<u32>, half2: Bytes -> Outcome<(u16, u16)>, flags: u32,
                                      s: Bytes): (o: Outcome<Counted2>)
  {
    var size8 :- When(HasFlag(flags, Data8Flag), word, s);
    var data8 :- Counted(size8.value, word, size8.rest);
    var count :- When(HasFlag(flags, FaceMaterialGroupsFlag), word, data8.rest);
    var groups :- Counted(count.value, half2, count.rest);
    Done((size8.value, data8.value, count.value, groups.value), groups.rest)
  }

  function DataAndFaceGroupsBytes(x: Counted2): Bytes
  {
    OptBytes(LeU32, x.0) + OptFlat(LeU32, x.1) + OptBytes(LeU32, x.2) + OptFlat(Half2Bytes, x.3)
  }

  predicate DataAndFaceGroupsMatch(flags: u32, x: Counted2)
  {
    Gated(HasFlag(flags, Data8Flag), Any, x.0) && CountMatches(x.0, Any, x.1) &&
    Gated(HasFlag(flags, FaceMaterialGroupsFlag), Any, x.2) && CountMatches(x.2, Any, x.3)
  }

  lemma DataAndFaceGroupsRoundTripWith(word: Bytes -> Outcome<u32>, half2: Bytes -> Outcome<(u16, u16)>, flags: u32,
                                       x: Counted2, rest: Bytes)
    requires Complete(word, LeU32, Any) && Complete(half2, Half2Bytes, Any)
    requires DataAndFaceGroupsMatch(flags, x)
    ensures ParseDataAndFaceGroupsWith(word, half2, flags, DataAndFaceGroupsBytes(x) + rest) == Done(x, rest)
  {
    var t3 := OptFlat(Half2Bytes, x.3) + rest;
    var t2 := OptBytes(LeU32, x.2) + t3;
    var t1 := OptFlat(LeU32, x.1) + t2;
    Nest4(OptBytes(LeU32, x.0), OptFlat(LeU32, x.1), OptBytes(LeU32, x.2), OptFlat(Half2Bytes, x.3), rest);
    WhenRoundTrip(HasFlag(flags, Data8Flag), word, LeU32, Any, x.0, t1);
    CountedRoundTrip(x.0, word, LeU32, Any, x.1, t2);
    WhenRoundTrip(HasFlag(flags, FaceMaterialGroupsFlag), word, LeU32, Any, x.2, t3);
    CountedRoundTrip(x.2, half2, Half2Bytes, Any, x.3, rest);
  }

  lemma DataAndFaceGroupsSoundWith(word: Bytes -> Outcome<u32>, half2: Bytes -> Outcome<(u16, u16)>, flags: u32,
                                   s: Bytes)
    requires Sound(word, LeU32, Any) && Sound(half2, Half2Bytes, Any)
    ensures var o := ParseDataAndFaceGroupsWith(word, half2, flags, s);
      o.Done? ==> DataAndFaceGroupsMatch(flags, o.value) && s == DataAndFaceGroupsBytes(o.value) + o.rest
  {
    var o := ParseDataAndFaceGroupsWith(word, half2, flags, s);
    if o.Done? {
      var size8 := When(HasFlag(flags, Data8Flag), word, s);
      var data8 := Counted(size8.value, word, size8.rest);
      var count := When(HasFlag(flags, FaceMaterialGroupsFlag), word, data8.rest);
      WhenSound(HasFlag(flags, Data8Flag), word, LeU32, Any, s);
      CountedSound(size8.value, word, LeU32, Any, size8.rest);
      WhenSound(HasFlag(flags, FaceMaterialGroupsFlag), word, LeU32, Any, data8.rest);
      CountedSound(count.value, half2, Half2Bytes, Any, count.rest);
      Nest4(OptBytes(LeU32, o.value.0), OptFlat(LeU32, o.value.1), OptBytes(LeU32, o.value.2),
        OptFlat(Half2Bytes, o.value.3), o.rest);
    }
  }

  // ---- the sections bits 12 to 14 select: the vertex material groups after their count, params2 and params3

  function ParseSix(s: Bytes): (o: Outcome<Six>)
    ensures !o.Panic? && (o.Failure? <==> |s| < 24)
    ensures o.Done? ==> s == SixBytes(o.value) + o.rest
  {
    var a :- Word3(s);
    var b :- Word3(a.rest);
    Nest2(Word3Bytes(a.value), Word3Bytes(b.value), b.rest);
    Done((a.value.0, a.value.1, a.value.2, b.value.0, b.value.1, b.value.2), b.rest)
  }

  function SixBytes(x: Six): (b: Bytes)
    ensures |b| == 24
  {
    Word3Bytes((x.0, x.1, x.2)) + Word3Bytes((x.3, x.4, x.5))
  }

  lemma SixCodec()
    ensures Complete(ParseSix, SixBytes, Any) && Sound(ParseSix, SixBytes, Any)
  {
    forall x: Six, rest: Bytes ensures ParseSix(SixBytes(x) + rest) == Done(x, rest) {
      var a, b := (x.0, x.1, x.2), (x.3, x.4, x.5);
      Nest2(Word3Bytes(a), Word3Bytes(b), rest);
      Word3RoundTrip(a, Word3Bytes(b) + rest);
      Word3RoundTrip(b, rest);
    }
  }

  type Trailer = (Option<u32>, Option<seq<(u16, u16)>>, Option<Triple>, Option<Six>)

  function ParseTrailer(flags: u32, s: Bytes): (o: Outcome<Trailer>)
  {
    ParseTrailerWith(U32, Half2, Word3, ParseSix, flags, s)
  }

  function ParseTrailerWith(word: Bytes -> Outcome<u32>, half2: Bytes -> Outcome<(u16, u16)>,
                            triple: Bytes -> Outcome<Triple>, six: Bytes -> Outcome<Six>, flags: u32,
                            s: Bytes): (o: Outcome<Trailer>)
  {
    var count :- When(HasFlag(flags, VertexMaterialGroupsFlag), word, s);
    var groups :- Counted(count.value, half2, count.rest);
    var params2 :- When(HasFlag(flags, Params2Flag), triple, groups.rest);
    var params3 :- When(HasFlag(flags, Params3Flag), six, params2.rest);
    Done((count.value, groups.value, params2.value, params3.value), params3.rest)
  }

  function TrailerBytes(x: Trailer): Bytes
  {
    OptBytes(LeU32, x.0) + OptFlat(Half2Bytes, x.1) + OptBytes(Word3Bytes, x.2) + OptBytes(SixBytes, x.3)
  }

  predicate TrailerMatches(flags: u32, x: Trailer)
  {
    Gated(HasFlag(flags, VertexMaterialGroupsFlag), Any, x.0) && CountMatches(x.0, Any, x.1) &&
    Gated(HasFlag(flags, Params2Flag), Any, x.2) && Gated(HasFlag(flags, Params3Flag), Any, x.3)
  }

  lemma TrailerRoundTripWith(word: Bytes -> Outcome<u32>, half2: Bytes -> Outcome<(u16, u16)>,
                             triple: Bytes -> Outcome<Triple>, six: Bytes -> Outcome<Six>, flags: u32,
                             x: Trailer, rest: Bytes)
    requires Complete(word, LeU32, Any) && Complete(half2, Half2Bytes, Any)
    requires Complete(triple, Word3Bytes, Any) && Complete(six, SixBytes, Any)
    requires TrailerMatches(flags, x)
    ensures ParseTrailerWith(word, half2, triple, six, flags, TrailerBytes(x) + rest) == Done(x, rest)
  {
    var t3 := OptBytes(SixBytes, x.3) + rest;
    var t2 := OptBytes(Word3Bytes, x.2) + t3;
    var t1 := OptFlat(Half2Bytes, x.1) + t2;
    Nest4(OptBytes(LeU32, x.0), OptFlat(Half2Bytes, x.1), OptBytes(Word3Bytes, x.2), OptBytes(SixBytes, x.3), rest);
    WhenRoundTrip(HasFlag(flags, VertexMaterialGroupsFlag), word, LeU32, Any, x.0, t1);
    CountedRoundTrip(x.0, half2, Half2Bytes, Any, x.1, t2);
    WhenRoundTrip(HasFlag(flags, Params2Flag), triple, Word3Bytes, Any, x.2, t3);
    WhenRoundTrip(HasFlag(flags, Params3Flag), six, SixBytes, Any, x.3, rest);
  }

  lemma TrailerSoundWith(word: Bytes -> Outcome<u32>, half2: Bytes -> Outcome<(u16, u16)>,
                         triple: Bytes -> Outcome<Triple>, six: Bytes -> Outcome<Six>, flags: u32, s: Bytes)
    requires Sound(word, LeU32, Any) && Sound(half2, Half2Bytes, Any)
    requires Sound(triple, Word3Bytes, Any) && Sound(six, SixBytes, Any)
    ensures var o := ParseTrailerWith(word, half2, triple, six, flags, s);
      o.Done? ==> TrailerMatches(flags, o.value) && s == TrailerBytes(o.value) + o.rest
  {
    var o := ParseTrailerWith(word, half2, triple, six, flags, s);
    if o.Done? {
      var count := When(HasFlag(flags, VertexMaterialGroupsFlag), word, s);
      var groups := Counted(count.value, half2, count.rest);
      var params2 := When(HasFlag(flags, Params2Flag), triple, groups.rest);
      WhenSound(HasFlag(flags, VertexMaterialGroupsFlag), word, LeU32, Any, s);
      CountedSound(count.value, half2, Half2Bytes, Any, count.rest);
      WhenSound(HasFlag(flags, Params2Flag), triple, Word3Bytes, Any, groups.rest);
      WhenSound(HasFlag(flags, Params3Flag), six, SixBytes, Any, params2.rest);
      Nest4(OptBytes(LeU32, o.value.0), OptFlat(Half2Bytes, o.value.1), OptBytes(Word3Bytes, o.value.2),
        OptBytes(SixBytes, o.value.3), o.rest);
    }
  }

  lemma StagesCodec()
    ensures CompleteIn(ParseGeometry, GeometryBytes, GeometryMatches) && SoundIn(ParseGeometry, GeometryBytes, GeometryMatches)
    ensures CompleteIn(ParseOperations, OperationsBytes, OperationsMatch)
    ensures SoundIn(ParseOperations, OperationsBytes, OperationsMatch)
    ensures CompleteIn(ParseDataAndFaceGroups, DataAndFaceGroupsBytes, DataAndFaceGroupsMatch)
    ensures SoundIn(ParseDataAndFaceGroups, DataAndFaceGroupsBytes, DataAndFaceGroupsMatch)
    ensures CompleteIn(ParseTrailer, TrailerBytes, TrailerMatches) && SoundIn(ParseTrailer, TrailerBytes, TrailerMatches)
  {
    Word3Codec();
    Word2Codec();
    U32Codec();
    Half2Codec();
    FaceEntryCodec();
    MeshOpCodec();
    SixCodec();
    forall c: SpriteCounts, x: Geometry, rest: Bytes | GeometryMatches(c, x)
      ensures ParseGeometry(c, GeometryBytes(x) + rest) == Done(x, rest)
    {
      GeometryRoundTripWith(Word3, Word2, U32, ParseFaceEntry, c, x, rest);
    }
    forall c: SpriteCounts, s: Bytes ensures var o := ParseGeometry(c, s);
      o.Done? ==> GeometryMatches(c, o.value) && s == GeometryBytes(o.value) + o.rest
    {
      GeometrySoundWith(Word3, Word2, U32, ParseFaceEntry, c, s);
    }
    forall c: SpriteCounts, x: Operations, rest: Bytes | OperationsMatch(c, x)
      ensures ParseOperations(c, OperationsBytes(x) + rest) == Done(x, rest)
    {
      OperationsRoundTripWith(ParseMeshOp, Half2, c, x, rest);
    }
    forall c: SpriteCounts, s: Bytes ensures var o := ParseOperations(c, s);
      o.Done? ==> OperationsMatch(c, o.value) && s == OperationsBytes(o.value) + o.rest
    {
      OperationsSoundWith(ParseMeshOp, Half2, c, s);
    }
    forall f: u32, x: Counted2, rest: Bytes | DataAndFaceGroupsMatch(f, x)
      ensures ParseDataAndFaceGroups(f, DataAndFaceGroupsBytes(x) + rest) == Done(x, rest)
    {
      DataAndFaceGroupsRoundTripWith(U32, Half2, f, x, rest);
    }
    forall f: u32, s: Bytes ensures var o := ParseDataAndFaceGroups(f, s);
      o.Done? ==> DataAndFaceGroupsMatch(f, o.value) && s == DataAndFaceGroupsBytes(o.value) + o.rest
    {
      DataAndFaceGroupsSoundWith(U32, Half2, f, s);
    }
    forall f: u32, x: Trailer, rest: Bytes | TrailerMatches(f, x)
      ensures ParseTrailer(f, TrailerBytes(x) + rest) == Done(x, rest)
    {
      TrailerRoundTripWith(U32, Half2, Word3, ParseSix, f, x, rest);
    }
    forall f: u32, s: Bytes ensures var o := ParseTrailer(f, s);
      o.Done? ==> TrailerMatches(f, o.value) && s == TrailerBytes(o.value) + o.rest
    {
      TrailerSoundWith(U32, Half2, Word3, ParseSix, f, s);
    }
  }

  // ---- the fragment

  datatype DmSpriteDef = DmSpriteDef(
    name_reference: StringReference, flags: u32, counts: SpriteCounts,
    material_list_ref: FragmentRef, fragment3: u32, center: Triple, params1: Triple,
    vertices: seq<Triple>, texture_coordinates: seq<(u32, u32)>, vertex_normals: seq<Triple>, vertex_colors: seq<u32>,
    faces: seq<FaceEntry>, meshops: seq<MeshOp>, skin_assignment_groups: seq<(u16, u16)>,
    size8: Option<u32>, data8: Option<seq<u32>>,
    face_material_group_count: Option<u32>, face_material_groups: Option<seq<(u16, u16)>>,
    vertex_material_group_count: Option<u32>, vertex_material_groups: Option<seq<(u16, u16)>>,
    params2: Option<Triple>, params3: Option<Six>)

  function PlacementOf(d: DmSpriteDef): Placement
  {
    (d.material_list_ref, d.fragment3, d.center, d.params1)
  }

  function GeometryOf(d: DmSpriteDef): Geometry
  {
    (d.vertices, d.texture_coordinates, d.vertex_normals, d.vertex_colors, d.faces)
  }

  function OperationsOf(d: DmSpriteDef): Operations
  {
    (d.meshops, d.skin_assignment_groups)
  }

  function DataAndFaceGroupsOf(d: DmSpriteDef): Counted2
  {
    (d.size8, d.data8, d.face_material_group_count, d.face_material_groups)
  }

  function TrailerOf(d: DmSpriteDef): Trailer
  {
    (d.vertex_material_group_count, d.vertex_material_groups, d.params2, d.params3)
  }

  /** `DmSpriteDef::parse`. */
  function ParseDmSpriteDef(s: Bytes): (o: Outcome<DmSpriteDef>)
  {
    ParseDmSpriteDefWith(ParseStringReference, U32, ParseSpriteCounts, ParsePlacement, ParseGeometry, ParseOperations,
      ParseDataAndFaceGroups, ParseTrailer, s)
  }

  function ParseDmSpriteDefWith(name: Bytes -> Outcome<StringReference>, word: Bytes -> Outcome<u32>,
                                counts: Bytes -> Outcome<SpriteCounts>, placement: Bytes -> Outcome<Placement>,
                                geometry: (SpriteCounts, Bytes) -> Outcome<Geometry>,
                                operations: (SpriteCounts, Bytes) -> Outcome<Operations>,
                                sections: (u32, Bytes) -> Outcome<Counted2>, trailer: (u32, Bytes) -> Outcome<Trailer>,
                                s: Bytes): (o: Outcome<DmSpriteDef>)
  {
    var n :- name(s);
    var flags :- word(n.rest);
    var c :- counts(flags.rest);
    var p :- placement(c.rest);
    var g :- geometry(c.value, p.rest);
    var ops :- operations(c.value, g.rest);
    var a :- sections(flags.value, ops.rest);
    var t :- trailer(flags.value, a.rest);
    Done(DmSpriteDef(n.value, flags.value, c.value, p.value.0, p.value.1, p.value.2, p.value.3,
      g.value.0, g.value.1, g.value.2, g.value.3, g.value.4, ops.value.0, ops.value.1,
      a.value.0, a.value.1, a.value.2, a.value.3, t.value.0, t.value.1, t.value.2, t.value.3), t.rest)
  }

  /** `DmSpriteDef::into_bytes`: every field in parse order, with no padding. */
  function DmSpriteDefBytes(d: DmSpriteDef): Bytes
  {
    StringReferenceBytes(d.name_reference) + LeU32(d.flags) + SpriteCountsBytes(d.counts) +
    PlacementBytes(PlacementOf(d)) + GeometryBytes(GeometryOf(d)) + OperationsBytes(OperationsOf(d)) +
    DataAndFaceGroupsBytes(DataAndFaceGroupsOf(d)) + TrailerBytes(TrailerOf(d))
  }

  /**
   * The base lists are as long as their counts; size8 with data8, the face
   * material groups, the vertex material groups, params2 and params3 are
   * present exactly when flag bits 0x200, 0x800, 0x1000, 0x2000 and 0x4000
   * are set, each optional list as long as the count read before it.
   */
  predicate DmSpriteDefWellFormed(d: DmSpriteDef)
  {
    PlacementWellFormed(PlacementOf(d)) && GeometryMatches(d.counts, GeometryOf(d)) &&
    OperationsMatch(d.counts, OperationsOf(d)) && DataAndFaceGroupsMatch(d.flags, DataAndFaceGroupsOf(d)) &&
    TrailerMatches(d.flags, TrailerOf(d))
  }

  lemma DmSpriteDefRoundTripWith(name: Bytes -> Outcome<StringReference>, word: Bytes -> Outcome<u32>,
                                 counts: Bytes -> Outcome<SpriteCounts>, placement: Bytes -> Outcome<Placement>,
                                 geometry: (SpriteCounts, Bytes) -> Outcome<Geometry>,
                                 operations: (SpriteCounts, Bytes) -> Outcome<Operations>,
                                 sections: (u32, Bytes) -> Outcome<Counted2>, trailer: (u32, Bytes) -> Outcome<Trailer>,
                                 d: DmSpriteDef, rest: Bytes)
    requires Complete(name, StringReferenceBytes, Any) && Complete(word, LeU32, Any)
    requires Complete(counts, SpriteCountsBytes, Any) && Complete(placement, PlacementBytes, PlacementWellFormed)
    requires CompleteIn(geometry, GeometryBytes, GeometryMatches)
    requires CompleteIn(operations, OperationsBytes, OperationsMatch)
    requires CompleteIn(sections, DataAndFaceGroupsBytes, DataAndFaceGroupsMatch)
    requires CompleteIn(trailer, TrailerBytes, TrailerMatches)
    requires DmSpriteDefWellFormed(d)
    ensures ParseDmSpriteDefWith(name, word, counts, placement, geometry, operations, sections, trailer,
      DmSpriteDefBytes(d) + rest) == Done(d, rest)
  {
    var t7 := TrailerBytes(TrailerOf(d)) + rest;
    var t6 := DataAndFaceGroupsBytes(DataAndFaceGroupsOf(d)) + t7;
    var t5 := OperationsBytes(OperationsOf(d)) + t6;
    var t4 := GeometryBytes(GeometryOf(d)) + t5;
    var t3 := PlacementBytes(PlacementOf(d)) + t4;
    var t2 := SpriteCountsBytes(d.counts) + t3;
    var t1 := LeU32(d.flags) + t2;
    Nest8(StringReferenceBytes(d.name_reference), LeU32(d.flags), SpriteCountsBytes(d.counts),
      PlacementBytes(PlacementOf(d)), GeometryBytes(GeometryOf(d)), OperationsBytes(OperationsOf(d)),
      DataAndFaceGroupsBytes(DataAndFaceGroupsOf(d)), TrailerBytes(TrailerOf(d)), rest);
    CompleteAt(name, StringReferenceBytes, Any, d.name_reference, t1);
    CompleteAt(word, LeU32, Any, d.flags, t2);
    CompleteAt(counts, SpriteCountsBytes, Any, d.counts, t3);
    CompleteAt(placement, PlacementBytes, PlacementWellFormed, PlacementOf(d), t4);
    assert geometry(d.counts, GeometryBytes(GeometryOf(d)) + t5) == Done(GeometryOf(d), t5);
    assert operations(d.counts, OperationsBytes(OperationsOf(d)) + t6) == Done(OperationsOf(d), t6);
    assert sections(d.flags, DataAndFaceGroupsBytes(DataAndFaceGroupsOf(d)) + t7) == Done(DataAndFaceGroupsOf(d), t7);
    assert trailer(d.flags, TrailerBytes(TrailerOf(d)) + rest) == Done(TrailerOf(d), rest);
  }

  lemma DmSpriteDefExactWith(name: Bytes -> Outcome<StringReference>, word: Bytes -> Outcome<u32>,
                             counts: Bytes -> Outcome<SpriteCounts>, placement: Bytes -> Outcome<Placement>,
                             geometry: (SpriteCounts, Bytes) -> Outcome<Geometry>,
                             operations: (SpriteCounts, Bytes) -> Outcome<Operations>,
                             sections: (u32, Bytes) -> Outcome<Counted2>, trailer: (u32, Bytes) -> Outcome<Trailer>,
                             s: Bytes)
    requires Sound(name, StringReferenceBytes, Any) && Sound(word, LeU32, Any)
    requires Sound(counts, SpriteCountsBytes, Any) && Sound(placement, PlacementBytes, PlacementWellFormed)
    requires SoundIn(geometry, GeometryBytes, GeometryMatches)
    requires SoundIn(operations, OperationsBytes, OperationsMatch)
    requires SoundIn(sections, DataAndFaceGroupsBytes, DataAndFaceGroupsMatch)
    requires SoundIn(trailer, TrailerBytes, TrailerMatches)
    ensures var o := ParseDmSpriteDefWith(name, word, counts, placement, geometry, operations, sections, trailer, s);
      o.Done? ==> DmSpriteDefWellFormed(o.value) && s == DmSpriteDefBytes(o.value) + o.rest
  {
    var o := ParseDmSpriteDefWith(name, word, counts, placement, geometry, operations, sections, trailer, s);
    if o.Done? {
      var d := o.value;
      var n := name(s);
      var flags := word(n.rest);
      var c := counts(flags.rest);
      var p := placement(c.rest);
      var g := geometry(d.counts, p.rest);
      var ops := operations(d.counts, g.rest);
      var a := sections(d.flags, ops.rest);
      SoundAt(name, StringReferenceBytes, Any, s);
      SoundAt(word, LeU32, Any, n.rest);
      SoundAt(counts, SpriteCountsBytes, Any, flags.rest);
      SoundAt(placement, PlacementBytes, PlacementWellFormed, c.rest);
      assert PlacementOf(d) == p.value && GeometryOf(d) == g.value && OperationsOf(d) == ops.value;
      assert DataAndFaceGroupsOf(d) == a.value && TrailerOf(d) == trailer(d.flags, a.rest).value;
      assert GeometryMatches(d.counts, g.value) && p.rest == GeometryBytes(g.value) + g.rest;
      assert OperationsMatch(d.counts, ops.value) && g.rest == OperationsBytes(ops.value) + ops.rest;
      assert DataAndFaceGroupsMatch(d.flags, a.value) && ops.rest == DataAndFaceGroupsBytes(a.value) + a.rest;
      assert TrailerMatches(d.flags, TrailerOf(d)) && a.rest == TrailerBytes(TrailerOf(d)) + o.rest;
      Nest8(StringReferenceBytes(d.name_reference), LeU32(d.flags), SpriteCountsBytes(d.counts),
        PlacementBytes(PlacementOf(d)), GeometryBytes(GeometryOf(d)), OperationsBytes(OperationsOf(d)),
        DataAndFaceGroupsBytes(DataAndFaceGroupsOf(d)), TrailerBytes(TrailerOf(d)), o.rest);
    }
  }

  lemma DmSpriteDefCodec()
    ensures Complete(ParseDmSpriteDef, DmSpriteDefBytes, DmSpriteDefWellFormed)
    ensures Sound(ParseDmSpriteDef, DmSpriteDefBytes, DmSpriteDefWellFormed)
  {
    StringReferenceCodec();
    U32Codec();
    HeaderCodecs();
    StagesCodec();
    forall d: DmSpriteDef, rest: Bytes | DmSpriteDefWellFormed(d)
      ensures ParseDmSpriteDef(DmSpriteDefBytes(d) + rest) == Done(d, rest)
    {
      DmSpriteDefRoundTripWith(ParseStringReference, U32, ParseSpriteCounts, ParsePlacement, ParseGeometry,
        ParseOperations, ParseDataAndFaceGroups, ParseTrailer, d, rest);
    }
    forall s: Bytes ensures var o := ParseDmSpriteDef(s);
      o.Done? ==> DmSpriteDefWellFormed(o.value) && s == DmSpriteDefBytes(o.value) + o.rest
    {
      DmSpriteDefExactWith(ParseStringReference, U32, ParseSpriteCounts, ParsePlacement, ParseGeometry,
        ParseOperations, ParseDataAndFaceGroups, ParseTrailer, s);
    }
  }

  /** Parsing a serialised mesh gives it back and consumes exactly its bytes. */
  lemma DmSpriteDefRoundTrip(d: DmSpriteDef, rest: Bytes)
    requires DmSpriteDefWellFormed(d)
    ensures ParseDmSpriteDef(DmSpriteDefBytes(d) + rest) == Done(d, rest)
  {
    DmSpriteDefCodec();
    CompleteAt(ParseDmSpriteDef, DmSpriteDefBytes, DmSpriteDefWellFormed, d, rest);
  }

  /**
   * Whatever parses is well formed (every list as long as its count, every
   * optional section present exactly when its flag bit is set), and
   * serialising it reproduces the input exactly when nothing was left over.
   */
  lemma DmSpriteDefReparse(s: Bytes)
    ensures var o := ParseDmSpriteDef(s);
      o.Done? ==> DmSpriteDefWellFormed(o.value) && (DmSpriteDefBytes(o.value) == s <==> o.rest == [])
  {
    var o := ParseDmSpriteDef(s);
    if o.Done? {
      DmSpriteDefCodec();
      SoundAt(ParseDmSpriteDef, DmSpriteDefBytes, DmSpriteDefWellFormed, s);
      ReencodeExact(ParseDmSpriteDef, DmSpriteDefBytes, DmSpriteDefWellFormed, s, []);
      assert DmSpriteDefBytes(o.value) + [] == DmSpriteDefBytes(o.value);
    }
  }
}
