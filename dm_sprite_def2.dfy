/**
 * The DmSpriteDef2 fragment (type 0x36): a mesh with 16-bit fixed-point
 * positions, read as a 96-byte header of references, bounds and counts,
 * then nine counted lists; `to_bytes` pads only by the length of the last
 * list.
 */
module DmSpriteDef2Fragment {
  import opened Wire
  import opened Strings
  import opened FragmentRefs

  /** Three f32 fields, kept as their bit patterns. */
  type Triple = (u32, u32, u32)

  // ---- face entries: a flag word and three vertex indexes

  datatype FaceEntry2 = FaceEntry2(flags: u16, vertex_indexes: (u16, u16, u16))

  /** `DmSpriteDef2FaceEntry::parse`. */
  function ParseFaceEntry2(s: Bytes): (o: Outcome<FaceEntry2>)
    ensures !o.Panic? && (o.Failure? <==> |s| < 8)
    ensures o.Done? ==> |o.rest| == |s| - 8 && s == FaceEntry2Bytes(o.value) + o.rest
  {
    var flags :- U16(s);
    var indexes :- Half3(flags.rest);
    Nest2(LeU16(flags.value), Half3Bytes(indexes.value), indexes.rest);
    Done(FaceEntry2(flags.value, indexes.value), indexes.rest)
  }

  /** `DmSpriteDef2FaceEntry::to_bytes`. */
  function FaceEntry2Bytes(f: FaceEntry2): (b: Bytes)
    ensures |b| == 8
  {
    LeU16(f.flags) + Half3Bytes(f.vertex_indexes)
  }

  lemma FaceEntry2RoundTrip(f: FaceEntry2, rest: Bytes)
    ensures ParseFaceEntry2(FaceEntry2Bytes(f) + rest) == Done(f, rest)
  {
    Nest2(LeU16(f.flags), Half3Bytes(f.vertex_indexes), rest);
    U16RoundTrip(f.flags, Half3Bytes(f.vertex_indexes) + rest);
    Half3RoundTrip(f.vertex_indexes, rest);
  }

  lemma FaceEntry2Codec()
    ensures Complete(ParseFaceEntry2, FaceEntry2Bytes, Any) && Sound(ParseFaceEntry2, FaceEntry2Bytes, Any)
    ensures FixedWidth(ParseFaceEntry2, 8)
  {
    forall f: FaceEntry2, rest: Bytes ensures ParseFaceEntry2(FaceEntry2Bytes(f) + rest) == Done(f, rest) {
      FaceEntry2RoundTrip(f, rest);
    }
  }

  // ---- mesh operations: four bytes read either as two indexes or as one offset

  datatype MeshOp2 = MeshOp2(index1: Option<u16>, index2: Option<u16>, offset: Option<f32>, param1: byte,
                             type_field: byte)

  /** The operation type whose first four bytes are an f32 offset rather than two indexes. */
  const OffsetOperation: byte := 4

  /** An operation `parse` can produce: the offset exactly for type 4, both indexes exactly otherwise. */
  predicate MeshOp2WellFormed(m: MeshOp2)
  {
    (m.offset.Some? <==> m.type_field == OffsetOperation) &&
    (m.index1.Some? <==> m.type_field != OffsetOperation) &&
    (m.index2.Some? <==> m.type_field != OffsetOperation)
  }

  /**
   * `DmSpriteDef2MeshOpEntry::parse`. The first four bytes are sliced
   * without a length check, which panics on a shorter input; the parameter
   * and the type follow them, and decide how the four bytes are read.
   */
  function ParseMeshOp2(s: Bytes): (o: Outcome<MeshOp2>)
    ensures o.Panic? <==> |s| < 4
    ensures o.Failure? <==> 4 <= |s| < 6
    ensures o.Done? ==> MeshOp2WellFormed(o.value) && |o.rest| == |s| - 6
    ensures o.Done? ==> s == MeshOp2Bytes(o.value) + o.rest
  {
    if |s| < 4 then Panic
    else
      var unknown := s[..4];
      var param :- U8(s[4..]);
      var kind :- U8(param.rest);
      assert s == unknown + ([param.value] + ([kind.value] + kind.rest));
      if kind.value == OffsetOperation then
        var offset := U32(unknown).value;
        Done(MeshOp2(None, None, Some(offset), param.value, kind.value), kind.rest)
      else
        var index1 := U16(unknown);
        var index2 := U16(index1.rest);
        assert unknown == LeU16(index1.value) + LeU16(index2.value);
        Done(MeshOp2(Some(index1.value), Some(index2.value), None, param.value, kind.value), kind.rest)
  }

  /** `DmSpriteDef2MeshOpEntry::to_bytes`: whichever of the indexes and the offset are present, then the two bytes. */
  function MeshOp2Bytes(m: MeshOp2): (b: Bytes)
    ensures MeshOp2WellFormed(m) ==> |b| == 6
  {
    OptBytes(LeU16, m.index1) + OptBytes(LeU16, m.index2) + OptBytes(LeU32, m.offset) + [m.param1] + [m.type_field]
  }

  lemma MeshOp2RoundTrip(m: MeshOp2, rest: Bytes)
    requires MeshOp2WellFormed(m)
    ensures ParseMeshOp2(MeshOp2Bytes(m) + rest) == Done(m, rest)
  {
    var s := MeshOp2Bytes(m) + rest;
    var unknown := OptBytes(LeU16, m.index1) + OptBytes(LeU16, m.index2) + OptBytes(LeU32, m.offset);
    assert s == unknown + ([m.param1] + ([m.type_field] + rest));
    assert s[..4] == unknown && s[4..] == [m.param1] + ([m.type_field] + rest);
    U8RoundTrip(m.param1, [m.type_field] + rest);
    U8RoundTrip(m.type_field, rest);
    if m.type_field == OffsetOperation {
      U32RoundTrip(m.offset.value, []);
      assert unknown == LeU32(m.offset.value) + [];
    } else {
      U16RoundTrip(m.index1.value, LeU16(m.index2.value));
      U16RoundTrip(m.index2.value, []);
      assert unknown == LeU16(m.index1.value) + LeU16(m.index2.value);
      assert LeU16(m.index2.value) == LeU16(m.index2.value) + [];
    }
  }

  lemma MeshOp2Codec()
    ensures Complete(ParseMeshOp2, MeshOp2Bytes, MeshOp2WellFormed)
    ensures Sound(ParseMeshOp2, MeshOp2Bytes, MeshOp2WellFormed)
  {
    forall m: MeshOp2, rest: Bytes | MeshOp2WellFormed(m) ensures ParseMeshOp2(MeshOp2Bytes(m) + rest) == Done(m, rest) {
      MeshOp2RoundTrip(m, rest);
    }
  }

  // ---- the header: four references, the bounds and ten counts

  type Refs = (FragmentRef, FragmentRef, FragmentRef, FragmentRef)

  predicate RefsWellFormed(r: Refs)
  {
    WellFormed(r.0) && WellFormed(r.1) && WellFormed(r.2) && WellFormed(r.3)
  }

  /** The material list, animation, and two unnamed fragment references. */
  function ParseRefs(s: Bytes): (o: Outcome<Refs>)
    ensures !o.Panic? && (o.Failure? <==> |s| < 16)
    ensures o.Done? ==> RefsWellFormed(o.value) && s == RefsBytes(o.value) + o.rest
  {
    var a :- ParseFragmentRef(s);
    var b :- ParseFragmentRef(a.rest);
    var c :- ParseFragmentRef(b.rest);
    var d :- ParseFragmentRef(c.rest);
    var r := (a.value, b.value, c.value, d.value);
    FragmentRefBytesWord(a.value);
    FragmentRefBytesWord(b.value);
    FragmentRefBytesWord(c.value);
    FragmentRefBytesWord(d.value);
    Nest4(FragmentRefBytes(r.0), FragmentRefBytes(r.1), FragmentRefBytes(r.2), FragmentRefBytes(r.3), d.rest);
    Done(r, d.rest)
  }

  function RefsBytes(r: Refs): (b: Bytes)
    ensures |b| == 16
  {
    FragmentRefBytes(r.0) + FragmentRefBytes(r.1) + FragmentRefBytes(r.2) + FragmentRefBytes(r.3)
  }

  lemma RefsRoundTrip(r: Refs, rest: Bytes)
    requires RefsWellFormed(r)
    ensures ParseRefs(RefsBytes(r) + rest) == Done(r, rest)
  {
    var t3 := FragmentRefBytes(r.3) + rest;
    var t2 := FragmentRefBytes(r.2) + t3;
    var t1 := FragmentRefBytes(r.1) + t2;
    Nest4(FragmentRefBytes(r.0), FragmentRefBytes(r.1), FragmentRefBytes(r.2), FragmentRefBytes(r.3), rest);
    FragmentRefRoundTrip(r.0, t1);
    FragmentRefRoundTrip(r.1, t2);
    FragmentRefRoundTrip(r.2, t3);
    FragmentRefRoundTrip(r.3, rest);
  }

  /** `center`, `params2`, `max_distance`, `min` and `max`. */
  type Bounds = (Triple, Triple, u32, Triple, Triple)

  function ParseBounds(s: Bytes): (o: Outcome<Bounds>)
    ensures !o.Panic? && (o.Failure? <==> |s| < 52)
    ensures o.Done? ==> s == BoundsBytes(o.value) + o.rest
  {
    var center :- Word3(s);
    var params2 :- Word3(center.rest);
    var distance :- U32(params2.rest);
    var min :- Word3(distance.rest);
    var max :- Word3(min.rest);
    Nest5(Word3Bytes(center.value), Word3Bytes(params2.value), LeU32(distance.value), Word3Bytes(min.value),
      Word3Bytes(max.value), max.rest);
    Done((center.value, params2.value, distance.value, min.value, max.value), max.rest)
  }

  function BoundsBytes(x: Bounds): (b: Bytes)
    ensures |b| == 52
  {
    Word3Bytes(x.0) + Word3Bytes(x.1) + LeU32(x.2) + Word3Bytes(x.3) + Word3Bytes(x.4)
  }

  lemma BoundsRoundTrip(x: Bounds, rest: Bytes)
    ensures ParseBounds(BoundsBytes(x) + rest) == Done(x, rest)
  {
    var t4 := Word3Bytes(x.4) + rest;
    var t3 := Word3Bytes(x.3) + t4;
    var t2 := LeU32(x.2) + t3;
    var t1 := Word3Bytes(x.1) + t2;
    Nest5(Word3Bytes(x.0), Word3Bytes(x.1), LeU32(x.2), Word3Bytes(x.3), Word3Bytes(x.4), rest);
    Word3RoundTrip(x.0, t1);
    Word3RoundTrip(x.1, t2);
    U32RoundTrip(x.2, t3);
    Word3RoundTrip(x.3, t4);
    Word3RoundTrip(x.4, rest);
  }

  /** The ten u16 header fields, in the order they are stored. */
  datatype MeshCounts = MeshCounts(position_count: u16, texture_coordinate_count: u16, normal_count: u16,
                                   color_count: u16, face_count: u16, skin_assignment_groups_count: u16,
                                   face_material_groups_count: u16, vertex_material_groups_count: u16,
                                   meshop_count: u16, scale: u16)

  function ParseMeshCounts(s: Bytes): (o: Outcome<MeshCounts>)
    ensures !o.Panic? && (o.Failure? <==> |s| < 20)
    ensures o.Done? ==> s == MeshCountsBytes(o.value) + o.rest
  {
    var a :- Half2(s);
    var b :- Half2(a.rest);
    var c :- Half2(b.rest);
    var d :- Half2(c.rest);
    var e :- Half2(d.rest);
    Nest5(Half2Bytes(a.value), Half2Bytes(b.value), Half2Bytes(c.value), Half2Bytes(d.value), Half2Bytes(e.value),
      e.rest);
    Done(MeshCounts(a.value.0, a.value.1, b.value.0, b.value.1, c.value.0, c.value.1, d.value.0, d.value.1,
      e.value.0, e.value.1), e.rest)
  }

  function MeshCountsBytes(c: MeshCounts): (b: Bytes)
    ensures |b| == 20
  {
    Half2Bytes((c.position_count, c.texture_coordinate_count)) + Half2Bytes((c.normal_count, c.color_count)) +
    Half2Bytes((c.face_count, c.skin_assignment_groups_count)) +
    Half2Bytes((c.face_material_groups_count, c.vertex_material_groups_count)) +
    Half2Bytes((c.meshop_count, c.scale))
  }

  lemma MeshCountsRoundTrip(c: MeshCounts, rest: Bytes)
    ensures ParseMeshCounts(MeshCountsBytes(c) + rest) == Done(c, rest)
  {
    var a, b, d := (c.position_count, c.texture_coordinate_count), (c.normal_count, c.color_count),
      (c.face_count, c.skin_assignment_groups_count);
    var e, f := (c.face_material_groups_count, c.vertex_material_groups_count), (c.meshop_count, c.scale);
    var t4 := Half2Bytes(f) + rest;
    var t3 := Half2Bytes(e) + t4;
    var t2 := Half2Bytes(d) + t3;
    var t1 := Half2Bytes(b) + t2;
    Nest5(Half2Bytes(a), Half2Bytes(b), Half2Bytes(d), Half2Bytes(e), Half2Bytes(f), rest);
    Half2RoundTrip(a, t1);
    Half2RoundTrip(b, t2);
    Half2RoundTrip(d, t3);
    Half2RoundTrip(e, t4);
    Half2RoundTrip(f, rest);
  }

  lemma HeaderCodecs()
    ensures Complete(ParseRefs, RefsBytes, RefsWellFormed) && Sound(ParseRefs, RefsBytes, RefsWellFormed)
    ensures Complete(ParseBounds, BoundsBytes, Any) && Sound(ParseBounds, BoundsBytes, Any)
    ensures Complete(ParseMeshCounts, MeshCountsBytes, Any) && Sound(ParseMeshCounts, MeshCountsBytes, Any)
  {
    forall r: Refs, rest: Bytes | RefsWellFormed(r) ensures ParseRefs(RefsBytes(r) + rest) == Done(r, rest) {
      RefsRoundTrip(r, rest);
    }
    forall x: Bounds, rest: Bytes ensures ParseBounds(BoundsBytes(x) + rest) == Done(x, rest) {
      BoundsRoundTrip(x, rest);
    }
    forall c: MeshCounts, rest: Bytes ensures ParseMeshCounts(MeshCountsBytes(c) + rest) == Done(c, rest) {
      MeshCountsRoundTrip(c, rest);
    }
  }

  // ---- the geometry lists: positions, texture coordinates, normals, colors and faces

  type Geometry = (seq<(i16, i16, i16)>, seq<(i16, i16)>, seq<(i8, i8, i8)>, seq<u32>, seq<FaceEntry2>)

  function ParseGeometry(c: MeshCounts, s: Bytes): (o: Outcome<Geometry>)
  {
    ParseGeometryWith(Short3, Short2, Tiny3, U32, ParseFaceEntry2, c, s)
  }

  function ParseGeometryWith(short3: Bytes -> Outcome<(i16, i16, i16)>, short2: Bytes -> Outcome<(i16, i16)>,
                             tiny3: Bytes -> Outcome<(i8, i8, i8)>, word: Bytes -> Outcome<u32>,
                             face: Bytes -> Outcome<FaceEntry2>, c: MeshCounts, s: Bytes): (o: Outcome<Geometry>)
  {
    var positions :- Many(short3, c.position_count, s);
    var uvs :- Many(short2, c.texture_coordinate_count, positions.rest);
    var normals :- Many(tiny3, c.normal_count, uvs.rest);
    var colors :- Many(word, c.color_count, normals.rest);
    var faces :- Many(face, c.face_count, colors.rest);
    Done((positions.value, uvs.value, normals.value, colors.value, faces.value), faces.rest)
  }

  function GeometryBytes(x: Geometry): Bytes
  {
    Flat(Short3Bytes, x.0) + Flat(Short2Bytes, x.1) + Flat(Tiny3Bytes, x.2) + Flat(LeU32, x.3) +
    Flat(FaceEntry2Bytes, x.4)
  }

  predicate GeometryMatches(c: MeshCounts, x: Geometry)
  {
    |x.0| == c.position_count && |x.1| == c.texture_coordinate_count && |x.2| == c.normal_count &&
    |x.3| == c.color_count && |x.4| == c.face_count
  }

  lemma GeometryRoundTripWith(short3: Bytes -> Outcome<(i16, i16, i16)>, short2: Bytes -> Outcome<(i16, i16)>,
                              tiny3: Bytes -> Outcome<(i8, i8, i8)>, word: Bytes -> Outcome<u32>,
                              face: Bytes -> Outcome<FaceEntry2>, c: MeshCounts, x: Geometry, rest: Bytes)
    requires Complete(short3, Short3Bytes, Any) && Complete(short2, Short2Bytes, Any)
    requires Complete(tiny3, Tiny3Bytes, Any) && Complete(word, LeU32, Any) && Complete(face, FaceEntry2Bytes, Any)
    requires GeometryMatches(c, x)
    ensures ParseGeometryWith(short3, short2, tiny3, word, face, c, GeometryBytes(x) + rest) == Done(x, rest)
  {
    var t4 := Flat(FaceEntry2Bytes, x.4) + rest;
    var t3 := Flat(LeU32, x.3) + t4;
    var t2 := Flat(Tiny3Bytes, x.2) + t3;
    var t1 := Flat(Short2Bytes, x.1) + t2;
    Nest5(Flat(Short3Bytes, x.0), Flat(Short2Bytes, x.1), Flat(Tiny3Bytes, x.2), Flat(LeU32, x.3),
      Flat(FaceEntry2Bytes, x.4), rest);
    ManyRoundTrip(short3, Short3Bytes, Any, x.0, t1);
    ManyRoundTrip(short2, Short2Bytes, Any, x.1, t2);
    ManyRoundTrip(tiny3, Tiny3Bytes, Any, x.2, t3);
    ManyRoundTrip(word, LeU32, Any, x.3, t4);
    ManyRoundTrip(face, FaceEntry2Bytes, Any, x.4, rest);
  }

  lemma GeometrySoundWith(short3: Bytes -> Outcome<(i16, i16, i16)>, short2: Bytes -> Outcome<(i16, i16)>,
                          tiny3: Bytes -> Outcome<(i8, i8, i8)>, word: Bytes -> Outcome<u32>,
                          face: Bytes -> Outcome<FaceEntry2>, c: MeshCounts, s: Bytes)
    requires Sound(short3, Short3Bytes, Any) && Sound(short2, Short2Bytes, Any)
    requires Sound(tiny3, Tiny3Bytes, Any) && Sound(word, LeU32, Any) && Sound(face, FaceEntry2Bytes, Any)
    ensures var o := ParseGeometryWith(short3, short2, tiny3, word, face, c, s);
      o.Done? ==> GeometryMatches(c, o.value) && s == GeometryBytes(o.value) + o.rest
  {
    var o := ParseGeometryWith(short3, short2, tiny3, word, face, c, s);
    if o.Done? {
      var positions := Many(short3, c.position_count, s);
      var uvs := Many(short2, c.texture_coordinate_count, positions.rest);
      var normals := Many(tiny3, c.normal_count, uvs.rest);
      var colors := Many(word, c.color_count, normals.rest);
      ManySound(short3, Short3Bytes, Any, c.position_count, s);
      ManySound(short2, Short2Bytes, Any, c.texture_coordinate_count, positions.rest);
      ManySound(tiny3, Tiny3Bytes, Any, c.normal_count, uvs.rest);
      ManySound(word, LeU32, Any, c.color_count, normals.rest);
      ManySound(face, FaceEntry2Bytes, Any, c.face_count, colors.rest);
      Nest5(Flat(Short3Bytes, o.value.0), Flat(Short2Bytes, o.value.1), Flat(Tiny3Bytes, o.value.2),
        Flat(LeU32, o.value.3), Flat(FaceEntry2Bytes, o.value.4), o.rest);
    }
  }

  // ---- the group lists and the mesh operations

  type Groups = (seq<(u16, u16)>, seq<(u16, u16)>, seq<(u16, u16)>, seq<MeshOp2>)

  function ParseGroups(c: MeshCounts, s: Bytes): (o: Outcome<Groups>)
  {
    ParseGroupsWith(Half2, ParseMeshOp2, c, s)
  }

  function ParseGroupsWith(half2: Bytes -> Outcome<(u16, u16)>, meshop: Bytes -> Outcome<MeshOp2>,
                           c: MeshCounts, s: Bytes): (o: Outcome<Groups>)
  {
    var skin :- Many(half2, c.skin_assignment_groups_count, s);
    var faceGroups :- Many(half2, c.face_material_groups_count, skin.rest);
    var vertexGroups :- Many(half2, c.vertex_material_groups_count, faceGroups.rest);
    var ops :- Many(meshop, c.meshop_count, vertexGroups.rest);
    Done((skin.value, faceGroups.value, vertexGroups.value, ops.value), ops.rest)
  }

  function GroupsBytes(x: Groups): Bytes
  {
    Flat(Half2Bytes, x.0) + Flat(Half2Bytes, x.1) + Flat(Half2Bytes, x.2) + Flat(MeshOp2Bytes, x.3)
  }

  predicate GroupsMatch(c: MeshCounts, x: Groups)
  {
    |x.0| == c.skin_assignment_groups_count && |x.1| == c.face_material_groups_count &&
    |x.2| == c.vertex_material_groups_count && |x.3| == c.meshop_count &&
    forall m :: m in x.3 ==> MeshOp2WellFormed(m)
  }

  lemma GroupsRoundTripWith(half2: Bytes -> Outcome<(u16, u16)>, meshop: Bytes -> Outcome<MeshOp2>,
                            c: MeshCounts, x: Groups, rest: Bytes)
    requires Complete(half2, Half2Bytes, Any) && Complete(meshop, MeshOp2Bytes, MeshOp2WellFormed)
    requires GroupsMatch(c, x)
    ensures ParseGroupsWith(half2, meshop, c, GroupsBytes(x) + rest) == Done(x, rest)
  {
    var t3 := Flat(MeshOp2Bytes, x.3) + rest;
    var t2 := Flat(Half2Bytes, x.2) + t3;
    var t1 := Flat(Half2Bytes, x.1) + t2;
    Nest4(Flat(Half2Bytes, x.0), Flat(Half2Bytes, x.1), Flat(Half2Bytes, x.2), Flat(MeshOp2Bytes, x.3), rest);
    ManyRoundTrip(half2, Half2Bytes, Any, x.0, t1);
    ManyRoundTrip(half2, Half2Bytes, Any, x.1, t2);
    ManyRoundTrip(half2, Half2Bytes, Any, x.2, t3);
    ManyRoundTrip(meshop, MeshOp2Bytes, MeshOp2WellFormed, x.3, rest);
  }

  lemma GroupsSoundWith(half2: Bytes -> Outcome<(u16, u16)>, meshop: Bytes -> Outcome<MeshOp2>,
                        c: MeshCounts, s: Bytes)
    requires Sound(half2, Half2Bytes, Any) && Sound(meshop, MeshOp2Bytes, MeshOp2WellFormed)
    ensures var o := ParseGroupsWith(half2, meshop, c, s);
      o.Done? ==> GroupsMatch(c, o.value) && s == GroupsBytes(o.value) + o.rest
  {
    var o := ParseGroupsWith(half2, meshop, c, s);
    if o.Done? {
      var skin := Many(half2, c.skin_assignment_groups_count, s);
      var faceGroups := Many(half2, c.face_material_groups_count, skin.rest);
      var vertexGroups := Many(half2, c.vertex_material_groups_count, faceGroups.rest);
      ManySound(half2, Half2Bytes, Any, c.skin_assignment_groups_count, s);
      ManySound(half2, Half2Bytes, Any, c.face_material_groups_count, skin.rest);
      ManySound(half2, Half2Bytes, Any, c.vertex_material_groups_count, faceGroups.rest);
      ManySound(meshop, MeshOp2Bytes, MeshOp2WellFormed, c.meshop_count, vertexGroups.rest);
      Nest4(Flat(Half2Bytes, o.value.0), Flat(Half2Bytes, o.value.1), Flat(Half2Bytes, o.value.2),
        Flat(MeshOp2Bytes, o.value.3), o.rest);
    }
  }

  lemma ListsCodec()
    ensures CompleteIn(ParseGeometry, GeometryBytes, GeometryMatches) && SoundIn(ParseGeometry, GeometryBytes, GeometryMatches)
    ensures CompleteIn(ParseGroups, GroupsBytes, GroupsMatch) && SoundIn(ParseGroups, GroupsBytes, GroupsMatch)
  {
    Short3Codec();
    Short2Codec();
    Tiny3Codec();
    U32Codec();
    FaceEntry2Codec();
    Half2Codec();
    MeshOp2Codec();
    forall c: MeshCounts, x: Geometry, rest: Bytes | GeometryMatches(c, x)
      ensures ParseGeometry(c, GeometryBytes(x) + rest) == Done(x, rest)
    {
      GeometryRoundTripWith(Short3, Short2, Tiny3, U32, ParseFaceEntry2, c, x, rest);
    }
    forall c: MeshCounts, s: Bytes ensures var o := ParseGeometry(c, s);
      o.Done? ==> GeometryMatches(c, o.value) && s == GeometryBytes(o.value) + o.rest
    {
      GeometrySoundWith(Short3, Short2, Tiny3, U32, ParseFaceEntry2, c, s);
    }
    forall c: MeshCounts, x: Groups, rest: Bytes | GroupsMatch(c, x)
      ensures ParseGroups(c, GroupsBytes(x) + rest) == Done(x, rest)
    {
      GroupsRoundTripWith(Half2, ParseMeshOp2, c, x, rest);
    }
    forall c: MeshCounts, s: Bytes ensures var o := ParseGroups(c, s);
      o.Done? ==> GroupsMatch(c, o.value) && s == GroupsBytes(o.value) + o.rest
    {
      GroupsSoundWith(Half2, ParseMeshOp2, c, s);
    }
  }

  // ---- the fragment

  datatype DmSpriteDef2 = DmSpriteDef2(
    name_reference: StringReference, flags: u32,
    material_list_ref: FragmentRef, animation_ref: FragmentRef, fragment3: FragmentRef, fragment4: FragmentRef,
    center: Triple, params2: Triple, max_distance: f32, min: Triple, max: Triple,
    counts: MeshCounts,
    positions: seq<(i16, i16, i16)>, texture_coordinates: seq<(i16, i16)>, vertex_normals: seq<(i8, i8, i8)>,
    vertex_colors: seq<u32>, faces: seq<FaceEntry2>,
    skin_assignment_groups: seq<(u16, u16)>, face_material_groups: seq<(u16, u16)>,
    vertex_material_groups: seq<(u16, u16)>, meshops: seq<MeshOp2>)

  function RefsOf(d: DmSpriteDef2): Refs
  {
    (d.material_list_ref, d.animation_ref, d.fragment3, d.fragment4)
  }

  function BoundsOf(d: DmSpriteDef2): Bounds
  {
    (d.center, d.params2, d.max_distance, d.min, d.max)
  }

  function GeometryOf(d: DmSpriteDef2): Geometry
  {
    (d.positions, d.texture_coordinates, d.vertex_normals, d.vertex_colors, d.faces)
  }

  function GroupsOf(d: DmSpriteDef2): Groups
  {
    (d.skin_assignment_groups, d.face_material_groups, d.vertex_material_groups, d.meshops)
  }

  /** `DmSpriteDef2::parse`; the trailing zeros after the mesh operations are not read. */
  function ParseDmSpriteDef2(s: Bytes): (o: Outcome<DmSpriteDef2>)
  {
    ParseDmSpriteDef2With(ParseStringReference, U32, ParseRefs, ParseBounds, ParseMeshCounts, ParseGeometry,
      ParseGroups, s)
  }

  function ParseDmSpriteDef2With(name: Bytes -> Outcome<StringReference>, word: Bytes -> Outcome<u32>,
                                 refs: Bytes -> Outcome<Refs>, bounds: Bytes -> Outcome<Bounds>,
                                 counts: Bytes -> Outcome<MeshCounts>,
                                 geometry: (MeshCounts, Bytes) -> Outcome<Geometry>,
                                 groups: (MeshCounts, Bytes) -> Outcome<Groups>, s: Bytes): (o: Outcome<DmSpriteDef2>)
  {
    var n :- name(s);
    var flags :- word(n.rest);
    var r :- refs(flags.rest);
    var b :- bounds(r.rest);
    var c :- counts(b.rest);
    var g :- geometry(c.value, c.rest);
    var x :- groups(c.value, g.rest);
    Done(DmSpriteDef2(n.value, flags.value, r.value.0, r.value.1, r.value.2, r.value.3,
      b.value.0, b.value.1, b.value.2, b.value.3, b.value.4, c.value,
      g.value.0, g.value.1, g.value.2, g.value.3, g.value.4, x.value.0, x.value.1, x.value.2, x.value.3),
      x.rest)
  }

  /** The fields `to_bytes` concatenates, before its padding. */
  function DmSpriteDef2Fields(d: DmSpriteDef2): Bytes
  {
    StringReferenceBytes(d.name_reference) + LeU32(d.flags) + RefsBytes(RefsOf(d)) + BoundsBytes(BoundsOf(d)) +
    MeshCountsBytes(d.counts) + GeometryBytes(GeometryOf(d)) + GroupsBytes(GroupsOf(d))
  }

  /** The padding `to_bytes` appends: computed from the length of the mesh operations alone. */
  function MeshOpPadding(d: DmSpriteDef2): (p: nat)
    ensures p < 4
  {
    Pad4(|Flat(MeshOp2Bytes, d.meshops)|)
  }

  /** `DmSpriteDef2::to_bytes`. */
  function DmSpriteDef2Bytes(d: DmSpriteDef2): Bytes
  {
    DmSpriteDef2Fields(d) + Zeros(MeshOpPadding(d))
  }

  /** Every list has the length its header count announces, and every reference and operation is well formed. */
  predicate DmSpriteDef2WellFormed(d: DmSpriteDef2)
  {
    RefsWellFormed(RefsOf(d)) && GeometryMatches(d.counts, GeometryOf(d)) && GroupsMatch(d.counts, GroupsOf(d))
  }

  lemma DmSpriteDef2RoundTripWith(name: Bytes -> Outcome<StringReference>, word: Bytes -> Outcome<u32>,
                                  refs: Bytes -> Outcome<Refs>, bounds: Bytes -> Outcome<Bounds>,
                                  counts: Bytes -> Outcome<MeshCounts>,
                                  geometry: (MeshCounts, Bytes) -> Outcome<Geometry>,
                                  groups: (MeshCounts, Bytes) -> Outcome<Groups>, d: DmSpriteDef2, rest: Bytes)
    requires Complete(name, StringReferenceBytes, Any) && Complete(word, LeU32, Any)
    requires Complete(refs, RefsBytes, RefsWellFormed) && Complete(bounds, BoundsBytes, Any)
    requires Complete(counts, MeshCountsBytes, Any)
    requires CompleteIn(geometry, GeometryBytes, GeometryMatches) && CompleteIn(groups, GroupsBytes, GroupsMatch)
    requires DmSpriteDef2WellFormed(d)
    ensures ParseDmSpriteDef2With(name, word, refs, bounds, counts, geometry, groups, DmSpriteDef2Fields(d) + rest)
      == Done(d, rest)
  {
    var t6 := GroupsBytes(GroupsOf(d)) + rest;
    var t5 := GeometryBytes(GeometryOf(d)) + t6;
    var t4 := MeshCountsBytes(d.counts) + t5;
    var t3 := BoundsBytes(BoundsOf(d)) + t4;
    var t2 := RefsBytes(RefsOf(d)) + t3;
    var t1 := LeU32(d.flags) + t2;
    Nest7(StringReferenceBytes(d.name_reference), LeU32(d.flags), RefsBytes(RefsOf(d)), BoundsBytes(BoundsOf(d)),
      MeshCountsBytes(d.counts), GeometryBytes(GeometryOf(d)), GroupsBytes(GroupsOf(d)), rest);
    CompleteAt(name, StringReferenceBytes, Any, d.name_reference, t1);
    CompleteAt(word, LeU32, Any, d.flags, t2);
    CompleteAt(refs, RefsBytes, RefsWellFormed, RefsOf(d), t3);
    CompleteAt(bounds, BoundsBytes, Any, BoundsOf(d), t4);
    CompleteAt(counts, MeshCountsBytes, Any, d.counts, t5);
    assert geometry(d.counts, GeometryBytes(GeometryOf(d)) + t6) == Done(GeometryOf(d), t6);
    assert groups(d.counts, GroupsBytes(GroupsOf(d)) + rest) == Done(GroupsOf(d), rest);
  }

  lemma DmSpriteDef2ExactWith(name: Bytes -> Outcome<StringReference>, word: Bytes -> Outcome<u32>,
                              refs: Bytes -> Outcome<Refs>, bounds: Bytes -> Outcome<Bounds>,
                              counts: Bytes -> Outcome<MeshCounts>,
                              geometry: (MeshCounts, Bytes) -> Outcome<Geometry>,
                              groups: (MeshCounts, Bytes) -> Outcome<Groups>, s: Bytes)
    requires Sound(name, StringReferenceBytes, Any) && Sound(word, LeU32, Any)
    requires Sound(refs, RefsBytes, RefsWellFormed) && Sound(bounds, BoundsBytes, Any)
    requires Sound(counts, MeshCountsBytes, Any)
    requires SoundIn(geometry, GeometryBytes, GeometryMatches) && SoundIn(groups, GroupsBytes, GroupsMatch)
    ensures var o := ParseDmSpriteDef2With(name, word, refs, bounds, counts, geometry, groups, s);
      o.Done? ==> DmSpriteDef2WellFormed(o.value) && s == DmSpriteDef2Fields(o.value) + o.rest
  {
    var o := ParseDmSpriteDef2With(name, word, refs, bounds, counts, geometry, groups, s);
    if o.Done? {
      var d := o.value;
      var n := name(s);
      var flags := word(n.rest);
      var r := refs(flags.rest);
      var b := bounds(r.rest);
      var c := counts(b.rest);
      var g := geometry(d.counts, c.rest);
      SoundAt(name, StringReferenceBytes, Any, s);
      SoundAt(word, LeU32, Any, n.rest);
      SoundAt(refs, RefsBytes, RefsWellFormed, flags.rest);
      SoundAt(bounds, BoundsBytes, Any, r.rest);
      SoundAt(counts, MeshCountsBytes, Any, b.rest);
      assert RefsOf(d) == r.value && BoundsOf(d) == b.value;
      assert GeometryOf(d) == g.value && GroupsOf(d) == groups(d.counts, g.rest).value;
      assert GeometryMatches(d.counts, g.value) && c.rest == GeometryBytes(g.value) + g.rest;
      assert GroupsMatch(d.counts, GroupsOf(d)) && g.rest == GroupsBytes(GroupsOf(d)) + o.rest;
      Nest7(StringReferenceBytes(d.name_reference), LeU32(d.flags), RefsBytes(RefsOf(d)), BoundsBytes(BoundsOf(d)),
        MeshCountsBytes(d.counts), GeometryBytes(GeometryOf(d)), GroupsBytes(GroupsOf(d)), o.rest);
    }
  }

  lemma DmSpriteDef2Codec()
    ensures Complete(ParseDmSpriteDef2, DmSpriteDef2Fields, DmSpriteDef2WellFormed)
    ensures Sound(ParseDmSpriteDef2, DmSpriteDef2Fields, DmSpriteDef2WellFormed)
  {
    StringReferenceCodec();
    U32Codec();
    HeaderCodecs();
    ListsCodec();
    forall d: DmSpriteDef2, rest: Bytes | DmSpriteDef2WellFormed(d)
      ensures ParseDmSpriteDef2(DmSpriteDef2Fields(d) + rest) == Done(d, rest)
    {
      DmSpriteDef2RoundTripWith(ParseStringReference, U32, ParseRefs, ParseBounds, ParseMeshCounts, ParseGeometry,
        ParseGroups, d, rest);
    }
    forall s: Bytes ensures var o := ParseDmSpriteDef2(s);
      o.Done? ==> DmSpriteDef2WellFormed(o.value) && s == DmSpriteDef2Fields(o.value) + o.rest
    {
      DmSpriteDef2ExactWith(ParseStringReference, U32, ParseRefs, ParseBounds, ParseMeshCounts, ParseGeometry,
        ParseGroups, s);
    }
  }

  /** Parsing a serialised mesh gives it back, with the padding left over. */
  lemma DmSpriteDef2RoundTrip(d: DmSpriteDef2, rest: Bytes)
    requires DmSpriteDef2WellFormed(d)
    ensures ParseDmSpriteDef2(DmSpriteDef2Bytes(d) + rest) == Done(d, Zeros(MeshOpPadding(d)) + rest)
  {
    DmSpriteDef2Codec();
    CompleteThen(ParseDmSpriteDef2, DmSpriteDef2Fields, DmSpriteDef2WellFormed, d, Zeros(MeshOpPadding(d)), rest);
  }

  /** Whatever parses is well formed (every list as long as its count), and its fields are the bytes consumed. */
  lemma DmSpriteDef2Exact(s: Bytes)
    ensures var o := ParseDmSpriteDef2(s);
      o.Done? ==> DmSpriteDef2WellFormed(o.value) && s == DmSpriteDef2Fields(o.value) + o.rest
  {
    DmSpriteDef2Codec();
    if ParseDmSpriteDef2(s).Done? {
      SoundAt(ParseDmSpriteDef2, DmSpriteDef2Fields, DmSpriteDef2WellFormed, s);
    }
  }

  /** Serialising a parsed mesh reproduces the input exactly when the bytes left over are its padding. */
  lemma DmSpriteDef2Reparse(s: Bytes)
    ensures var o := ParseDmSpriteDef2(s);
      o.Done? ==> (DmSpriteDef2Bytes(o.value) == s <==> o.rest == Zeros(MeshOpPadding(o.value)))
  {
    var o := ParseDmSpriteDef2(s);
    if o.Done? {
      DmSpriteDef2Codec();
      ReencodeExact(ParseDmSpriteDef2, DmSpriteDef2Fields, DmSpriteDef2WellFormed, s, Zeros(MeshOpPadding(o.value)));
    }
  }

  // ---- lengths

  lemma {:induction false} MeshOpsLength(ops: seq<MeshOp2>)
    requires forall m :: m in ops ==> MeshOp2WellFormed(m)
    ensures |Flat(MeshOp2Bytes, ops)| == 6 * |ops|
    decreases |ops|
  {
    if ops != [] {
      assert ops[0] in ops;
      assert forall m :: m in ops[1..] ==> m in ops;
      MeshOpsLength(ops[1..]);
    }
  }

  /** The padding is two zeros after an odd number of mesh operations and none after an even number. */
  lemma MeshOpPaddingParity(d: DmSpriteDef2)
    requires DmSpriteDef2WellFormed(d)
    ensures MeshOpPadding(d) == if |d.meshops| % 2 == 0 then 0 else 2
  {
    MeshOpsLength(d.meshops);
  }

  lemma GeometryLength(x: Geometry)
    ensures |GeometryBytes(x)| == 6 * |x.0| + 4 * |x.1| + 3 * |x.2| + 4 * |x.3| + 8 * |x.4|
  {
    FlatLength(Short3Bytes, 6, x.0);
    FlatLength(Short2Bytes, 4, x.1);
    FlatLength(Tiny3Bytes, 3, x.2);
    FlatLength(LeU32, 4, x.3);
    FlatLength(FaceEntry2Bytes, 8, x.4);
  }

  lemma GroupsLength(x: Groups)
    requires forall m :: m in x.3 ==> MeshOp2WellFormed(m)
    ensures |GroupsBytes(x)| == 4 * (|x.0| + |x.1| + |x.2|) + 6 * |x.3|
  {
    FlatLength(Half2Bytes, 4, x.0);
    FlatLength(Half2Bytes, 4, x.1);
    FlatLength(Half2Bytes, 4, x.2);
    MeshOpsLength(x.3);
  }

  /** Adding a multiple of 4 leaves the remainder modulo 4 unchanged. */
  lemma ModFour(k: int, x: int)
    ensures (4 * k + x) % 4 == x % 4
  {
  }

  /**
   * Because the padding counts only the mesh operations, the serialised
   * length is a multiple of 4 only when twice the number of positions plus
   * three times the number of normals is: the 6-byte positions and 3-byte
   * normals are the only other entries whose width is not a multiple of 4.
   */
  lemma DmSpriteDef2Alignment(d: DmSpriteDef2)
    requires DmSpriteDef2WellFormed(d)
    ensures |DmSpriteDef2Bytes(d)| % 4 == (2 * |d.positions| + 3 * |d.vertex_normals|) % 4
  {
    var g, x := GeometryOf(d), GroupsOf(d);
    GeometryLength(g);
    GroupsLength(x);
    MeshOpPaddingParity(d);
    var p, q, r := |d.positions|, |d.vertex_normals|, |d.meshops|;
    var h, e := r / 2, r % 2;
    assert MeshOpPadding(d) == 2 * e;
    var k := 24 + p + |g.1| + |g.3| + 2 * |g.4| + |x.0| + |x.1| + |x.2| + 3 * h + 2 * e;
    assert |DmSpriteDef2Bytes(d)| == 96 + |GeometryBytes(g)| + |GroupsBytes(x)| + MeshOpPadding(d);
    assert |DmSpriteDef2Bytes(d)| == 4 * k + (2 * p + 3 * q);
    ModFour(k, 2 * p + 3 * q);
  }
}
