/**
 * The Region fragment (type 0x22): one region of a zone's BSP tree, with
 * its vertices, walls, obstacles and visibility data, and optional
 * fields announced by bits of its flag word. Records are read
 * field by field; every list is preceded (somewhere earlier) by its count.
 *
 * Each record parser is written over the parsers of its fields, so its
 * round trip is proved once from their codec facts and then instantiated.
 */
module RegionFragment {
  import opened Wire
  import opened Strings
  import opened FragmentRefs
  import opened RenderInfoRecord

  type Quad = (u32, u32, u32, u32)

  // ---- Wall

  /** Read by `has_floor` only: it selects no field. */
  const WallFloorFlag: u32 := 0x01
  const WallMethodAndNormalFlag: u32 := 0x02

  datatype Wall = Wall(
    flags: u32,
    num_vertices: u32,
    vertex_list: seq<u32>,
    render_method: Option<u32>,
    render_info: Option<RenderInfo>,
    normal_abcd: Option<Quad>)

  /** `Wall::parse`. */
  function ParseWall(s: Bytes): (o: Outcome<Wall>)
  {
    ParseWallWith(U32, ParseRenderInfo, Word4, s)
  }

  function ParseWallWith(word: Bytes -> Outcome<u32>, info: Bytes -> Outcome<RenderInfo>,
                         quad: Bytes -> Outcome<Quad>, s: Bytes): (o: Outcome<Wall>)
    ensures o.Done? ==> |o.value.vertex_list| == o.value.num_vertices
    ensures o.Done? ==> var c := HasFlag(o.value.flags, WallMethodAndNormalFlag);
      (o.value.render_method.Some? <==> c) && (o.value.render_info.Some? <==> c) &&
      (o.value.normal_abcd.Some? <==> c)
  {
    var flags :- word(s);
    var n :- word(flags.rest);
    var vertices :- Many(word, n.value, n.rest);
    var c := HasFlag(flags.value, WallMethodAndNormalFlag);
    var renderMethod :- When(c, word, vertices.rest);
    var renderInfo :- When(c, info, renderMethod.rest);
    var normal :- When(c, quad, renderInfo.rest);
    Done(Wall(flags.value, n.value, vertices.value, renderMethod.value, renderInfo.value, normal.value), normal.rest)
  }

  /** `Wall::to_bytes`. */
  function WallBytes(w: Wall): Bytes
  {
    LeU32(w.flags) + LeU32(w.num_vertices) + Flat(LeU32, w.vertex_list) +
    OptBytes(LeU32, w.render_method) + OptBytes(RenderInfoBytes, w.render_info) +
    OptBytes(Word4Bytes, w.normal_abcd)
  }

  /**
   * The vertex count matches the list, and the render method, render info
   * and normal are all present exactly when bit 0x02 is set.
   */
  predicate WallWellFormed(w: Wall)
  {
    var c := HasFlag(w.flags, WallMethodAndNormalFlag);
    |w.vertex_list| == w.num_vertices &&
    Gated(c, Any, w.render_method) && Gated(c, RenderInfoWellFormed, w.render_info) &&
    Gated(c, Any, w.normal_abcd)
  }

  lemma WallRoundTripWith(word: Bytes -> Outcome<u32>, info: Bytes -> Outcome<RenderInfo>,
                          quad: Bytes -> Outcome<Quad>, w: Wall, rest: Bytes)
    requires Complete(word, LeU32, Any) && Complete(info, RenderInfoBytes, RenderInfoWellFormed)
    requires Complete(quad, Word4Bytes, Any)
    requires WallWellFormed(w)
    ensures ParseWallWith(word, info, quad, WallBytes(w) + rest) == Done(w, rest)
  {
    var c := HasFlag(w.flags, WallMethodAndNormalFlag);
    var t5 := OptBytes(Word4Bytes, w.normal_abcd) + rest;
    var t4 := OptBytes(RenderInfoBytes, w.render_info) + t5;
    var t3 := OptBytes(LeU32, w.render_method) + t4;
    var t2 := Flat(LeU32, w.vertex_list) + t3;
    var t1 := LeU32(w.num_vertices) + t2;
    Nest6(LeU32(w.flags), LeU32(w.num_vertices), Flat(LeU32, w.vertex_list),
      OptBytes(LeU32, w.render_method), OptBytes(RenderInfoBytes, w.render_info),
      OptBytes(Word4Bytes, w.normal_abcd), rest);
    CompleteAt(word, LeU32, Any, w.flags, t1);
    CompleteAt(word, LeU32, Any, w.num_vertices, t2);
    ManyRoundTrip(word, LeU32, Any, w.vertex_list, t3);
    WhenRoundTrip(c, word, LeU32, Any, w.render_method, t4);
    WhenRoundTrip(c, info, RenderInfoBytes, RenderInfoWellFormed, w.render_info, t5);
    WhenRoundTrip(c, quad, Word4Bytes, Any, w.normal_abcd, rest);
  }

  lemma WallExactWith(word: Bytes -> Outcome<u32>, info: Bytes -> Outcome<RenderInfo>,
                      quad: Bytes -> Outcome<Quad>, s: Bytes)
    requires Sound(word, LeU32, Any) && Sound(info, RenderInfoBytes, RenderInfoWellFormed)
    requires Sound(quad, Word4Bytes, Any)
    ensures var o := ParseWallWith(word, info, quad, s);
      o.Done? ==> WallWellFormed(o.value) && s == WallBytes(o.value) + o.rest
  {
    var o := ParseWallWith(word, info, quad, s);
    if o.Done? {
      var w := o.value;
      var c := HasFlag(w.flags, WallMethodAndNormalFlag);
      var flags := word(s);
      var n := word(flags.rest);
      var vertices := Many(word, w.num_vertices, n.rest);
      var renderMethod := When(c, word, vertices.rest);
      var renderInfo := When(c, info, renderMethod.rest);
      SoundAt(word, LeU32, Any, s);
      SoundAt(word, LeU32, Any, flags.rest);
      ManySound(word, LeU32, Any, w.num_vertices, n.rest);
      WhenSound(c, word, LeU32, Any, vertices.rest);
      WhenSound(c, info, RenderInfoBytes, RenderInfoWellFormed, renderMethod.rest);
      WhenSound(c, quad, Word4Bytes, Any, renderInfo.rest);
      Nest6(LeU32(w.flags), LeU32(w.num_vertices), Flat(LeU32, w.vertex_list),
        OptBytes(LeU32, w.render_method), OptBytes(RenderInfoBytes, w.render_info),
        OptBytes(Word4Bytes, w.normal_abcd), o.rest);
    }
  }

  lemma WallCodec()
    ensures Complete(ParseWall, WallBytes, WallWellFormed) && Sound(ParseWall, WallBytes, WallWellFormed)
  {
    U32Codec();
    RenderInfoCodec();
    Word4Codec();
    forall w: Wall, rest: Bytes | WallWellFormed(w) ensures ParseWall(WallBytes(w) + rest) == Done(w, rest) {
      WallRoundTripWith(U32, ParseRenderInfo, Word4, w, rest);
    }
    forall s: Bytes ensures var o := ParseWall(s); o.Done? ==> WallWellFormed(o.value) && s == WallBytes(o.value) + o.rest {
      WallExactWith(U32, ParseRenderInfo, Word4, s);
    }
  }

  // ---- VisNode: a BSP node of the region's visibility tree, 28 bytes

  datatype VisNode = VisNode(normal_abcd: Quad, vis_list_index: u32, front_tree: u32, back_tree: u32)

  /** `VisNode::parse`: a fixed-width record of seven words. */
  function ParseVisNode(s: Bytes): (o: Outcome<VisNode>)
    ensures !o.Panic? && (o.Failure? <==> |s| < 28)
    ensures o.Done? ==> |o.rest| == |s| - 28 && s == VisNodeBytes(o.value) + o.rest
  {
    var n :- Word4(s);
    var links :- Word3(n.rest);
    var v := VisNode(n.value, links.value.0, links.value.1, links.value.2);
    Nest2(Word4Bytes(n.value), Word3Bytes(links.value), links.rest);
    Done(v, links.rest)
  }

  /** `VisNode::to_bytes`. */
  function VisNodeBytes(v: VisNode): (b: Bytes)
    ensures |b| == 28
  {
    Word4Bytes(v.normal_abcd) + Word3Bytes((v.vis_list_index, v.front_tree, v.back_tree))
  }

  lemma VisNodeRoundTrip(v: VisNode, rest: Bytes)
    ensures ParseVisNode(VisNodeBytes(v) + rest) == Done(v, rest)
  {
    var links := (v.vis_list_index, v.front_tree, v.back_tree);
    Nest2(Word4Bytes(v.normal_abcd), Word3Bytes(links), rest);
    Word4RoundTrip(v.normal_abcd, Word3Bytes(links) + rest);
    Word3RoundTrip(links, rest);
  }

  lemma VisNodeCodec()
    ensures Complete(ParseVisNode, VisNodeBytes, Any) && Sound(ParseVisNode, VisNodeBytes, Any)
    ensures FixedWidth(ParseVisNode, 28)
  {
    forall v: VisNode, rest: Bytes ensures ParseVisNode(VisNodeBytes(v) + rest) == Done(v, rest) {
      VisNodeRoundTrip(v, rest);
    }
  }

  // ---- VisibleList: a run-length-encoded list of nearby regions

  datatype RangeEntry = Byte(b: byte) | Word(w: u16)

  datatype VisibleList = VisibleList(range_count: u16, ranges: seq<RangeEntry>)

  /** `RangeEntry::to_bytes`. */
  function RangeEntryBytes(r: RangeEntry): (b: Bytes)
    ensures |b| == if r.Byte? then 1 else 2
  {
    match r
    case Byte(x) => [x]
    case Word(x) => LeU16(x)
  }

  function ParseByteEntry(s: Bytes): (o: Outcome<RangeEntry>)
  {
    var x :- U8(s);
    Done(Byte(x.value), x.rest)
  }

  function ParseWordEntry(s: Bytes): (o: Outcome<RangeEntry>)
  {
    var x :- U16(s);
    Done(Word(x.value), x.rest)
  }

  predicate IsByteEntry(r: RangeEntry) { r.Byte? }

  predicate IsWordEntry(r: RangeEntry) { r.Word? }

  /** The entry reader region flag 0x80 selects, and the entries it admits. */
  function EntryParser(byteEntries: bool): Bytes -> Outcome<RangeEntry>
  {
    if byteEntries then ParseByteEntry else ParseWordEntry
  }

  function EntryKind(byteEntries: bool): RangeEntry -> bool
  {
    if byteEntries then IsByteEntry else IsWordEntry
  }

  lemma EntryCodec(byteEntries: bool)
    ensures Complete(EntryParser(byteEntries), RangeEntryBytes, EntryKind(byteEntries))
    ensures Sound(EntryParser(byteEntries), RangeEntryBytes, EntryKind(byteEntries))
    ensures FixedWidth(EntryParser(byteEntries), if byteEntries then 1 else 2)
  {
    if byteEntries {
      forall r: RangeEntry, rest: Bytes | r.Byte? ensures ParseByteEntry(RangeEntryBytes(r) + rest) == Done(r, rest) {
        U8RoundTrip(r.b, rest);
      }
    } else {
      forall r: RangeEntry, rest: Bytes | r.Word? ensures ParseWordEntry(RangeEntryBytes(r) + rest) == Done(r, rest) {
        U16RoundTrip(r.w, rest);
      }
    }
  }

  lemma EntriesOfKind(xs: seq<RangeEntry>, byteEntries: bool)
    requires forall x :: x in xs ==> EntryKind(byteEntries)(x)
    ensures forall i :: 0 <= i < |xs| ==> xs[i].Byte? == byteEntries
  {
    forall i | 0 <= i < |xs| ensures xs[i].Byte? == byteEntries {
      assert EntryKind(byteEntries)(xs[i]);
    }
  }

  /**
   * `VisibleList::parse`: a u16 count and that many entries, each one byte
   * when region flag 0x80 is set and a little-endian u16 otherwise.
   */
  function ParseVisibleList(s: Bytes, byteEntries: bool): (o: Outcome<VisibleList>)
    ensures o.Done? ==> |o.value.ranges| == o.value.range_count
  {
    var n :- U16(s);
    var entries :- Many(EntryParser(byteEntries), n.value, n.rest);
    Done(VisibleList(n.value, entries.value), entries.rest)
  }

  /** `VisibleList::parse_with_bytes`. */
  function ParseVisibleListWithBytes(s: Bytes): (o: Outcome<VisibleList>)
  {
    ParseVisibleList(s, true)
  }

  /** `VisibleList::parse_with_words`. */
  function ParseVisibleListWithWords(s: Bytes): (o: Outcome<VisibleList>)
  {
    ParseVisibleList(s, false)
  }

  /** `VisibleList::to_bytes`. */
  function VisibleListBytes(v: VisibleList): Bytes
  {
    LeU16(v.range_count) + Flat(RangeEntryBytes, v.ranges)
  }

  /** The count matches the entries, and every entry has the width the region's flag selects. */
  predicate VisibleListWellFormed(v: VisibleList, byteEntries: bool)
  {
    |v.ranges| == v.range_count && forall i :: 0 <= i < |v.ranges| ==> v.ranges[i].Byte? == byteEntries
  }

  predicate ByteListWellFormed(v: VisibleList) { VisibleListWellFormed(v, true) }

  predicate WordListWellFormed(v: VisibleList) { VisibleListWellFormed(v, false) }

  lemma VisibleListRoundTrip(v: VisibleList, byteEntries: bool, rest: Bytes)
    requires VisibleListWellFormed(v, byteEntries)
    ensures ParseVisibleList(VisibleListBytes(v) + rest, byteEntries) == Done(v, rest)
  {
    var t := Flat(RangeEntryBytes, v.ranges) + rest;
    assert VisibleListBytes(v) + rest == LeU16(v.range_count) + t;
    U16RoundTrip(v.range_count, t);
    EntryCodec(byteEntries);
    ManyRoundTrip(EntryParser(byteEntries), RangeEntryBytes, EntryKind(byteEntries), v.ranges, rest);
  }

  /**
   * Reading a visible list never panics, needs `2 + w * range_count` bytes
   * for entries of width `w`, and what it reads is well formed and
   * re-encodes to exactly the bytes consumed.
   */
  lemma VisibleListSound(s: Bytes, byteEntries: bool)
    ensures var o := ParseVisibleList(s, byteEntries);
      !o.Panic? &&
      (o.Failure? <==> |s| < 2 || |s| - 2 < (if byteEntries then 1 else 2) * U16(s).value) &&
      (o.Done? ==> VisibleListWellFormed(o.value, byteEntries) && s == VisibleListBytes(o.value) + o.rest)
  {
    if |s| >= 2 {
      var n := U16(s);
      EntryCodec(byteEntries);
      ManyFixedWidth(EntryParser(byteEntries), if byteEntries then 1 else 2, n.value, n.rest);
      ManySound(EntryParser(byteEntries), RangeEntryBytes, EntryKind(byteEntries), n.value, n.rest);
      var o := ParseVisibleList(s, byteEntries);
      if o.Done? {
        EntriesOfKind(o.value.ranges, byteEntries);
        Nest2(LeU16(n.value), Flat(RangeEntryBytes, o.value.ranges), o.rest);
      }
    }
  }

  lemma VisibleListCodecs()
    ensures Complete(ParseVisibleListWithBytes, VisibleListBytes, ByteListWellFormed)
    ensures Sound(ParseVisibleListWithBytes, VisibleListBytes, ByteListWellFormed)
    ensures Complete(ParseVisibleListWithWords, VisibleListBytes, WordListWellFormed)
    ensures Sound(ParseVisibleListWithWords, VisibleListBytes, WordListWellFormed)
  {
    forall v: VisibleList, rest: Bytes | ByteListWellFormed(v)
      ensures ParseVisibleListWithBytes(VisibleListBytes(v) + rest) == Done(v, rest)
    {
      VisibleListRoundTrip(v, true, rest);
    }
    forall v: VisibleList, rest: Bytes | WordListWellFormed(v)
      ensures ParseVisibleListWithWords(VisibleListBytes(v) + rest) == Done(v, rest)
    {
      VisibleListRoundTrip(v, false, rest);
    }
    forall s: Bytes ensures var o := ParseVisibleListWithBytes(s);
      o.Done? ==> ByteListWellFormed(o.value) && s == VisibleListBytes(o.value) + o.rest
    {
      VisibleListSound(s, true);
    }
    forall s: Bytes ensures var o := ParseVisibleListWithWords(s);
      o.Done? ==> WordListWellFormed(o.value) && s == VisibleListBytes(o.value) + o.rest
    {
      VisibleListSound(s, false);
    }
  }

  // ---- Obstacle

  datatype ObstacleType =
    | XyVertex | XyzVertex | XyLine | XyEdge | XyzEdge | Plane | EdgePolygon | EdgeWall
    | EdgePolygonNormalAbcd

  /** The discriminant `ObstacleType::to_bytes` writes. */
  function ObstacleTypeCode(t: ObstacleType): i32
  {
    match t
    case XyVertex => 8
    case XyzVertex => 9
    case XyLine => 10
    case XyEdge => 11
    case XyzEdge => 12
    case Plane => 13
    case EdgePolygon => 14
    case EdgeWall => 18
    case EdgePolygonNormalAbcd => -15
  }

  /** `FromPrimitive::from_i32`: defined on the nine declared discriminants only. */
  function ObstacleTypeFromI32(c: i32): (r: Option<ObstacleType>)
    ensures r.Some? <==> (8 <= c <= 14 || c == 18 || c == -15)
    ensures r.Some? ==> ObstacleTypeCode(r.value) == c
  {
    match c
    case 8 => Some(XyVertex)
    case 9 => Some(XyzVertex)
    case 10 => Some(XyLine)
    case 11 => Some(XyEdge)
    case 12 => Some(XyzEdge)
    case 13 => Some(Plane)
    case 14 => Some(EdgePolygon)
    case 18 => Some(EdgeWall)
    case -15 => Some(EdgePolygonNormalAbcd)
    case _ => Option.None
  }

  lemma ObstacleTypeDecodes(t: ObstacleType)
    ensures ObstacleTypeFromI32(ObstacleTypeCode(t)) == Some(t)
  {
  }

  /** Read by `is_floor` and `is_geometry_cutting` only: they select no field. */
  const ObstacleFloorFlag: u32 := 0x01
  const ObstacleCuttingFlag: u32 := 0x02
  const ObstacleUserDataFlag: u32 := 0x04

  datatype Obstacle = Obstacle(
    flags: u32,
    next_region: i32,
    obstacle_type: ObstacleType,
    num_vertices: Option<u32>,
    vertex_list: Option<seq<u32>>,
    normal_abcd: Option<Quad>,
    edge_wall: Option<u32>,
    user_data_size: Option<u32>,
    user_data: Option<Bytes>)

  /** The two edge-polygon kinds carry a vertex list. */
  predicate HasVertexList(t: ObstacleType)
  {
    t == EdgePolygon || t == EdgePolygonNormalAbcd
  }

  /**
   * The fields present are those the type and flag 0x04 select, and each
   * counted list has the length read before it.
   */
  predicate ObstacleWellFormed(o: Obstacle)
  {
    Gated(HasVertexList(o.obstacle_type), Any, o.num_vertices) &&
    CountMatches(o.num_vertices, Any, o.vertex_list) &&
    Gated(o.obstacle_type == EdgePolygonNormalAbcd, Any, o.normal_abcd) &&
    Gated(o.obstacle_type == EdgeWall, Any, o.edge_wall) &&
    Gated(HasFlag(o.flags, ObstacleUserDataFlag), Any, o.user_data_size) &&
    CountMatches(o.user_data_size, Any, o.user_data)
  }

  type Shape = (Option<u32>, Option<seq<u32>>, Option<Quad>, Option<u32>)

  /** The fields the obstacle type selects: vertex count and list, normal, edge wall. */
  function ParseShapeWith(word: Bytes -> Outcome<u32>, quad: Bytes -> Outcome<Quad>, t: ObstacleType,
                          s: Bytes): (o: Outcome<Shape>)
  {
    var n :- When(HasVertexList(t), word, s);
    var vertices :- Counted(n.value, word, n.rest);
    var normal :- When(t == EdgePolygonNormalAbcd, quad, vertices.rest);
    var edge :- When(t == EdgeWall, word, normal.rest);
    Done((n.value, vertices.value, normal.value, edge.value), edge.rest)
  }

  function ShapeBytes(x: Shape): Bytes
  {
    OptBytes(LeU32, x.0) + OptFlat(LeU32, x.1) + OptBytes(Word4Bytes, x.2) + OptBytes(LeU32, x.3)
  }

  function ShapeOf(o: Obstacle): Shape
  {
    (o.num_vertices, o.vertex_list, o.normal_abcd, o.edge_wall)
  }

  function ParseUserDataWith(word: Bytes -> Outcome<u32>, c: bool, s: Bytes): (o: Outcome<(Option<u32>, Option<Bytes>)>)
  {
    var size :- When(c, word, s);
    var data :- TakeWhen(size.value, size.rest);
    Done((size.value, data.value), data.rest)
  }

  function UserDataBytes(x: (Option<u32>, Option<Bytes>)): Bytes
  {
    OptBytes(LeU32, x.0) + OptBytes(Raw, x.1)
  }

  /**
   * `Obstacle::parse`. The type word is converted with `from_i32(..).unwrap()`,
   * so a word that is not one of the nine discriminants panics.
   */
  function ParseObstacle(s: Bytes): (o: Outcome<Obstacle>)
  {
    ParseObstacleWith(U32, I32, Word4, s)
  }

  function ParseObstacleWith(word: Bytes -> Outcome<u32>, int32: Bytes -> Outcome<i32>,
                             quad: Bytes -> Outcome<Quad>, s: Bytes): (o: Outcome<Obstacle>)
    ensures o.Done? ==> ObstacleWellFormed(o.value)
  {
    var flags :- word(s);
    var next :- int32(flags.rest);
    var code :- int32(next.rest);
    match ObstacleTypeFromI32(code.value)
    case None => Panic
    case Some(t) =>
      var shape :- ParseShapeWith(word, quad, t, code.rest);
      var data :- ParseUserDataWith(word, HasFlag(flags.value, ObstacleUserDataFlag), shape.rest);
      var (n, vertices, normal, edge) := shape.value;
      Done(Obstacle(flags.value, next.value, t, n, vertices, normal, edge, data.value.0, data.value.1), data.rest)
  }

  /** `Obstacle::to_bytes`. */
  function ObstacleBytes(o: Obstacle): Bytes
  {
    LeU32(o.flags) + LeI32(o.next_region) + LeI32(ObstacleTypeCode(o.obstacle_type)) +
    OptBytes(LeU32, o.num_vertices) + OptFlat(LeU32, o.vertex_list) +
    OptBytes(Word4Bytes, o.normal_abcd) + OptBytes(LeU32, o.edge_wall) +
    OptBytes(LeU32, o.user_data_size) + OptBytes(Raw, o.user_data)
  }

  lemma ObstacleLayout(o: Obstacle, rest: Bytes)
    ensures ObstacleBytes(o) + rest ==
      LeU32(o.flags) + (LeI32(o.next_region) + (LeI32(ObstacleTypeCode(o.obstacle_type)) +
        (ShapeBytes(ShapeOf(o)) + (UserDataBytes((o.user_data_size, o.user_data)) + rest))))
  {
    var a, b, c := OptBytes(LeU32, o.num_vertices), OptFlat(LeU32, o.vertex_list), OptBytes(Word4Bytes, o.normal_abcd);
    var d, e, f := OptBytes(LeU32, o.edge_wall), OptBytes(LeU32, o.user_data_size), OptBytes(Raw, o.user_data);
    Nest9(LeU32(o.flags), LeI32(o.next_region), LeI32(ObstacleTypeCode(o.obstacle_type)), a, b, c, d, e, f, rest);
    Nest4(a, b, c, d, e + (f + rest));
    Nest2(e, f, rest);
  }

  lemma ShapeRoundTripWith(word: Bytes -> Outcome<u32>, quad: Bytes -> Outcome<Quad>, o: Obstacle, rest: Bytes)
    requires Complete(word, LeU32, Any) && Complete(quad, Word4Bytes, Any)
    requires ObstacleWellFormed(o)
    ensures ParseShapeWith(word, quad, o.obstacle_type, ShapeBytes(ShapeOf(o)) + rest) == Done(ShapeOf(o), rest)
  {
    var t := o.obstacle_type;
    var t3 := OptBytes(LeU32, o.edge_wall) + rest;
    var t2 := OptBytes(Word4Bytes, o.normal_abcd) + t3;
    var t1 := OptFlat(LeU32, o.vertex_list) + t2;
    Nest4(OptBytes(LeU32, o.num_vertices), OptFlat(LeU32, o.vertex_list), OptBytes(Word4Bytes, o.normal_abcd),
      OptBytes(LeU32, o.edge_wall), rest);
    WhenRoundTrip(HasVertexList(t), word, LeU32, Any, o.num_vertices, t1);
    CountedRoundTrip(o.num_vertices, word, LeU32, Any, o.vertex_list, t2);
    WhenRoundTrip(t == EdgePolygonNormalAbcd, quad, Word4Bytes, Any, o.normal_abcd, t3);
    WhenRoundTrip(t == EdgeWall, word, LeU32, Any, o.edge_wall, rest);
  }

  lemma UserDataRoundTripWith(word: Bytes -> Outcome<u32>, o: Obstacle, rest: Bytes)
    requires Complete(word, LeU32, Any)
    requires ObstacleWellFormed(o)
    ensures ParseUserDataWith(word, HasFlag(o.flags, ObstacleUserDataFlag), UserDataBytes((o.user_data_size, o.user_data)) + rest) ==
      Done((o.user_data_size, o.user_data), rest)
  {
    var t1 := OptBytes(Raw, o.user_data) + rest;
    Nest2(OptBytes(LeU32, o.user_data_size), OptBytes(Raw, o.user_data), rest);
    WhenRoundTrip(HasFlag(o.flags, ObstacleUserDataFlag), word, LeU32, Any, o.user_data_size, t1);
    TakeWhenRoundTrip(o.user_data_size, o.user_data, rest);
  }

  lemma ObstacleRoundTripWith(word: Bytes -> Outcome<u32>, int32: Bytes -> Outcome<i32>,
                              quad: Bytes -> Outcome<Quad>, o: Obstacle, rest: Bytes)
    requires Complete(word, LeU32, Any) && Complete(int32, LeI32, Any) && Complete(quad, Word4Bytes, Any)
    requires ObstacleWellFormed(o)
    ensures ParseObstacleWith(word, int32, quad, ObstacleBytes(o) + rest) == Done(o, rest)
  {
    var t4 := UserDataBytes((o.user_data_size, o.user_data)) + rest;
    var t3 := ShapeBytes(ShapeOf(o)) + t4;
    var t2 := LeI32(ObstacleTypeCode(o.obstacle_type)) + t3;
    var t1 := LeI32(o.next_region) + t2;
    ObstacleLayout(o, rest);
    CompleteAt(word, LeU32, Any, o.flags, t1);
    CompleteAt(int32, LeI32, Any, o.next_region, t2);
    CompleteAt(int32, LeI32, Any, ObstacleTypeCode(o.obstacle_type), t3);
    ObstacleTypeDecodes(o.obstacle_type);
    ShapeRoundTripWith(word, quad, o, t4);
    UserDataRoundTripWith(word, o, rest);
  }

  lemma ShapeSoundWith(word: Bytes -> Outcome<u32>, quad: Bytes -> Outcome<Quad>, t: ObstacleType, s: Bytes)
    requires Sound(word, LeU32, Any) && Sound(quad, Word4Bytes, Any)
    ensures var o := ParseShapeWith(word, quad, t, s);
      o.Done? ==> s == ShapeBytes(o.value) + o.rest
  {
    var o := ParseShapeWith(word, quad, t, s);
    if o.Done? {
      var n := When(HasVertexList(t), word, s);
      var vertices := Counted(n.value, word, n.rest);
      var normal := When(t == EdgePolygonNormalAbcd, quad, vertices.rest);
      WhenSound(HasVertexList(t), word, LeU32, Any, s);
      CountedSound(n.value, word, LeU32, Any, n.rest);
      WhenSound(t == EdgePolygonNormalAbcd, quad, Word4Bytes, Any, vertices.rest);
      WhenSound(t == EdgeWall, word, LeU32, Any, normal.rest);
      Nest4(OptBytes(LeU32, o.value.0), OptFlat(LeU32, o.value.1), OptBytes(Word4Bytes, o.value.2),
        OptBytes(LeU32, o.value.3), o.rest);
    }
  }

  lemma UserDataSoundWith(word: Bytes -> Outcome<u32>, c: bool, s: Bytes)
    requires Sound(word, LeU32, Any)
    ensures var o := ParseUserDataWith(word, c, s);
      o.Done? ==> s == UserDataBytes(o.value) + o.rest
  {
    var o := ParseUserDataWith(word, c, s);
    if o.Done? {
      WhenSound(c, word, LeU32, Any, s);
      Nest2(OptBytes(LeU32, o.value.0), OptBytes(Raw, o.value.1), o.rest);
    }
  }

  lemma ObstacleExactWith(word: Bytes -> Outcome<u32>, int32: Bytes -> Outcome<i32>,
                          quad: Bytes -> Outcome<Quad>, s: Bytes)
    requires Sound(word, LeU32, Any) && Sound(int32, LeI32, Any) && Sound(quad, Word4Bytes, Any)
    ensures var o := ParseObstacleWith(word, int32, quad, s);
      o.Done? ==> s == ObstacleBytes(o.value) + o.rest
  {
    var o := ParseObstacleWith(word, int32, quad, s);
    if o.Done? {
      var flags := word(s);
      var next := int32(flags.rest);
      var code := int32(next.rest);
      var t := o.value.obstacle_type;
      var shape := ParseShapeWith(word, quad, t, code.rest);
      SoundAt(word, LeU32, Any, s);
      SoundAt(int32, LeI32, Any, flags.rest);
      SoundAt(int32, LeI32, Any, next.rest);
      ShapeSoundWith(word, quad, t, code.rest);
      UserDataSoundWith(word, HasFlag(o.value.flags, ObstacleUserDataFlag), shape.rest);
      ObstacleLayout(o.value, o.rest);
    }
  }

  lemma ShapeNeverPanicsWith(word: Bytes -> Outcome<u32>, quad: Bytes -> Outcome<Quad>, t: ObstacleType, s: Bytes)
    requires FixedWidth(word, 4) && FixedWidth(quad, 16)
    ensures !ParseShapeWith(word, quad, t, s).Panic?
  {
    var n := When(HasVertexList(t), word, s);
    FixedWidthAt(word, 4, s);
    if n.Done? {
      if n.value.Some? {
        ManyFixedWidth(word, 4, n.value.value, n.rest);
      }
      var vertices := Counted(n.value, word, n.rest);
      if vertices.Done? {
        FixedWidthAt(quad, 16, vertices.rest);
        var normal := When(t == EdgePolygonNormalAbcd, quad, vertices.rest);
        if normal.Done? {
          FixedWidthAt(word, 4, normal.rest);
        }
      }
    }
  }

  /**
   * Reading an obstacle fails on fewer than 12 bytes and otherwise panics
   * exactly when its type word (the third) is not a declared discriminant.
   */
  lemma ObstaclePanicsWith(word: Bytes -> Outcome<u32>, int32: Bytes -> Outcome<i32>,
                           quad: Bytes -> Outcome<Quad>, s: Bytes)
    requires FixedWidth(word, 4) && FixedWidth(int32, 4) && FixedWidth(quad, 16)
    ensures var o := ParseObstacleWith(word, int32, quad, s);
      (|s| < 12 ==> o.Failure?) &&
      (|s| >= 12 ==> (o.Panic? <==> ObstacleTypeFromI32(int32(int32(word(s).rest).rest).value).None?))
  {
    FixedWidthAt(word, 4, s);
    if word(s).Done? {
      var flags := word(s);
      FixedWidthAt(int32, 4, flags.rest);
      if int32(flags.rest).Done? {
        var next := int32(flags.rest);
        FixedWidthAt(int32, 4, next.rest);
        if int32(next.rest).Done? {
          var code := int32(next.rest);
          var t := ObstacleTypeFromI32(code.value);
          if t.Some? {
            ShapeNeverPanicsWith(word, quad, t.value, code.rest);
            var shape := ParseShapeWith(word, quad, t.value, code.rest);
            if shape.Done? {
              FixedWidthAt(word, 4, shape.rest);
            }
          }
        }
      }
    }
  }

  lemma ObstacleCodec()
    ensures Complete(ParseObstacle, ObstacleBytes, ObstacleWellFormed)
    ensures Sound(ParseObstacle, ObstacleBytes, ObstacleWellFormed)
  {
    U32Codec();
    I32Codec();
    Word4Codec();
    forall o: Obstacle, rest: Bytes | ObstacleWellFormed(o) ensures ParseObstacle(ObstacleBytes(o) + rest) == Done(o, rest) {
      ObstacleRoundTripWith(U32, I32, Word4, o, rest);
    }
    forall s: Bytes ensures var o := ParseObstacle(s); o.Done? ==> ObstacleWellFormed(o.value) && s == ObstacleBytes(o.value) + o.rest {
      ObstacleExactWith(U32, I32, Word4, s);
    }
  }

  /** The type word sits at offset 8: an obstacle whose type is undeclared panics the parse. */
  lemma ObstaclePanics(s: Bytes)
    ensures |s| < 12 ==> ParseObstacle(s).Failure?
    ensures |s| >= 12 ==> (ParseObstacle(s).Panic? <==> ObstacleTypeFromI32(I32(s[8..]).value).None?)
  {
    U32Codec();
    I32Codec();
    Word4Codec();
    ObstaclePanicsWith(U32, I32, Word4, s);
    if |s| >= 12 {
      assert U32(s).rest == s[4..];
      assert I32(s[4..]).rest == s[8..];
    }
  }

  // ---- Region

  const SphereFlag: u32 := 0x01
  const ReverbVolumeFlag: u32 := 0x02
  const ReverbOffsetFlag: u32 := 0x04
  /** Read by `region_fog`, `enable_gouraud2` and `encoded_visibility` only: they select no field. */
  const RegionFogFlag: u32 := 0x08
  const EnableGouraud2Flag: u32 := 0x10
  const EncodedVisibilityFlag: u32 := 0x20
  const ByteEntriesFlag: u32 := 0x80
  const MeshReferenceFlag: u32 := 0x100

  type Triple = (u32, u32, u32)

  /** The eight counts stored after the ambient light reference, in order. */
  datatype RegionCounts = RegionCounts(
    num_region_vertex: u32,
    num_proximal_regions: u32,
    num_render_vertices: u32,
    num_walls: u32,
    num_obstacles: u32,
    num_cutting_obstacles: u32,
    num_vis_node: u32,
    num_vis_list: u32)

  datatype Region = Region(
    name_reference: StringReference,
    flags: u32,
    ambient_light: FragmentRef,
    counts: RegionCounts,
    region_vertices: seq<Triple>,
    proximal_regions: seq<(u32, u32)>,
    render_vertices: seq<Triple>,
    walls: seq<Wall>,
    obstacles: seq<Obstacle>,
    vis_nodes: seq<VisNode>,
    visible_lists: seq<VisibleList>,
    sphere: Option<Quad>,
    reverb_volume: Option<f32>,
    reverb_offset: Option<i32>,
    user_data_size: u32,
    user_data: Bytes,
    mesh_reference: Option<FragmentRef>)

  /** Render vertices are read only when the region has no walls. */
  function RenderVertexCount(c: RegionCounts): u32
  {
    if c.num_walls == 0 then c.num_render_vertices else 0
  }

  function ParseRegionCounts(s: Bytes): (o: Outcome<RegionCounts>)
    ensures !o.Panic? && (o.Failure? <==> |s| < 32)
    ensures o.Done? ==> s == RegionCountsBytes(o.value) + o.rest
  {
    var a :- Word4(s);
    var b :- Word4(a.rest);
    var c := RegionCounts(a.value.0, a.value.1, a.value.2, a.value.3, b.value.0, b.value.1, b.value.2, b.value.3);
    Nest2(Word4Bytes(a.value), Word4Bytes(b.value), b.rest);
    Done(c, b.rest)
  }

  function RegionCountsBytes(c: RegionCounts): (b: Bytes)
    ensures |b| == 32
  {
    Word4Bytes((c.num_region_vertex, c.num_proximal_regions, c.num_render_vertices, c.num_walls)) +
    Word4Bytes((c.num_obstacles, c.num_cutting_obstacles, c.num_vis_node, c.num_vis_list))
  }

  lemma RegionCountsRoundTrip(c: RegionCounts, rest: Bytes)
    ensures ParseRegionCounts(RegionCountsBytes(c) + rest) == Done(c, rest)
  {
    var a := (c.num_region_vertex, c.num_proximal_regions, c.num_render_vertices, c.num_walls);
    var b := (c.num_obstacles, c.num_cutting_obstacles, c.num_vis_node, c.num_vis_list);
    Nest2(Word4Bytes(a), Word4Bytes(b), rest);
    Word4RoundTrip(a, Word4Bytes(b) + rest);
    Word4RoundTrip(b, rest);
  }

  type Vertices = (seq<Triple>, seq<(u32, u32)>, seq<Triple>)

  /** Region vertices, proximal regions and render vertices. */
  function ParseVertices(c: RegionCounts, s: Bytes): (o: Outcome<Vertices>)
  {
    ParseVerticesWith(Word3, Word2, c, s)
  }

  function ParseVerticesWith(triple: Bytes -> Outcome<Triple>, pair: Bytes -> Outcome<(u32, u32)>,
                             c: RegionCounts, s: Bytes): (o: Outcome<Vertices>)
  {
    var region :- Many(triple, c.num_region_vertex, s);
    var proximal :- Many(pair, c.num_proximal_regions, region.rest);
    var render :- Many(triple, RenderVertexCount(c), proximal.rest);
    Done((region.value, proximal.value, render.value), render.rest)
  }

  function VerticesBytes(x: Vertices): Bytes
  {
    Flat(Word3Bytes, x.0) + Flat(Word2Bytes, x.1) + Flat(Word3Bytes, x.2)
  }

  predicate VerticesMatch(c: RegionCounts, x: Vertices)
  {
    |x.0| == c.num_region_vertex && |x.1| == c.num_proximal_regions && |x.2| == RenderVertexCount(c)
  }

  lemma VerticesRoundTripWith(triple: Bytes -> Outcome<Triple>, pair: Bytes -> Outcome<(u32, u32)>,
                              c: RegionCounts, x: Vertices, rest: Bytes)
    requires Complete(triple, Word3Bytes, Any) && Complete(pair, Word2Bytes, Any)
    requires VerticesMatch(c, x)
    ensures ParseVerticesWith(triple, pair, c, VerticesBytes(x) + rest) == Done(x, rest)
  {
    var t2 := Flat(Word3Bytes, x.2) + rest;
    var t1 := Flat(Word2Bytes, x.1) + t2;
    Nest3(Flat(Word3Bytes, x.0), Flat(Word2Bytes, x.1), Flat(Word3Bytes, x.2), rest);
    ManyRoundTrip(triple, Word3Bytes, Any, x.0, t1);
    ManyRoundTrip(pair, Word2Bytes, Any, x.1, t2);
    ManyRoundTrip(triple, Word3Bytes, Any, x.2, rest);
  }

  lemma VerticesSoundWith(triple: Bytes -> Outcome<Triple>, pair: Bytes -> Outcome<(u32, u32)>,
                          c: RegionCounts, s: Bytes)
    requires Sound(triple, Word3Bytes, Any) && Sound(pair, Word2Bytes, Any)
    ensures var o := ParseVerticesWith(triple, pair, c, s);
      o.Done? ==> VerticesMatch(c, o.value) && s == VerticesBytes(o.value) + o.rest
  {
    var o := ParseVerticesWith(triple, pair, c, s);
    if o.Done? {
      var region := Many(triple, c.num_region_vertex, s);
      var proximal := Many(pair, c.num_proximal_regions, region.rest);
      ManySound(triple, Word3Bytes, Any, c.num_region_vertex, s);
      ManySound(pair, Word2Bytes, Any, c.num_proximal_regions, region.rest);
      ManySound(triple, Word3Bytes, Any, RenderVertexCount(c), proximal.rest);
      Nest3(Flat(Word3Bytes, o.value.0), Flat(Word2Bytes, o.value.1), Flat(Word3Bytes, o.value.2), o.rest);
    }
  }

  /** The visible-list reader region flag 0x80 selects, and the lists it admits. */
  function VisibleListParser(byteEntries: bool): Bytes -> Outcome<VisibleList>
  {
    if byteEntries then ParseVisibleListWithBytes else ParseVisibleListWithWords
  }

  function ListKind(byteEntries: bool): VisibleList -> bool
  {
    if byteEntries then ByteListWellFormed else WordListWellFormed
  }

  lemma VisibleListCodec(byteEntries: bool)
    ensures Complete(VisibleListParser(byteEntries), VisibleListBytes, ListKind(byteEntries))
    ensures Sound(VisibleListParser(byteEntries), VisibleListBytes, ListKind(byteEntries))
  {
    VisibleListCodecs();
  }

  lemma ListsOfKind(xs: seq<VisibleList>, byteEntries: bool)
    ensures (forall x :: x in xs ==> ListKind(byteEntries)(x)) <==>
      (forall x :: x in xs ==> VisibleListWellFormed(x, byteEntries))
  {
    if byteEntries {
      assert forall x :: ListKind(byteEntries)(x) == ByteListWellFormed(x);
    } else {
      assert forall x :: ListKind(byteEntries)(x) == WordListWellFormed(x);
    }
  }

  type Tree = (seq<Wall>, seq<Obstacle>, seq<VisNode>, seq<VisibleList>)

  /** Walls, obstacles, visibility-tree nodes and visible lists. */
  function ParseTree(c: RegionCounts, byteEntries: bool, s: Bytes): (o: Outcome<Tree>)
  {
    ParseTreeWith(ParseWall, ParseObstacle, ParseVisNode, VisibleListParser(byteEntries), c, s)
  }

  function ParseTreeWith(wall: Bytes -> Outcome<Wall>, obstacle: Bytes -> Outcome<Obstacle>,
                         node: Bytes -> Outcome<VisNode>, list: Bytes -> Outcome<VisibleList>,
                         c: RegionCounts, s: Bytes): (o: Outcome<Tree>)
  {
    var walls :- Many(wall, c.num_walls, s);
    var obstacles :- Many(obstacle, c.num_obstacles, walls.rest);
    var nodes :- Many(node, c.num_vis_node, obstacles.rest);
    var lists :- Many(list, c.num_vis_list, nodes.rest);
    Done((walls.value, obstacles.value, nodes.value, lists.value), lists.rest)
  }

  function TreeBytes(x: Tree): Bytes
  {
    Flat(WallBytes, x.0) + Flat(ObstacleBytes, x.1) + Flat(VisNodeBytes, x.2) + Flat(VisibleListBytes, x.3)
  }

  predicate TreeMatches(c: RegionCounts, byteEntries: bool, x: Tree)
  {
    |x.0| == c.num_walls && (forall w :: w in x.0 ==> WallWellFormed(w)) &&
    |x.1| == c.num_obstacles && (forall o :: o in x.1 ==> ObstacleWellFormed(o)) &&
    |x.2| == c.num_vis_node &&
    |x.3| == c.num_vis_list && (forall v :: v in x.3 ==> VisibleListWellFormed(v, byteEntries))
  }

  lemma TreeRoundTripWith(wall: Bytes -> Outcome<Wall>, obstacle: Bytes -> Outcome<Obstacle>,
                          node: Bytes -> Outcome<VisNode>, list: Bytes -> Outcome<VisibleList>,
                          listKind: VisibleList -> bool, c: RegionCounts, x: Tree, rest: Bytes)
    requires Complete(wall, WallBytes, WallWellFormed) && Complete(obstacle, ObstacleBytes, ObstacleWellFormed)
    requires Complete(node, VisNodeBytes, Any) && Complete(list, VisibleListBytes, listKind)
    requires |x.0| == c.num_walls && (forall w :: w in x.0 ==> WallWellFormed(w))
    requires |x.1| == c.num_obstacles && (forall o :: o in x.1 ==> ObstacleWellFormed(o))
    requires |x.2| == c.num_vis_node && |x.3| == c.num_vis_list && (forall v :: v in x.3 ==> listKind(v))
    ensures ParseTreeWith(wall, obstacle, node, list, c, TreeBytes(x) + rest) == Done(x, rest)
  {
    var t3 := Flat(VisibleListBytes, x.3) + rest;
    var t2 := Flat(VisNodeBytes, x.2) + t3;
    var t1 := Flat(ObstacleBytes, x.1) + t2;
    Nest4(Flat(WallBytes, x.0), Flat(ObstacleBytes, x.1), Flat(VisNodeBytes, x.2), Flat(VisibleListBytes, x.3), rest);
    ManyRoundTrip(wall, WallBytes, WallWellFormed, x.0, t1);
    ManyRoundTrip(obstacle, ObstacleBytes, ObstacleWellFormed, x.1, t2);
    ManyRoundTrip(node, VisNodeBytes, Any, x.2, t3);
    ManyRoundTrip(list, VisibleListBytes, listKind, x.3, rest);
  }

  lemma TreeSoundWith(wall: Bytes -> Outcome<Wall>, obstacle: Bytes -> Outcome<Obstacle>,
                      node: Bytes -> Outcome<VisNode>, list: Bytes -> Outcome<VisibleList>,
                      listKind: VisibleList -> bool, c: RegionCounts, s: Bytes)
    requires Sound(wall, WallBytes, WallWellFormed) && Sound(obstacle, ObstacleBytes, ObstacleWellFormed)
    requires Sound(node, VisNodeBytes, Any) && Sound(list, VisibleListBytes, listKind)
    ensures var o := ParseTreeWith(wall, obstacle, node, list, c, s);
      o.Done? ==>
        |o.value.0| == c.num_walls && (forall w :: w in o.value.0 ==> WallWellFormed(w)) &&
        |o.value.1| == c.num_obstacles && (forall b :: b in o.value.1 ==> ObstacleWellFormed(b)) &&
        |o.value.2| == c.num_vis_node && |o.value.3| == c.num_vis_list &&
        (forall v :: v in o.value.3 ==> listKind(v)) && s == TreeBytes(o.value) + o.rest
  {
    var o := ParseTreeWith(wall, obstacle, node, list, c, s);
    if o.Done? {
      var walls := Many(wall, c.num_walls, s);
      var obstacles := Many(obstacle, c.num_obstacles, walls.rest);
      var nodes := Many(node, c.num_vis_node, obstacles.rest);
      ManySound(wall, WallBytes, WallWellFormed, c.num_walls, s);
      ManySound(obstacle, ObstacleBytes, ObstacleWellFormed, c.num_obstacles, walls.rest);
      ManySound(node, VisNodeBytes, Any, c.num_vis_node, obstacles.rest);
      ManySound(list, VisibleListBytes, listKind, c.num_vis_list, nodes.rest);
      Nest4(Flat(WallBytes, o.value.0), Flat(ObstacleBytes, o.value.1), Flat(VisNodeBytes, o.value.2),
        Flat(VisibleListBytes, o.value.3), o.rest);
    }
  }

  lemma TreeRoundTrip(c: RegionCounts, byteEntries: bool, x: Tree, rest: Bytes)
    requires TreeMatches(c, byteEntries, x)
    ensures ParseTree(c, byteEntries, TreeBytes(x) + rest) == Done(x, rest)
  {
    WallCodec();
    ObstacleCodec();
    VisNodeCodec();
    VisibleListCodec(byteEntries);
    ListsOfKind(x.3, byteEntries);
    TreeRoundTripWith(ParseWall, ParseObstacle, ParseVisNode, VisibleListParser(byteEntries), ListKind(byteEntries),
      c, x, rest);
  }

  lemma TreeSound(c: RegionCounts, byteEntries: bool, s: Bytes)
    ensures var o := ParseTree(c, byteEntries, s);
      o.Done? ==> TreeMatches(c, byteEntries, o.value) && s == TreeBytes(o.value) + o.rest
  {
    WallCodec();
    ObstacleCodec();
    VisNodeCodec();
    VisibleListCodec(byteEntries);
    TreeSoundWith(ParseWall, ParseObstacle, ParseVisNode, VisibleListParser(byteEntries), ListKind(byteEntries), c, s);
    var o := ParseTree(c, byteEntries, s);
    if o.Done? {
      ListsOfKind(o.value.3, byteEntries);
    }
  }

  type Extras = (Option<Quad>, Option<f32>, Option<i32>, u32, Bytes, Option<FragmentRef>)

  /** The flagged sphere and reverb fields, the user data, and the flagged mesh reference. */
  function ParseExtras(flags: u32, s: Bytes): (o: Outcome<Extras>)
  {
    ParseExtrasWith(Word4, U32, I32, ParseFragmentRef, flags, s)
  }

  function ParseExtrasWith(quad: Bytes -> Outcome<Quad>, word: Bytes -> Outcome<u32>, int32: Bytes -> Outcome<i32>,
                           ref: Bytes -> Outcome<FragmentRef>, flags: u32, s: Bytes): (o: Outcome<Extras>)
  {
    var sphere :- When(HasFlag(flags, SphereFlag), quad, s);
    var volume :- When(HasFlag(flags, ReverbVolumeFlag), word, sphere.rest);
    var offset :- When(HasFlag(flags, ReverbOffsetFlag), int32, volume.rest);
    var size :- word(offset.rest);
    var data :- Take(size.value, size.rest);
    var mesh :- When(HasFlag(flags, MeshReferenceFlag), ref, data.rest);
    Done((sphere.value, volume.value, offset.value, size.value, data.value, mesh.value), mesh.rest)
  }

  function ExtrasBytes(x: Extras): Bytes
  {
    OptBytes(Word4Bytes, x.0) + OptBytes(LeU32, x.1) + OptBytes(LeI32, x.2) + LeU32(x.3) + x.4 +
    OptBytes(FragmentRefBytes, x.5)
  }

  predicate ExtrasMatch(flags: u32, x: Extras)
  {
    Gated(HasFlag(flags, SphereFlag), Any, x.0) && Gated(HasFlag(flags, ReverbVolumeFlag), Any, x.1) &&
    Gated(HasFlag(flags, ReverbOffsetFlag), Any, x.2) && |x.4| == x.3 &&
    Gated(HasFlag(flags, MeshReferenceFlag), WellFormed, x.5)
  }

  lemma ExtrasRoundTripWith(quad: Bytes -> Outcome<Quad>, word: Bytes -> Outcome<u32>, int32: Bytes -> Outcome<i32>,
                            ref: Bytes -> Outcome<FragmentRef>, flags: u32, x: Extras, rest: Bytes)
    requires Complete(quad, Word4Bytes, Any) && Complete(word, LeU32, Any) && Complete(int32, LeI32, Any)
    requires Complete(ref, FragmentRefBytes, WellFormed)
    requires ExtrasMatch(flags, x)
    ensures ParseExtrasWith(quad, word, int32, ref, flags, ExtrasBytes(x) + rest) == Done(x, rest)
  {
    var t5 := OptBytes(FragmentRefBytes, x.5) + rest;
    var t4 := x.4 + t5;
    var t3 := LeU32(x.3) + t4;
    var t2 := OptBytes(LeI32, x.2) + t3;
    var t1 := OptBytes(LeU32, x.1) + t2;
    Nest6(OptBytes(Word4Bytes, x.0), OptBytes(LeU32, x.1), OptBytes(LeI32, x.2), LeU32(x.3), x.4,
      OptBytes(FragmentRefBytes, x.5), rest);
    WhenRoundTrip(HasFlag(flags, SphereFlag), quad, Word4Bytes, Any, x.0, t1);
    WhenRoundTrip(HasFlag(flags, ReverbVolumeFlag), word, LeU32, Any, x.1, t2);
    WhenRoundTrip(HasFlag(flags, ReverbOffsetFlag), int32, LeI32, Any, x.2, t3);
    CompleteAt(word, LeU32, Any, x.3, t4);
    TakeRoundTrip(x.4, t5);
    WhenRoundTrip(HasFlag(flags, MeshReferenceFlag), ref, FragmentRefBytes, WellFormed, x.5, rest);
  }

  lemma ExtrasSoundWith(quad: Bytes -> Outcome<Quad>, word: Bytes -> Outcome<u32>, int32: Bytes -> Outcome<i32>,
                        ref: Bytes -> Outcome<FragmentRef>, flags: u32, s: Bytes)
    requires Sound(quad, Word4Bytes, Any) && Sound(word, LeU32, Any) && Sound(int32, LeI32, Any)
    requires Sound(ref, FragmentRefBytes, WellFormed)
    ensures var o := ParseExtrasWith(quad, word, int32, ref, flags, s);
      o.Done? ==> ExtrasMatch(flags, o.value) && s == ExtrasBytes(o.value) + o.rest
  {
    var o := ParseExtrasWith(quad, word, int32, ref, flags, s);
    if o.Done? {
      var sphere := When(HasFlag(flags, SphereFlag), quad, s);
      var volume := When(HasFlag(flags, ReverbVolumeFlag), word, sphere.rest);
      var offset := When(HasFlag(flags, ReverbOffsetFlag), int32, volume.rest);
      var size := word(offset.rest);
      var data := Take(size.value, size.rest);
      WhenSound(HasFlag(flags, SphereFlag), quad, Word4Bytes, Any, s);
      WhenSound(HasFlag(flags, ReverbVolumeFlag), word, LeU32, Any, sphere.rest);
      WhenSound(HasFlag(flags, ReverbOffsetFlag), int32, LeI32, Any, volume.rest);
      SoundAt(word, LeU32, Any, offset.rest);
      WhenSound(HasFlag(flags, MeshReferenceFlag), ref, FragmentRefBytes, WellFormed, data.rest);
      Nest6(OptBytes(Word4Bytes, o.value.0), OptBytes(LeU32, o.value.1), OptBytes(LeI32, o.value.2),
        LeU32(o.value.3), o.value.4, OptBytes(FragmentRefBytes, o.value.5), o.rest);
    }
  }

  lemma VerticesRoundTrip(c: RegionCounts, x: Vertices, rest: Bytes)
    requires VerticesMatch(c, x)
    ensures ParseVertices(c, VerticesBytes(x) + rest) == Done(x, rest)
  {
    Word3Codec();
    Word2Codec();
    VerticesRoundTripWith(Word3, Word2, c, x, rest);
  }

  lemma VerticesSound(c: RegionCounts, s: Bytes)
    ensures var o := ParseVertices(c, s);
      o.Done? ==> VerticesMatch(c, o.value) && s == VerticesBytes(o.value) + o.rest
  {
    Word3Codec();
    Word2Codec();
    VerticesSoundWith(Word3, Word2, c, s);
  }

  lemma ExtrasRoundTrip(flags: u32, x: Extras, rest: Bytes)
    requires ExtrasMatch(flags, x)
    ensures ParseExtras(flags, ExtrasBytes(x) + rest) == Done(x, rest)
  {
    Word4Codec();
    U32Codec();
    I32Codec();
    FragmentRefCodec();
    ExtrasRoundTripWith(Word4, U32, I32, ParseFragmentRef, flags, x, rest);
  }

  lemma ExtrasSound(flags: u32, s: Bytes)
    ensures var o := ParseExtras(flags, s);
      o.Done? ==> ExtrasMatch(flags, o.value) && s == ExtrasBytes(o.value) + o.rest
  {
    Word4Codec();
    U32Codec();
    I32Codec();
    FragmentRefCodec();
    ExtrasSoundWith(Word4, U32, I32, ParseFragmentRef, flags, s);
  }

  function ParseTreeIn(k: (RegionCounts, bool), s: Bytes): (o: Outcome<Tree>)
  {
    ParseTree(k.0, k.1, s)
  }

  predicate TreeMatchesIn(k: (RegionCounts, bool), x: Tree)
  {
    TreeMatches(k.0, k.1, x)
  }

  lemma RegionCountsCodec()
    ensures Complete(ParseRegionCounts, RegionCountsBytes, Any) && Sound(ParseRegionCounts, RegionCountsBytes, Any)
  {
    forall c: RegionCounts, rest: Bytes ensures ParseRegionCounts(RegionCountsBytes(c) + rest) == Done(c, rest) {
      RegionCountsRoundTrip(c, rest);
    }
  }

  lemma StagesCodec()
    ensures CompleteIn(ParseVertices, VerticesBytes, VerticesMatch) && SoundIn(ParseVertices, VerticesBytes, VerticesMatch)
    ensures CompleteIn(ParseTreeIn, TreeBytes, TreeMatchesIn) && SoundIn(ParseTreeIn, TreeBytes, TreeMatchesIn)
    ensures CompleteIn(ParseExtras, ExtrasBytes, ExtrasMatch) && SoundIn(ParseExtras, ExtrasBytes, ExtrasMatch)
  {
    forall c: RegionCounts, x: Vertices, rest: Bytes | VerticesMatch(c, x)
      ensures ParseVertices(c, VerticesBytes(x) + rest) == Done(x, rest)
    {
      VerticesRoundTrip(c, x, rest);
    }
    forall c: RegionCounts, s: Bytes ensures var o := ParseVertices(c, s);
      o.Done? ==> VerticesMatch(c, o.value) && s == VerticesBytes(o.value) + o.rest
    {
      VerticesSound(c, s);
    }
    forall k: (RegionCounts, bool), x: Tree, rest: Bytes | TreeMatchesIn(k, x)
      ensures ParseTreeIn(k, TreeBytes(x) + rest) == Done(x, rest)
    {
      TreeRoundTrip(k.0, k.1, x, rest);
    }
    forall k: (RegionCounts, bool), s: Bytes ensures var o := ParseTreeIn(k, s);
      o.Done? ==> TreeMatchesIn(k, o.value) && s == TreeBytes(o.value) + o.rest
    {
      TreeSound(k.0, k.1, s);
    }
    forall f: u32, x: Extras, rest: Bytes | ExtrasMatch(f, x)
      ensures ParseExtras(f, ExtrasBytes(x) + rest) == Done(x, rest)
    {
      ExtrasRoundTrip(f, x, rest);
    }
    forall f: u32, s: Bytes ensures var o := ParseExtras(f, s);
      o.Done? ==> ExtrasMatch(f, o.value) && s == ExtrasBytes(o.value) + o.rest
    {
      ExtrasSound(f, s);
    }
  }

  /** `Region::parse`. */
  function ParseRegion(s: Bytes): (o: Outcome<Region>)
  {
    ParseRegionWith(ParseStringReference, U32, ParseFragmentRef, ParseRegionCounts, ParseVertices, ParseTreeIn,
      ParseExtras, s)
  }

  function ParseRegionWith(name: Bytes -> Outcome<StringReference>, word: Bytes -> Outcome<u32>,
                           ref: Bytes -> Outcome<FragmentRef>, counts: Bytes -> Outcome<RegionCounts>,
                           vertices: (RegionCounts, Bytes) -> Outcome<Vertices>,
                           tree: ((RegionCounts, bool), Bytes) -> Outcome<Tree>,
                           extras: (u32, Bytes) -> Outcome<Extras>, s: Bytes): (o: Outcome<Region>)
  {
    var n :- name(s);
    var flags :- word(n.rest);
    var ambient :- ref(flags.rest);
    var c :- counts(ambient.rest);
    var v :- vertices(c.value, c.rest);
    var t :- tree((c.value, HasFlag(flags.value, ByteEntriesFlag)), v.rest);
    var x :- extras(flags.value, t.rest);
    Done(Region(n.value, flags.value, ambient.value, c.value, v.value.0, v.value.1, v.value.2,
      t.value.0, t.value.1, t.value.2, t.value.3, x.value.0, x.value.1, x.value.2, x.value.3, x.value.4, x.value.5),
      x.rest)
  }

  function VerticesOf(r: Region): Vertices
  {
    (r.region_vertices, r.proximal_regions, r.render_vertices)
  }

  function TreeOf(r: Region): Tree
  {
    (r.walls, r.obstacles, r.vis_nodes, r.visible_lists)
  }

  function ExtrasOf(r: Region): Extras
  {
    (r.sphere, r.reverb_volume, r.reverb_offset, r.user_data_size, r.user_data, r.mesh_reference)
  }

  /** The fields `Region::to_bytes` concatenates, before its padding. */
  function RegionFields(r: Region): Bytes
  {
    StringReferenceBytes(r.name_reference) + LeU32(r.flags) + FragmentRefBytes(r.ambient_light) +
    RegionCountsBytes(r.counts) + VerticesBytes(VerticesOf(r)) + TreeBytes(TreeOf(r)) + ExtrasBytes(ExtrasOf(r))
  }

  /** `Region::to_bytes`: the fields, then `(4 - len % 4) % 4` zeros. */
  function RegionBytes(r: Region): (b: Bytes)
    ensures |b| % 4 == 0 && |b| < |RegionFields(r)| + 4
  {
    RegionFields(r) + Zeros(Pad4(|RegionFields(r)|))
  }

  /**
   * Every list has the length its count announces (no render vertices
   * when there are walls), every record in them is well formed with
   * visible-list entries of the width flag 0x80 selects, and the sphere,
   * reverb and mesh fields are present exactly when their flags are set.
   */
  predicate RegionWellFormed(r: Region)
  {
    WellFormed(r.ambient_light) && VerticesMatch(r.counts, VerticesOf(r)) &&
    TreeMatches(r.counts, HasFlag(r.flags, ByteEntriesFlag), TreeOf(r)) && ExtrasMatch(r.flags, ExtrasOf(r))
  }

  lemma RegionRoundTripWith(name: Bytes -> Outcome<StringReference>, word: Bytes -> Outcome<u32>,
                            ref: Bytes -> Outcome<FragmentRef>, counts: Bytes -> Outcome<RegionCounts>,
                            vertices: (RegionCounts, Bytes) -> Outcome<Vertices>,
                            tree: ((RegionCounts, bool), Bytes) -> Outcome<Tree>,
                            extras: (u32, Bytes) -> Outcome<Extras>, r: Region, rest: Bytes)
    requires Complete(name, StringReferenceBytes, Any) && Complete(word, LeU32, Any)
    requires Complete(ref, FragmentRefBytes, WellFormed) && Complete(counts, RegionCountsBytes, Any)
    requires CompleteIn(vertices, VerticesBytes, VerticesMatch) && CompleteIn(tree, TreeBytes, TreeMatchesIn)
    requires CompleteIn(extras, ExtrasBytes, ExtrasMatch)
    requires RegionWellFormed(r)
    ensures ParseRegionWith(name, word, ref, counts, vertices, tree, extras, RegionFields(r) + rest) == Done(r, rest)
  {
    var k := (r.counts, HasFlag(r.flags, ByteEntriesFlag));
    var t6 := ExtrasBytes(ExtrasOf(r)) + rest;
    var t5 := TreeBytes(TreeOf(r)) + t6;
    var t4 := VerticesBytes(VerticesOf(r)) + t5;
    var t3 := RegionCountsBytes(r.counts) + t4;
    var t2 := FragmentRefBytes(r.ambient_light) + t3;
    var t1 := LeU32(r.flags) + t2;
    Nest7(StringReferenceBytes(r.name_reference), LeU32(r.flags), FragmentRefBytes(r.ambient_light),
      RegionCountsBytes(r.counts), VerticesBytes(VerticesOf(r)), TreeBytes(TreeOf(r)), ExtrasBytes(ExtrasOf(r)), rest);
    CompleteAt(name, StringReferenceBytes, Any, r.name_reference, t1);
    CompleteAt(word, LeU32, Any, r.flags, t2);
    CompleteAt(ref, FragmentRefBytes, WellFormed, r.ambient_light, t3);
    CompleteAt(counts, RegionCountsBytes, Any, r.counts, t4);
    assert vertices(r.counts, VerticesBytes(VerticesOf(r)) + t5) == Done(VerticesOf(r), t5);
    assert TreeMatchesIn(k, TreeOf(r));
    assert tree(k, TreeBytes(TreeOf(r)) + t6) == Done(TreeOf(r), t6);
    assert extras(r.flags, ExtrasBytes(ExtrasOf(r)) + rest) == Done(ExtrasOf(r), rest);
  }

  lemma RegionExactWith(name: Bytes -> Outcome<StringReference>, word: Bytes -> Outcome<u32>,
                        ref: Bytes -> Outcome<FragmentRef>, counts: Bytes -> Outcome<RegionCounts>,
                        vertices: (RegionCounts, Bytes) -> Outcome<Vertices>,
                        tree: ((RegionCounts, bool), Bytes) -> Outcome<Tree>,
                        extras: (u32, Bytes) -> Outcome<Extras>, s: Bytes)
    requires Sound(name, StringReferenceBytes, Any) && Sound(word, LeU32, Any)
    requires Sound(ref, FragmentRefBytes, WellFormed) && Sound(counts, RegionCountsBytes, Any)
    requires SoundIn(vertices, VerticesBytes, VerticesMatch) && SoundIn(tree, TreeBytes, TreeMatchesIn)
    requires SoundIn(extras, ExtrasBytes, ExtrasMatch)
    ensures var o := ParseRegionWith(name, word, ref, counts, vertices, tree, extras, s);
      o.Done? ==> RegionWellFormed(o.value) && s == RegionFields(o.value) + o.rest
  {
    var o := ParseRegionWith(name, word, ref, counts, vertices, tree, extras, s);
    if o.Done? {
      var r := o.value;
      var n := name(s);
      var flags := word(n.rest);
      var ambient := ref(flags.rest);
      var c := counts(ambient.rest);
      var v := vertices(r.counts, c.rest);
      var k := (r.counts, HasFlag(r.flags, ByteEntriesFlag));
      var t := tree(k, v.rest);
      SoundAt(name, StringReferenceBytes, Any, s);
      SoundAt(word, LeU32, Any, n.rest);
      SoundAt(ref, FragmentRefBytes, WellFormed, flags.rest);
      SoundAt(counts, RegionCountsBytes, Any, ambient.rest);
      assert VerticesOf(r) == v.value && TreeOf(r) == t.value && ExtrasOf(r) == extras(r.flags, t.rest).value;
      assert VerticesMatch(r.counts, v.value) && c.rest == VerticesBytes(v.value) + v.rest;
      assert TreeMatchesIn(k, t.value) && v.rest == TreeBytes(t.value) + t.rest;
      assert ExtrasMatch(r.flags, ExtrasOf(r)) && t.rest == ExtrasBytes(ExtrasOf(r)) + o.rest;
      Nest7(StringReferenceBytes(r.name_reference), LeU32(r.flags), FragmentRefBytes(r.ambient_light),
        RegionCountsBytes(r.counts), VerticesBytes(VerticesOf(r)), TreeBytes(TreeOf(r)), ExtrasBytes(ExtrasOf(r)), o.rest);
    }
  }

  lemma RegionCodec()
    ensures Complete(ParseRegion, RegionFields, RegionWellFormed) && Sound(ParseRegion, RegionFields, RegionWellFormed)
  {
    StringReferenceCodec();
    U32Codec();
    FragmentRefCodec();
    RegionCountsCodec();
    StagesCodec();
    forall r: Region, rest: Bytes | RegionWellFormed(r) ensures ParseRegion(RegionFields(r) + rest) == Done(r, rest) {
      RegionRoundTripWith(ParseStringReference, U32, ParseFragmentRef, ParseRegionCounts, ParseVertices, ParseTreeIn,
        ParseExtras, r, rest);
    }
    forall s: Bytes ensures var o := ParseRegion(s);
      o.Done? ==> RegionWellFormed(o.value) && s == RegionFields(o.value) + o.rest
    {
      RegionExactWith(ParseStringReference, U32, ParseFragmentRef, ParseRegionCounts, ParseVertices, ParseTreeIn,
        ParseExtras, s);
    }
  }

  /** Parsing a serialised region gives it back, with the padding left over. */
  lemma RegionRoundTrip(r: Region, rest: Bytes)
    requires RegionWellFormed(r)
    ensures ParseRegion(RegionBytes(r) + rest) == Done(r, Zeros(Pad4(|RegionFields(r)|)) + rest)
  {
    var f := RegionFields(r);
    RegionComplete();
    CompleteThen(ParseRegion, RegionFields, RegionWellFormed, r, Zeros(Pad4(|f|)), rest);
    assert RegionBytes(r) == f + Zeros(Pad4(|f|));
  }

  lemma RegionComplete()
    ensures Complete(ParseRegion, RegionFields, RegionWellFormed)
  {
    RegionCodec();
  }

  /** Whatever parses as a region is well formed and its fields are exactly the bytes consumed. */
  lemma RegionExact(d: Bytes)
    ensures var o := ParseRegion(d);
      o.Done? ==> RegionWellFormed(o.value) && d == RegionFields(o.value) + o.rest
  {
    RegionSound();
    if ParseRegion(d).Done? {
      SoundAt(ParseRegion, RegionFields, RegionWellFormed, d);
    }
  }

  /** Serialising a parsed region reproduces the input exactly when the bytes left over are its padding. */
  lemma RegionReparse(d: Bytes)
    ensures var o := ParseRegion(d);
      o.Done? ==> (RegionBytes(o.value) == d <==> o.rest == Zeros(Pad4(|RegionFields(o.value)|)))
  {
    if ParseRegion(d).Done? {
      RegionSound();
      PaddedReencodeExact(ParseRegion, RegionFields, RegionWellFormed, d);
    }
  }

  lemma RegionSound()
    ensures Sound(ParseRegion, RegionFields, RegionWellFormed)
  {
    RegionCodec();
  }
}
