/**
 * The read-only views of `libeq_wld` over a parsed document: a mesh's
 * triangle indices, its collision indices, its primitives (runs of faces
 * sharing a material), its materials, and the reference chains from a
 * mesh to its animated vertices and from a material to its texture and the
 * texture's source file name.
 *
 * The views follow fragment types beyond the ten this model encodes: the
 * material palette (0x31), material definition (0x30), simple sprite
 * (0x05), simple sprite definition (0x04) and vertex-animation track
 * (0x2f). Those appear here with only their name and the references the
 * views follow; every other fragment is `Other`.
 */
module MeshViews {
  import opened Wire
  import opened Strings
  import opened FragmentRefs
  import opened WldDocument
  import FT = FragmentTable
  import M2 = DmSpriteDef2Fragment
  import B = BmInfoFragment
  import V2 = DmTrackDef2Fragment

  const MaterialPaletteType: u32 := 0x31
  const MaterialDefType: u32 := 0x30
  const SimpleSpriteType: u32 := 0x05
  const SimpleSpriteDefType: u32 := 0x04
  const DmTrackType: u32 := 0x2f
  const MeshType: u32 := 0x36
  const BmInfoType: u32 := 0x03
  const VerticesType: u32 := 0x37

  datatype Item =
    | Covered(fragment: FT.Fragment)
    | MaterialPalette(name_reference: StringReference, fragments: seq<FragmentRef>)
    | MaterialDef(name_reference: StringReference, reference: FragmentRef)
    | SimpleSprite(name_reference: StringReference, reference: FragmentRef)
    | SimpleSpriteDef(name_reference: StringReference, frame_references: seq<FragmentRef>)
    | DmTrack(name_reference: StringReference, reference: FragmentRef)
    | Other(type_id: u32, name_reference: StringReference)

  function ItemType(i: Item): u32
  {
    match i
    case Covered(f) => FT.TypeOf(f)
    case MaterialPalette(_, _) => MaterialPaletteType
    case MaterialDef(_, _) => MaterialDefType
    case SimpleSprite(_, _) => SimpleSpriteType
    case SimpleSpriteDef(_, _) => SimpleSpriteDefType
    case DmTrack(_, _) => DmTrackType
    case Other(t, _) => t
  }

  function ItemName(i: Item): StringReference
  {
    match i
    case Covered(f) => FT.NameOf(f)
    case Other(_, n) => n
    case MaterialPalette(n, _) => n
    case MaterialDef(n, _) => n
    case SimpleSprite(n, _) => n
    case SimpleSpriteDef(n, _) => n
    case DmTrack(n, _) => n
  }

  type Doc = WldDoc<Item>

  /** `WldDoc::get` for a reference typed with the fragment type `want`. */
  function Find(d: Doc, want: u32, r: FragmentRef): Option<Item>
  {
    GetFragment(d, ItemName, ItemType, want, r)
  }

  // ---------------------------------------------------------------------
  // Indices

  /** One face's three vertex indexes, widened to u32. */
  function Triangle(f: M2.FaceEntry2): seq<u32>
  {
    [f.vertex_indexes.0, f.vertex_indexes.1, f.vertex_indexes.2]
  }

  /** `Mesh::indices` (and `Primitive::indices` on a primitive's faces): every face's indexes, in order. */
  function Indices(faces: seq<M2.FaceEntry2>): seq<u32>
    decreases |faces|
  {
    if faces == [] then [] else Triangle(faces[0]) + Indices(faces[1..])
  }

  /** Three indices per face, face `k` at positions `3k`, `3k+1`, `3k+2`. */
  lemma {:induction false} IndicesShape(faces: seq<M2.FaceEntry2>)
    ensures |Indices(faces)| == 3 * |faces|
    ensures forall k :: 0 <= k < |faces| ==> Indices(faces)[3 * k..3 * k + 3] == Triangle(faces[k])
    decreases |faces|
  {
    if faces != [] {
      IndicesShape(faces[1..]);
      var r := Indices(faces);
      var t := Indices(faces[1..]);
      forall k | 0 <= k < |faces| ensures r[3 * k..3 * k + 3] == Triangle(faces[k]) {
        if k > 0 {
          assert r[3 * k..3 * k + 3] == t[3 * (k - 1)..3 * (k - 1) + 3];
          assert faces[k] == faces[1..][k - 1];
        }
      }
    }
  }

  /** The indices of two runs of faces are the indices of each, one after the other. */
  lemma {:induction false} IndicesAppend(a: seq<M2.FaceEntry2>, b: seq<M2.FaceEntry2>)
    ensures Indices(a + b) == Indices(a) + Indices(b)
    decreases |a|
  {
    if a != [] {
      assert (a + b)[0] == a[0] && (a + b)[1..] == a[1..] + b;
      IndicesAppend(a[1..], b);
      assert Indices(a + b) == Triangle(a[0]) + (Indices(a[1..]) + Indices(b));
    } else {
      assert a + b == b;
    }
  }

  // ---------------------------------------------------------------------
  // Collision indices

  /** `0x0010 & flags == 0`: the face takes part in collisions. */
  predicate Solid(f: M2.FaceEntry2)
  {
    (f.flags / 0x10) % 2 == 0
  }

  /** The `filter` of `collision_indices`. */
  function SolidFaces(faces: seq<M2.FaceEntry2>): seq<M2.FaceEntry2>
    decreases |faces|
  {
    if faces == [] then []
    else if Solid(faces[0]) then [faces[0]] + SolidFaces(faces[1..])
    else SolidFaces(faces[1..])
  }

  /** `Mesh::collision_indices`. */
  function CollisionIndices(faces: seq<M2.FaceEntry2>): seq<u32>
  {
    Indices(SolidFaces(faces))
  }

  /** The filter keeps exactly the solid faces, and keeps the order: it distributes over concatenation. */
  lemma {:induction false} SolidFacesSpec(a: seq<M2.FaceEntry2>, b: seq<M2.FaceEntry2>)
    ensures SolidFaces(a + b) == SolidFaces(a) + SolidFaces(b)
    ensures forall f :: f in SolidFaces(a) <==> f in a && Solid(f)
    ensures |SolidFaces(a)| <= |a|
    decreases |a|
  {
    if a != [] {
      assert (a + b)[0] == a[0] && (a + b)[1..] == a[1..] + b;
      SolidFacesSpec(a[1..], b);
      assert a == [a[0]] + a[1..];
      if Solid(a[0]) {
        assert SolidFaces(a + b) == [a[0]] + (SolidFaces(a[1..]) + SolidFaces(b));
      }
    } else {
      assert a + b == b;
    }
  }

  /** Collision indices of two runs are those of each in turn; with no non-solid face they are all the indices. */
  lemma CollisionIndicesSpec(a: seq<M2.FaceEntry2>, b: seq<M2.FaceEntry2>)
    ensures CollisionIndices(a + b) == CollisionIndices(a) + CollisionIndices(b)
    ensures (forall j :: 0 <= j < |a| ==> Solid(a[j])) ==> CollisionIndices(a) == Indices(a)
    ensures (forall j :: 0 <= j < |a| ==> !Solid(a[j])) ==> CollisionIndices(a) == []
  {
    SolidFacesSpec(a, b);
    IndicesAppend(SolidFaces(a), SolidFaces(b));
    AllSolid(a);
    NoneSolid(a);
  }

  lemma {:induction false} AllSolid(a: seq<M2.FaceEntry2>)
    ensures (forall j :: 0 <= j < |a| ==> Solid(a[j])) ==> SolidFaces(a) == a
    decreases |a|
  {
    if a != [] {
      AllSolid(a[1..]);
      if forall j :: 0 <= j < |a| ==> Solid(a[j]) {
        assert forall j :: 0 <= j < |a[1..]| ==> a[1..][j] == a[j + 1];
        assert [a[0]] + a[1..] == a;
      }
    }
  }

  lemma {:induction false} NoneSolid(a: seq<M2.FaceEntry2>)
    ensures (forall j :: 0 <= j < |a| ==> !Solid(a[j])) ==> SolidFaces(a) == []
    decreases |a|
  {
    if a != [] {
      NoneSolid(a[1..]);
      if forall j :: 0 <= j < |a| ==> !Solid(a[j]) {
        assert forall j :: 0 <= j < |a[1..]| ==> a[1..][j] == a[j + 1];
      }
    }
  }

  // ---------------------------------------------------------------------
  // Primitives

  /** A run of faces drawn with one material: its position among the runs, its faces and the material's slot. */
  datatype Primitive = Primitive(index: nat, faces: seq<M2.FaceEntry2>, material_idx: nat)

  /**
   * What `Mesh::primitives` returns for the groups from `index` on, the
   * next run starting at face `pos`: each `(count, material)` group takes
   * the next `count` faces, and a run that would pass the last face panics
   * (`faces.get(batch).expect(..)`).
   */
  function Batches(groups: seq<(u16, u16)>, faces: seq<M2.FaceEntry2>, pos: nat, index: nat): Fallible<seq<Primitive>>
    decreases |groups|
  {
    if groups == [] then Returns([])
    else
      var next := pos + groups[0].0;
      if next > |faces| then Panics
      else Prefix([Primitive(index, faces[pos..next], groups[0].1)], Batches(groups[1..], faces, next, index + 1))
  }

  function Prefix(acc: seq<Primitive>, r: Fallible<seq<Primitive>>): Fallible<seq<Primitive>>
  {
    match r
    case Panics => Panics
    case Returns(ps) => Returns(acc + ps)
  }

  lemma PrefixPrefix(a: seq<Primitive>, b: seq<Primitive>, r: Fallible<seq<Primitive>>)
    ensures Prefix(a, Prefix(b, r)) == Prefix(a + b, r)
  {
    if r.Returns? {
      assert a + (b + r.value) == (a + b) + r.value;
    }
  }

  /** `Mesh::primitives`: the running position `pos` advances by each group's count. */
  method Primitives(m: M2.DmSpriteDef2) returns (r: Fallible<seq<Primitive>>)
    ensures r == Batches(m.face_material_groups, m.faces, 0, 0)
  {
    var groups := m.face_material_groups;
    var pos: nat := 0;
    var acc: seq<Primitive> := [];
    var i := 0;
    var whole := Batches(groups, m.faces, 0, 0);
    if whole.Returns? {
      assert [] + whole.value == whole.value;
    }
    while i < |groups|
      invariant 0 <= i <= |groups|
      invariant Batches(groups, m.faces, 0, 0) == Prefix(acc, Batches(groups[i..], m.faces, pos, i))
    {
      var count := groups[i].0;
      var next := pos + count;
      assert groups[i..][0] == groups[i] && groups[i..][1..] == groups[i + 1..];
      if next > |m.faces| {
        return Panics;
      }
      var p := Primitive(i, m.faces[pos..next], groups[i].1);
      PrefixPrefix(acc, [p], Batches(groups[i + 1..], m.faces, next, i + 1));
      acc := acc + [p];
      pos := next;
      i := i + 1;
    }
    assert acc + [] == acc;
    return Returns(acc);
  }

  /** The faces the groups claim: the sum of their counts. */
  function Total(groups: seq<(u16, u16)>): nat
    decreases |groups|
  {
    if groups == [] then 0 else groups[0].0 + Total(groups[1..])
  }

  lemma {:induction false} TotalAppend(a: seq<(u16, u16)>, b: seq<(u16, u16)>)
    ensures Total(a + b) == Total(a) + Total(b)
    decreases |a|
  {
    if a != [] {
      assert (a + b)[0] == a[0] && (a + b)[1..] == a[1..] + b;
      TotalAppend(a[1..], b);
    } else {
      assert a + b == b;
    }
  }

  /** The runs panic exactly when the counts add up to more faces than follow `pos`. */
  lemma {:induction false} BatchesPanics(groups: seq<(u16, u16)>, faces: seq<M2.FaceEntry2>, pos: nat, index: nat)
    requires pos <= |faces|
    ensures Batches(groups, faces, pos, index).Panics? <==> pos + Total(groups) > |faces|
    decreases |groups|
  {
    if groups != [] && pos + groups[0].0 <= |faces| {
      BatchesPanics(groups[1..], faces, pos + groups[0].0, index + 1);
    }
  }

  /** The counts before group `k` are the first count and the counts of the rest before it. */
  lemma TotalShift(groups: seq<(u16, u16)>, k: nat)
    requires 0 < k <= |groups|
    ensures Total(groups[..k]) == groups[0].0 + Total(groups[1..][..k - 1])
  {
    TotalAppend([groups[0]], groups[1..][..k - 1]);
    assert groups[..k] == [groups[0]] + groups[1..][..k - 1];
    assert [groups[0]][1..] == groups[..0];
  }

  /**
   * Otherwise there is one run per group, run `k` holding the `k`-th
   * group's count of faces right after the faces of the runs before it,
   * with the group's material slot.
   */
  lemma {:induction false} BatchesContents(groups: seq<(u16, u16)>, faces: seq<M2.FaceEntry2>, pos: nat, index: nat)
    requires Batches(groups, faces, pos, index).Returns?
    ensures |Batches(groups, faces, pos, index).value| == |groups|
    ensures forall k :: 0 <= k < |groups| ==>
      pos + Total(groups[..k]) + groups[k].0 <= |faces| &&
      Batches(groups, faces, pos, index).value[k] ==
        Primitive(index + k, faces[pos + Total(groups[..k])..pos + Total(groups[..k]) + groups[k].0], groups[k].1)
    decreases |groups|
  {
    if groups != [] {
      var next := pos + groups[0].0;
      var ps := Batches(groups, faces, pos, index).value;
      var t := Batches(groups[1..], faces, next, index + 1);
      BatchesContents(groups[1..], faces, next, index + 1);
      assert ps == [Primitive(index, faces[pos..next], groups[0].1)] + t.value;
      forall k | 0 <= k < |groups|
        ensures pos + Total(groups[..k]) + groups[k].0 <= |faces| &&
          ps[k] == Primitive(index + k, faces[pos + Total(groups[..k])..pos + Total(groups[..k]) + groups[k].0], groups[k].1)
      {
        if k > 0 {
          TotalShift(groups, k);
          assert groups[k] == groups[1..][k - 1];
          assert ps[k] == t.value[k - 1];
        } else {
          assert groups[..0] == [];
        }
      }
    }
  }

  /** The faces of all runs. */
  function FacesOf(ps: seq<Primitive>): seq<M2.FaceEntry2>
    decreases |ps|
  {
    if ps == [] then [] else ps[0].faces + FacesOf(ps[1..])
  }

  /** The runs, laid end to end, are the faces the groups claim: they partition that prefix of the faces. */
  lemma {:induction false} BatchesCover(groups: seq<(u16, u16)>, faces: seq<M2.FaceEntry2>, pos: nat, index: nat)
    requires pos <= |faces|
    requires Batches(groups, faces, pos, index).Returns?
    ensures pos <= pos + Total(groups) <= |faces|
    ensures FacesOf(Batches(groups, faces, pos, index).value) == faces[pos..pos + Total(groups)]
    decreases |groups|
  {
    if groups != [] {
      var next := pos + groups[0].0;
      BatchesCover(groups[1..], faces, next, index + 1);
      var ps := Batches(groups, faces, pos, index).value;
      var t := Batches(groups[1..], faces, next, index + 1);
      assert t.Returns? && ps == [Primitive(index, faces[pos..next], groups[0].1)] + t.value;
      assert ps[0].faces == faces[pos..next] && ps[1..] == t.value;
      assert faces[pos..pos + Total(groups)] == faces[pos..next] + faces[next..next + Total(groups[1..])];
    }
  }

  /** The indices of all primitives together are the mesh's indices over the faces the groups claim. */
  lemma {:induction false} PrimitiveIndices(ps: seq<Primitive>)
    ensures Indices(FacesOf(ps)) == Flatten(ps)
    decreases |ps|
  {
    if ps != [] {
      IndicesAppend(ps[0].faces, FacesOf(ps[1..]));
      PrimitiveIndices(ps[1..]);
    }
  }

  /**
   * Taken together, a mesh's primitives draw the faces its groups claim,
   * in order; when the groups claim every face, the primitives' indices
   * are exactly the mesh's indices.
   */
  lemma PrimitivesCoverMesh(m: M2.DmSpriteDef2)
    requires Batches(m.face_material_groups, m.faces, 0, 0).Returns?
    ensures Total(m.face_material_groups) <= |m.faces|
    ensures Flatten(Batches(m.face_material_groups, m.faces, 0, 0).value) == Indices(m.faces[..Total(m.face_material_groups)])
    ensures Total(m.face_material_groups) == |m.faces| ==>
      Flatten(Batches(m.face_material_groups, m.faces, 0, 0).value) == Indices(m.faces)
  {
    var ps := Batches(m.face_material_groups, m.faces, 0, 0).value;
    BatchesCover(m.face_material_groups, m.faces, 0, 0);
    PrimitiveIndices(ps);
    assert m.faces[0..Total(m.face_material_groups)] == m.faces[..Total(m.face_material_groups)];
    assert m.faces[..|m.faces|] == m.faces;
  }

  /** Every primitive's `indices`, one after the other. */
  function Flatten(ps: seq<Primitive>): seq<u32>
    decreases |ps|
  {
    if ps == [] then [] else Indices(ps[0].faces) + Flatten(ps[1..])
  }

  // ---------------------------------------------------------------------
  // Materials

  /** Each material reference resolved, panicking on the first that is not (`.expect("Invalid material reference")`). */
  function ResolveAll(d: Doc, refs: seq<FragmentRef>): Fallible<seq<Item>>
    decreases |refs|
  {
    if refs == [] then Returns([])
    else
      match Find(d, MaterialDefType, refs[0])
      case None => Panics
      case Some(x) =>
        match ResolveAll(d, refs[1..])
        case Panics => Panics
        case Returns(xs) => Returns([x] + xs)
  }

  /** `Mesh::materials`. */
  function Materials(d: Doc, m: M2.DmSpriteDef2): Fallible<seq<Item>>
  {
    match Find(d, MaterialPaletteType, m.material_list_ref)
    case Some(MaterialPalette(_, refs)) => ResolveAll(d, refs)
    case _ => Panics
  }

  lemma {:induction false} ResolveAllSpec(d: Doc, refs: seq<FragmentRef>)
    ensures var r := ResolveAll(d, refs);
      (r.Returns? <==> forall j :: 0 <= j < |refs| ==> Find(d, MaterialDefType, refs[j]).Some?) &&
      (r.Returns? ==> |r.value| == |refs| && forall j :: 0 <= j < |refs| ==> r.value[j] == Find(d, MaterialDefType, refs[j]).value)
    decreases |refs|
  {
    if refs != [] {
      ResolveAllSpec(d, refs[1..]);
      assert forall j :: 1 <= j < |refs| ==> refs[1..][j - 1] == refs[j];
    }
  }

  /**
   * The materials panic unless the palette reference resolves to a material
   * palette and every one of its references resolves to a material; then
   * they are those materials, in the palette's order.
   */
  lemma MaterialsSpec(d: Doc, m: M2.DmSpriteDef2)
    ensures var p := Find(d, MaterialPaletteType, m.material_list_ref); var r := Materials(d, m);
      (r.Returns? <==> (p.Some? && p.value.MaterialPalette? &&
        forall j :: 0 <= j < |p.value.fragments| ==> Find(d, MaterialDefType, p.value.fragments[j]).Some?)) &&
      (r.Returns? ==> (|r.value| == |p.value.fragments| &&
        forall j :: 0 <= j < |r.value| ==> r.value[j] == Find(d, MaterialDefType, p.value.fragments[j]).value))
  {
    var p := Find(d, MaterialPaletteType, m.material_list_ref);
    if p.Some? && p.value.MaterialPalette? {
      ResolveAllSpec(d, p.value.fragments);
    }
  }

  /** `Primitive::material`: `materials().remove(material_idx)`, which panics past the end. */
  function PrimitiveMaterial(d: Doc, m: M2.DmSpriteDef2, p: Primitive): Fallible<Item>
  {
    match Materials(d, m)
    case Panics => Panics
    case Returns(ms) => if p.material_idx < |ms| then Returns(ms[p.material_idx]) else Panics
  }

  /** A primitive's material is the palette's `material_idx`-th entry, resolved; anything else panics. */
  lemma PrimitiveMaterialSpec(d: Doc, m: M2.DmSpriteDef2, p: Primitive)
    ensures var pal := Find(d, MaterialPaletteType, m.material_list_ref); var r := PrimitiveMaterial(d, m, p);
      r.Returns? ==> (pal.Some? && pal.value.MaterialPalette? && p.material_idx < |pal.value.fragments| &&
        Find(d, MaterialDefType, pal.value.fragments[p.material_idx]).Some? &&
        r.value == Find(d, MaterialDefType, pal.value.fragments[p.material_idx]).value)
    ensures Materials(d, m).Returns? ==> (PrimitiveMaterial(d, m, p).Returns? <==> p.material_idx < |Materials(d, m).value|)
  {
    MaterialsSpec(d, m);
  }

  // ---------------------------------------------------------------------
  // Two-hop lookups

  /** `Mesh::animated_vertices`: the mesh's track reference, then the track's vertex frames. */
  function AnimatedVertices(d: Doc, m: M2.DmSpriteDef2): Option<V2.DmTrackDef2>
  {
    match Find(d, DmTrackType, m.animation_ref)
    case Some(DmTrack(_, next)) =>
      (match Find(d, VerticesType, next)
       case Some(Covered(f)) => if f.DmTrackDef2? then Some(f.dm_track_def2) else None
       case _ => None)
    case _ => None
  }

  /** `Material::base_color_texture`: the material's sprite reference, then the sprite's definition. */
  function BaseColorTexture(d: Doc, material: Item): Option<Item>
    requires material.MaterialDef?
  {
    match Find(d, SimpleSpriteType, material.reference)
    case Some(SimpleSprite(_, next)) =>
      (match Find(d, SimpleSpriteDefType, next)
       case Some(def) => if def.SimpleSpriteDef? then Some(def) else None
       case None => None)
    case _ => None
  }

  /**
   * With the mesh's reference by index: there are animated vertices only
   * when it names a track; and when that track in turn refers by index,
   * they are found exactly when that index names vertex frames, and they
   * are those frames.
   */
  lemma AnimatedVerticesByIndex(d: Doc, m: M2.DmSpriteDef2, k: u32)
    requires m.animation_ref == Index(k)
    ensures AnimatedVertices(d, m).Some? ==> 1 <= k <= |d.fragments| && d.fragments[k - 1].DmTrack?
    ensures 1 <= k <= |d.fragments| && d.fragments[k - 1].DmTrack? && d.fragments[k - 1].reference.Index? ==>
      var j := d.fragments[k - 1].reference.idx;
      (AnimatedVertices(d, m).Some? <==>
        1 <= j <= |d.fragments| && d.fragments[j - 1].Covered? && d.fragments[j - 1].fragment.DmTrackDef2?) &&
      (AnimatedVertices(d, m).Some? ==> AnimatedVertices(d, m).value == d.fragments[j - 1].fragment.dm_track_def2)
  {
    IndexLookup(d, ItemName, ItemType, DmTrackType, k);
    var first := Find(d, DmTrackType, Index(k));
    if first.Some? && first.value.DmTrack? && first.value.reference.Index? {
      IndexLookup(d, ItemName, ItemType, VerticesType, first.value.reference.idx);
    }
  }

  /** Either hop failing leaves the material without a texture; both succeeding gives the sprite definition. */
  lemma BaseColorTextureSpec(d: Doc, material: Item)
    requires material.MaterialDef?
    ensures var first := Find(d, SimpleSpriteType, material.reference);
      BaseColorTexture(d, material).Some? <==>
        first.Some? && first.value.SimpleSprite? &&
        Find(d, SimpleSpriteDefType, first.value.reference).Some? &&
        Find(d, SimpleSpriteDefType, first.value.reference).value.SimpleSpriteDef?
    ensures BaseColorTexture(d, material).Some? ==>
      ItemType(BaseColorTexture(d, material).value) == SimpleSpriteDefType
  {
  }

  // ---------------------------------------------------------------------
  // Texture sources

  /** An upper-case letter of Windows-1252: A-Z, Š, Œ, Ž, Ÿ and À-Þ except ×. */
  predicate IsUpper(b: byte)
  {
    (0x41 <= b <= 0x5a) || (0xc0 <= b <= 0xde && b != 0xd7) || b == 0x8a || b == 0x8c || b == 0x8e || b == 0x9f
  }

  /** The lower-case form of one Windows-1252 character (`char::to_lowercase` on its decoded form). */
  function LowerByte(b: byte): byte
  {
    if (0x41 <= b <= 0x5a) || (0xc0 <= b <= 0xde && b != 0xd7) then b + 0x20
    else if b == 0x8a || b == 0x8c || b == 0x8e then b + 0x10
    else if b == 0x9f then 0xff
    else b
  }

  /** `str::to_lowercase` on a Windows-1252 name. */
  function Lower(s: Bytes): Bytes
  {
    seq(|s|, i requires 0 <= i < |s| => LowerByte(s[i]))
  }

  /**
   * Lowering keeps the length, leaves no upper-case letter, leaves every
   * other character alone, and lowering twice is lowering once.
   */
  lemma LowerSpec(s: Bytes)
    ensures |Lower(s)| == |s|
    ensures forall i :: 0 <= i < |s| ==> !IsUpper(Lower(s)[i])
    ensures forall i :: 0 <= i < |s| && !IsUpper(s[i]) ==> Lower(s)[i] == s[i]
    ensures Lower(Lower(s)) == Lower(s)
  {
  }

  /** The lowered names one frame reference contributes: a bitmap's entries, or nothing when it does not resolve. */
  function FrameSources(d: Doc, r: FragmentRef): seq<Bytes>
  {
    match Find(d, BmInfoType, r)
    case Some(Covered(f)) =>
      if f.BmInfo? then seq(|f.bm_info.entries|, i requires 0 <= i < |f.bm_info.entries| => Lower(f.bm_info.entries[i].file_name))
      else []
    case _ => []
  }

  /** `Texture::iter_sources`: the `flat_map` over the frame references. */
  function Sources(d: Doc, refs: seq<FragmentRef>): seq<Bytes>
    decreases |refs|
  {
    if refs == [] then [] else FrameSources(d, refs[0]) + Sources(d, refs[1..])
  }

  /** `Texture::source`: the first of the sources. */
  function Source(d: Doc, texture: Item): Option<Bytes>
    requires texture.SimpleSpriteDef?
  {
    var all := Sources(d, texture.frame_references);
    if |all| == 0 then None else Some(all[0])
  }

  /**
   * The source is missing exactly when no frame reference contributes a
   * name; otherwise it is the first name of the first frame reference that
   * contributes one, lowered.
   */
  lemma {:induction false} SourcesSpec(d: Doc, refs: seq<FragmentRef>)
    ensures Sources(d, refs) == [] <==> forall j :: 0 <= j < |refs| ==> FrameSources(d, refs[j]) == []
    ensures forall j :: 0 <= j < |refs| && FrameSources(d, refs[j]) != [] ==>
      (forall i :: 0 <= i < j ==> FrameSources(d, refs[i]) == []) ==> Sources(d, refs)[0] == FrameSources(d, refs[j])[0]
    decreases |refs|
  {
    if refs != [] {
      SourcesSpec(d, refs[1..]);
      assert forall j :: 1 <= j < |refs| ==> refs[1..][j - 1] == refs[j];
    }
  }

  /** A frame the texture names by index contributes the lowered names of the bitmap it points to. */
  lemma FrameSourcesByIndex(d: Doc, k: u32)
    requires 1 <= k <= |d.fragments| && d.fragments[k - 1].Covered? && d.fragments[k - 1].fragment.BmInfo?
    ensures var b := d.fragments[k - 1].fragment.bm_info;
      |FrameSources(d, Index(k))| == |b.entries| &&
      forall i :: 0 <= i < |b.entries| ==> FrameSources(d, Index(k))[i] == Lower(b.entries[i].file_name)
  {
    IndexLookup(d, ItemName, ItemType, BmInfoType, k);
  }
}
