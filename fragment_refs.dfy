/**
 * A fragment reference: a signed 32-bit word that names another fragment by
 * its 1-based position when positive, and by a (negated) string-pool offset
 * otherwise.
 */
module FragmentRefs {
  import opened Wire
  import opened Strings

  datatype FragmentRef = Name(name: StringReference) | Index(idx: u32)

  /** `FragmentRef::new`. */
  function New(idx: i32): (r: FragmentRef)
    ensures r.Index? <==> idx > 0
    ensures r.Index? ==> r.idx == idx
    ensures r.Name? ==> r.name == StringReference(idx)
  {
    if idx > 0 then Index(idx) else Name(StringReference(idx))
  }

  /** A reference `New` can produce: an index that fits a positive i32, or a name at most 0. */
  predicate WellFormed(r: FragmentRef)
  {
    match r
    case Index(k) => 0 < k < 0x8000_0000
    case Name(n) => n.idx <= 0
  }

  /** The signed word a reference is stored as. */
  function Word(r: FragmentRef): i32
    requires WellFormed(r)
  {
    match r
    case Index(k) => k
    case Name(n) => n.idx
  }

  lemma NewWellFormed(idx: i32)
    ensures WellFormed(New(idx)) && Word(New(idx)) == idx
  {
  }

  function ParseFragmentRef(s: Bytes): (o: Outcome<FragmentRef>)
    ensures o.Failure? <==> |s| < 4
    ensures !o.Panic?
    ensures o.Done? ==> WellFormed(o.value) && s == LeI32(Word(o.value)) + o.rest
  {
    var w :- I32(s);
    Done(New(w.value), w.rest)
  }

  /** `FragmentRef::into_bytes`: a name as its i32, an index as its u32, both little-endian. */
  function FragmentRefBytes(r: FragmentRef): (b: Bytes)
    ensures |b| == 4
  {
    match r
    case Name(n) => StringReferenceBytes(n)
    case Index(k) => LeU32(k)
  }

  /** Serialising a well-formed reference writes its signed word. */
  lemma FragmentRefBytesWord(r: FragmentRef)
    requires WellFormed(r)
    ensures FragmentRefBytes(r) == LeI32(Word(r))
  {
  }

  lemma FragmentRefRoundTrip(r: FragmentRef, rest: Bytes)
    requires WellFormed(r)
    ensures ParseFragmentRef(FragmentRefBytes(r) + rest) == Done(r, rest)
  {
    I32RoundTrip(Word(r), rest);
  }

  /** Every four bytes read as a reference serialise back to themselves. */
  lemma FragmentRefReparse(s: Bytes)
    requires |s| >= 4
    ensures var o := ParseFragmentRef(s);
      o.Done? && s == FragmentRefBytes(o.value) + o.rest && |o.rest| == |s| - 4
  {
  }

  lemma FragmentRefCodec()
    ensures Complete(ParseFragmentRef, FragmentRefBytes, WellFormed)
    ensures Sound(ParseFragmentRef, FragmentRefBytes, WellFormed)
    ensures FixedWidth(ParseFragmentRef, 4)
  {
    forall r: FragmentRef, rest: Bytes | WellFormed(r)
      ensures ParseFragmentRef(FragmentRefBytes(r) + rest) == Done(r, rest)
    {
      FragmentRefRoundTrip(r, rest);
    }
  }

  // ---- fragment type identifiers (`FragmentParser::TYPE_ID`)

  const BmInfoId: u32 := 0x03
  const HierarchicalSpriteDefId: u32 := 0x10
  const TrackDefId: u32 := 0x12
  const ActorId: u32 := 0x15
  const LightDefId: u32 := 0x1b
  const RegionId: u32 := 0x22
  const DmSpriteDefId: u32 := 0x2c
  const DmTrackDefId: u32 := 0x2e
  const DmSpriteDef2Id: u32 := 0x36
  const DmTrackDef2Id: u32 := 0x37
}
