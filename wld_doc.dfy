/**
 * A `.wld` document: a 28-byte header, the encoded string pool, then
 * `fragment_count` fragments, each framed as size, type id and body.
 *
 * The document layer is generic in the fragment type `F`: the body decoder
 * (the `parse_body` dispatch), each fragment's encoder, type id and name
 * reference are parameters. `FragmentTable` instantiates them with the
 * fragments this model covers.
 */
module WldDocument {
  import opened Wire
  import opened Strings
  import opened FragmentRefs

  // ---- the file header: seven little-endian u32 words

  datatype WldHeader = WldHeader(magic: u32, version: u32, fragment_count: u32, region_count: u32,
                                 max_object_bytes: u32, string_hash_size: u32, string_count: u32)

  const WldHeaderSize: nat := 28

  /** `WldHeader::parse`. */
  function ParseWldHeader(s: Bytes): Outcome<WldHeader>
  {
    ParseWldHeaderWith(Word4, Word3, s)
  }

  function ParseWldHeaderWith(quad: Bytes -> Outcome<(u32, u32, u32, u32)>, triple: Bytes -> Outcome<(u32, u32, u32)>,
                              s: Bytes): Outcome<WldHeader>
  {
    var a :- quad(s);
    var b :- triple(a.rest);
    Done(WldHeader(a.value.0, a.value.1, a.value.2, a.value.3, b.value.0, b.value.1, b.value.2), b.rest)
  }

  /** `WldHeader::into_bytes`: the seven words in declaration order. */
  function WldHeaderBytes(h: WldHeader): (b: Bytes)
    ensures |b| == WldHeaderSize
  {
    Word4Bytes((h.magic, h.version, h.fragment_count, h.region_count)) +
    Word3Bytes((h.max_object_bytes, h.string_hash_size, h.string_count))
  }

  lemma WldHeaderRoundTripWith(quad: Bytes -> Outcome<(u32, u32, u32, u32)>, triple: Bytes -> Outcome<(u32, u32, u32)>,
                               h: WldHeader, rest: Bytes)
    requires Complete(quad, Word4Bytes, Any) && Complete(triple, Word3Bytes, Any)
    ensures ParseWldHeaderWith(quad, triple, WldHeaderBytes(h) + rest) == Done(h, rest)
  {
    var a := (h.magic, h.version, h.fragment_count, h.region_count);
    var b := (h.max_object_bytes, h.string_hash_size, h.string_count);
    var t := Word3Bytes(b) + rest;
    Nest2(Word4Bytes(a), Word3Bytes(b), rest);
    CompleteAt(quad, Word4Bytes, Any, a, t);
    CompleteAt(triple, Word3Bytes, Any, b, rest);
  }

  lemma WldHeaderSoundWith(quad: Bytes -> Outcome<(u32, u32, u32, u32)>, triple: Bytes -> Outcome<(u32, u32, u32)>,
                           s: Bytes)
    requires Sound(quad, Word4Bytes, Any) && Sound(triple, Word3Bytes, Any)
    ensures var o := ParseWldHeaderWith(quad, triple, s);
      o.Done? ==> s == WldHeaderBytes(o.value) + o.rest
  {
    var o := ParseWldHeaderWith(quad, triple, s);
    if o.Done? {
      var a := quad(s);
      SoundAt(quad, Word4Bytes, Any, s);
      SoundAt(triple, Word3Bytes, Any, a.rest);
      var b := triple(a.rest);
      Nest2(Word4Bytes(a.value), Word3Bytes(b.value), b.rest);
    }
  }

  /** The header parses when both word groups do, and leaves what the second leaves. */
  lemma WldHeaderStepsWith(quad: Bytes -> Outcome<(u32, u32, u32, u32)>, triple: Bytes -> Outcome<(u32, u32, u32)>,
                           s: Bytes)
    ensures var o := ParseWldHeaderWith(quad, triple, s);
      (o.Done? <==> quad(s).Done? && triple(quad(s).rest).Done?) &&
      (o.Failure? <==> quad(s).Failure? || (quad(s).Done? && triple(quad(s).rest).Failure?)) &&
      (o.Done? ==> o.rest == triple(quad(s).rest).rest)
  {
  }

  /** The header reads back what it writes and re-encodes what it read. */
  lemma WldHeaderCodec()
    ensures Complete(ParseWldHeader, WldHeaderBytes, Any) && Sound(ParseWldHeader, WldHeaderBytes, Any)
  {
    Word4Codec();
    Word3Codec();
    forall h: WldHeader, rest: Bytes ensures ParseWldHeader(WldHeaderBytes(h) + rest) == Done(h, rest) {
      WldHeaderRoundTripWith(Word4, Word3, h, rest);
    }
    forall s: Bytes ensures ParseWldHeader(s).Done? ==> s == WldHeaderBytes(ParseWldHeader(s).value) + ParseWldHeader(s).rest
    {
      WldHeaderSoundWith(Word4, Word3, s);
    }
  }

  /** The header takes exactly 28 bytes, fails on anything shorter and never panics. */
  lemma WldHeaderRest(input: Bytes)
    ensures !ParseWldHeader(input).Panic?
    ensures ParseWldHeader(input).Done? <==> |input| >= WldHeaderSize
    ensures ParseWldHeader(input).Done? ==> ParseWldHeader(input).rest == input[WldHeaderSize..]
  {
    WldHeaderStepsWith(Word4, Word3, input);
    Word4Rest(input);
    if Word4(input).Done? {
      Word3Rest(Word4(input).rest);
    }
  }

  /**
   * A parser that consumes at least one byte and leaves a suffix of its
   * input: what `input.len() - remaining.len()` measures.
   */
  ghost predicate Consumes<T(!new)>(p: Bytes -> Outcome<T>)
  {
    forall s: Bytes :: p(s).Done? ==> |p(s).rest| < |s| && s[|s| - |p(s).rest|..] == p(s).rest
  }

  lemma SoundConsumes<T(!new)>(p: Bytes -> Outcome<T>, e: T -> Bytes, w: T -> bool)
    requires Sound(p, e, w) && forall x: T :: w(x) ==> |e(x)| > 0
    ensures Consumes(p)
  {
    forall s: Bytes | p(s).Done? ensures |p(s).rest| < |s| && s[|s| - |p(s).rest|..] == p(s).rest {
      assert s == e(p(s).value) + p(s).rest;
      assert s[|e(p(s).value)|..] == p(s).rest;
    }
  }

  // ---- fragment framing

  datatype FragmentHeader = FragmentHeader(size: u32, fragment_type: u32, field_data: Bytes)

  /** `FragmentHeader::parse`: size, type id, then `size` bytes of body. */
  function ParseFragmentHeader(s: Bytes): Outcome<FragmentHeader>
  {
    ParseFragmentHeaderWith(Word2, s)
  }

  function ParseFragmentHeaderWith(pair: Bytes -> Outcome<(u32, u32)>, s: Bytes): Outcome<FragmentHeader>
  {
    var w :- pair(s);
    var data :- Take(w.value.0, w.rest);
    Done(FragmentHeader(w.value.0, w.value.1, data.value), data.rest)
  }

  /** `FragmentHeader::into_bytes`: size and type id, little-endian, then the body. */
  function FragmentHeaderBytes(h: FragmentHeader): Bytes
  {
    Word2Bytes((h.size, h.fragment_type)) + h.field_data
  }

  predicate FragmentHeaderWellFormed(h: FragmentHeader)
  {
    |h.field_data| == h.size as int
  }

  lemma FragmentHeaderRoundTripWith(pair: Bytes -> Outcome<(u32, u32)>, h: FragmentHeader, rest: Bytes)
    requires Complete(pair, Word2Bytes, Any)
    requires FragmentHeaderWellFormed(h)
    ensures ParseFragmentHeaderWith(pair, FragmentHeaderBytes(h) + rest) == Done(h, rest)
  {
    var t := h.field_data + rest;
    Nest2(Word2Bytes((h.size, h.fragment_type)), h.field_data, rest);
    CompleteAt(pair, Word2Bytes, Any, (h.size, h.fragment_type), t);
    TakeRoundTrip(h.field_data, rest);
  }

  lemma FragmentHeaderSoundWith(pair: Bytes -> Outcome<(u32, u32)>, s: Bytes)
    requires Sound(pair, Word2Bytes, Any)
    ensures var o := ParseFragmentHeaderWith(pair, s);
      o.Done? ==> FragmentHeaderWellFormed(o.value) && s == FragmentHeaderBytes(o.value) + o.rest
  {
    var o := ParseFragmentHeaderWith(pair, s);
    if o.Done? {
      SoundAt(pair, Word2Bytes, Any, s);
      var w := pair(s);
      var data := Take(w.value.0, w.rest);
      Nest2(Word2Bytes(w.value), data.value, data.rest);
    }
  }

  /** A fragment header fails exactly when the input is shorter than 8 bytes plus the size it declares. */
  lemma FragmentHeaderFailsWith(pair: Bytes -> Outcome<(u32, u32)>, s: Bytes)
    requires FixedWidth(pair, 8)
    ensures var o := ParseFragmentHeaderWith(pair, s);
      !o.Panic? && (o.Failure? <==> |s| < 8 || |s| < 8 + pair(s).value.0)
  {
    FixedWidthAt(pair, 8, s);
  }

  lemma FragmentHeaderCodec()
    ensures Complete(ParseFragmentHeader, FragmentHeaderBytes, FragmentHeaderWellFormed)
    ensures Sound(ParseFragmentHeader, FragmentHeaderBytes, FragmentHeaderWellFormed)
  {
    Word2Codec();
    forall h: FragmentHeader, rest: Bytes | FragmentHeaderWellFormed(h)
      ensures ParseFragmentHeader(FragmentHeaderBytes(h) + rest) == Done(h, rest)
    {
      FragmentHeaderRoundTripWith(Word2, h, rest);
    }
    forall s: Bytes ensures ParseFragmentHeader(s).Done? ==>
      FragmentHeaderWellFormed(ParseFragmentHeader(s).value) &&
      s == FragmentHeaderBytes(ParseFragmentHeader(s).value) + ParseFragmentHeader(s).rest
    {
      FragmentHeaderSoundWith(Word2, s);
    }
  }

  lemma FragmentHeaderConsumes()
    ensures Consumes(ParseFragmentHeader)
  {
    FragmentHeaderCodec();
    SoundConsumes(ParseFragmentHeader, FragmentHeaderBytes, FragmentHeaderWellFormed);
  }

  /** `FragmentHeader::parse` never panics, and fails exactly on an input too short for its declared size. */
  lemma FragmentHeaderFails(s: Bytes)
    ensures !ParseFragmentHeader(s).Panic?
    ensures ParseFragmentHeader(s).Failure? <==> |s| < 8 || |s| < 8 + Word2(s).value.0
  {
    Word2Width();
    FragmentHeaderFailsWith(Word2, s);
  }

  // ---- body dispatch

  /** The `parse_body` match: a type id the table does not list gives `None`. */
  type Decoder<F> = (u32, Bytes) -> Option<Outcome<F>>

  datatype DocError = Malformed | ParseFragment(index: nat, header: FragmentHeader)
                    | UnknownFragment(index: nat, header: FragmentHeader)

  datatype Body<F> = Parsed(fragment: F) | Rejected(error: DocError)

  /**
   * `FragmentHeader::parse_body`: decode the body by its type id, keeping
   * the fragment and dropping whatever input the decoder left over.
   */
  function ParseBody<F>(decode: Decoder<F>, h: FragmentHeader, index: nat): Fallible<Body<F>>
  {
    match decode(h.fragment_type, h.field_data)
    case None => Returns(Rejected(UnknownFragment(index, h)))
    case Some(Done(f, _)) => Returns(Parsed(f))
    case Some(Failure) => Returns(Rejected(ParseFragment(index, h)))
    case Some(Panic) => Panics
  }

  /**
   * Every body parsed in order (`enumerate().map(parse_body)`), split
   * into the fragments and the errors (`partition_map`).
   */
  function ParseBodies<F>(decode: Decoder<F>, hs: seq<FragmentHeader>, index: nat): Fallible<(seq<F>, seq<DocError>)>
    decreases |hs|
  {
    if hs == [] then Returns(([], []))
    else
      match ParseBody(decode, hs[0], index)
      case Panics => Panics
      case Returns(b) =>
        match ParseBodies(decode, hs[1..], index + 1)
        case Panics => Panics
        case Returns(t) => if b.Parsed? then Returns(([b.fragment] + t.0, t.1)) else Returns((t.0, [b.error] + t.1))
  }

  /**
   * Every body lands on one side: fragments and errors together number the
   * headers, and with no error the fragments are the bodies' values.
   */
  lemma {:induction false} ParseBodiesPartition<F>(decode: Decoder<F>, hs: seq<FragmentHeader>, index: nat)
    ensures var r := ParseBodies(decode, hs, index);
      r.Returns? ==> (|r.value.0| + |r.value.1| == |hs| &&
        (r.value.1 == [] ==> forall j :: 0 <= j < |hs| ==> ParseBody(decode, hs[j], index + j) == Returns(Parsed(r.value.0[j]))))
    decreases |hs|
  {
    if hs != [] {
      ParseBodiesPartition(decode, hs[1..], index + 1);
      var r := ParseBodies(decode, hs, index);
      if r.Returns? && r.value.1 == [] {
        var t := ParseBodies(decode, hs[1..], index + 1).value;
        forall j | 0 <= j < |hs| ensures ParseBody(decode, hs[j], index + j) == Returns(Parsed(r.value.0[j])) {
          if j > 0 {
            assert hs[j] == hs[1..][j - 1];
            assert r.value.0[j] == t.0[j - 1];
          }
        }
      }
    }
  }

  /** A body that cannot be decoded lands among the errors, so the document is rejected. */
  lemma {:induction false} ParseBodiesRejects<F>(decode: Decoder<F>, hs: seq<FragmentHeader>, index: nat, j: nat)
    requires j < |hs| && ParseBody(decode, hs[j], index + j).Returns? && ParseBody(decode, hs[j], index + j).value.Rejected?
    ensures var r := ParseBodies(decode, hs, index);
      r.Returns? ==> ParseBody(decode, hs[j], index + j).value.error in r.value.1
    decreases |hs|
  {
    if j > 0 {
      assert hs[1..][j - 1] == hs[j];
      ParseBodiesRejects(decode, hs[1..], index + 1, j - 1);
    }
  }

  // ---- the document

  datatype WldDoc<F> = WldDoc(header: WldHeader, strings: StringHash, fragments: seq<F>)

  datatype Result<T> = Ok(value: T) | Err(errors: seq<DocError>)

  /** The framing of a document before any body is decoded. */
  datatype Layout = Layout(header: WldHeader, pool: Bytes, headers: seq<FragmentHeader>)

  /** The header, the string pool it sizes and the fragment headers it counts. */
  function ParseLayout(input: Bytes): (r: Option<Layout>)
    ensures r.Some? ==> (|r.value.pool| == r.value.header.string_hash_size as int &&
      |r.value.headers| == r.value.header.fragment_count as int)
  {
    ParseLayoutWith(ParseWldHeader, ParseFragmentHeader, input)
  }

  function ParseLayoutWith(header: Bytes -> Outcome<WldHeader>, frame: Bytes -> Outcome<FragmentHeader>, input: Bytes)
    : (r: Option<Layout>)
    ensures r.Some? ==> (|r.value.pool| == r.value.header.string_hash_size as int &&
      |r.value.headers| == r.value.header.fragment_count as int)
  {
    var h := header(input);
    if !h.Done? then None
    else
      var pool := Take(h.value.string_hash_size, h.rest);
      if !pool.Done? then None
      else
        var hs := Many(frame, h.value.fragment_count, pool.rest);
        if !hs.Done? then None else Some(Layout(h.value, pool.value, hs.value))
  }

  /** Every body decoded; any error rejects the document with all the errors. */
  function Assemble<F>(decode: Decoder<F>, l: Layout): Fallible<Result<WldDoc<F>>>
  {
    match ParseBodies(decode, l.headers, 0)
    case Panics => Panics
    case Returns(r) =>
      if |r.1| > 0 then Returns(Err(r.1))
      else Returns(Ok(WldDoc(l.header, StringHash(Table(Cipher(l.pool), 0)), r.0)))
  }

  /**
   * `WldDoc::parse`. Anything after the last fragment is ignored.
   */
  function ParseWldDoc<F>(decode: Decoder<F>, input: Bytes): Fallible<Result<WldDoc<F>>>
  {
    match ParseLayout(input)
    case None => Returns(Err([Malformed]))
    case Some(l) => Assemble(decode, l)
  }

  /** A parsed document holds exactly as many fragments as its header counts. */
  lemma ParsedFragmentCount<F>(decode: Decoder<F>, input: Bytes)
    ensures var r := ParseWldDoc(decode, input);
      r.Returns? && r.value.Ok? ==> |r.value.value.fragments| == r.value.value.header.fragment_count as int
  {
    if ParseLayout(input).Some? {
      ParseBodiesPartition(decode, ParseLayout(input).value.headers, 0);
    }
  }

  /** A body the decoder rejects, at any index, makes the whole parse an `Err` that lists it. */
  lemma RejectedBodyFailsDoc<F>(decode: Decoder<F>, input: Bytes, l: Layout, j: nat)
    requires ParseLayout(input) == Some(l)
    requires j < |l.headers| && ParseBody(decode, l.headers[j], j).Returns? &&
      ParseBody(decode, l.headers[j], j).value.Rejected?
    ensures var r := ParseWldDoc(decode, input);
      r.Returns? ==> r.value.Err? && ParseBody(decode, l.headers[j], j).value.error in r.value.errors
  {
    AssembleRejects(decode, l, j);
  }

  lemma AssembleRejects<F>(decode: Decoder<F>, l: Layout, j: nat)
    requires j < |l.headers| && ParseBody(decode, l.headers[j], j).Returns? &&
      ParseBody(decode, l.headers[j], j).value.Rejected?
    ensures var r := Assemble(decode, l);
      r.Returns? ==> r.value.Err? && ParseBody(decode, l.headers[j], j).value.error in r.value.errors
  {
    ParseBodiesRejects(decode, l.headers, 0, j);
  }

  // ---- serialisation

  /**
   * The framed form of one fragment: the body zero-padded to a multiple of
   * 4, its padded length (as a u32) as `size`, and its type id.
   */
  function FramedHeader(typeId: u32, body: Bytes): FragmentHeader
  {
    var size := |body|;
    var padded := if size % 4 > 0 then body + Zeros(4 - size % 4) else body;
    FragmentHeader(|padded| % 0x1_0000_0000, typeId, padded)
  }

  lemma FramedHeaderShape(typeId: u32, body: Bytes)
    requires |body| + 3 < 0x1_0000_0000
    ensures var h := FramedHeader(typeId, body);
      FragmentHeaderWellFormed(h) && h.size % 4 == 0 && h.field_data == body + Zeros(Pad4(|body|)) &&
      h.fragment_type == typeId
  {
  }

  /** The framed fragments, or `Panics` when an encoder panics. */
  function Framed<F>(encode: F -> Fallible<Bytes>, typeOf: F -> u32, fs: seq<F>): Fallible<seq<FragmentHeader>>
    decreases |fs|
  {
    if fs == [] then Returns([])
    else
      match encode(fs[0])
      case Panics => Panics
      case Returns(b) =>
        match Framed(encode, typeOf, fs[1..])
        case Panics => Panics
        case Returns(t) => Returns([FramedHeader(typeOf(fs[0]), b)] + t)
  }

  /** The end-of-file marker `into_bytes` appends. */
  const EndMarker: Bytes := [0xff, 0xff, 0xff, 0xff]

  /** `WldDoc::into_bytes`: header, pool, every framed fragment, then `ff ff ff ff`. */
  function WldDocBytes<F>(encode: F -> Fallible<Bytes>, typeOf: F -> u32, d: WldDoc<F>): Fallible<Bytes>
  {
    match Framed(encode, typeOf, d.fragments)
    case Panics => Panics
    case Returns(hs) =>
      Returns(WldHeaderBytes(d.header) + StringHashBytes(d.strings) + Flat(FragmentHeaderBytes, hs) + EndMarker)
  }

  /** Every framed body is padded to a multiple of 4 bytes and records its padded length. */
  lemma {:induction false} FramedAligned<F>(encode: F -> Fallible<Bytes>, typeOf: F -> u32, fs: seq<F>)
    requires forall j :: 0 <= j < |fs| ==> encode(fs[j]).Returns? && |encode(fs[j]).value| + 3 < 0x1_0000_0000
    ensures Framed(encode, typeOf, fs).Returns?
    ensures var hs := Framed(encode, typeOf, fs).value;
      |hs| == |fs| && forall j :: 0 <= j < |hs| ==>
        FragmentHeaderWellFormed(hs[j]) && hs[j].size % 4 == 0 && hs[j].fragment_type == typeOf(fs[j]) &&
        hs[j].field_data == encode(fs[j]).value + Zeros(Pad4(|encode(fs[j]).value|))
    decreases |fs|
  {
    if fs != [] {
      assert forall j :: 0 <= j < |fs[1..]| ==> fs[1..][j] == fs[j + 1];
      FramedAligned(encode, typeOf, fs[1..]);
      FramedHeaderShape(typeOf(fs[0]), encode(fs[0]).value);
      var hs := Framed(encode, typeOf, fs).value;
      var t := Framed(encode, typeOf, fs[1..]).value;
      assert forall j :: 1 <= j < |hs| ==> hs[j] == t[j - 1];
    }
  }

  /**
   * Every well-formed fragment can be written, and the decoder reads it
   * back from any body its encoding begins (whatever padding follows).
   */
  ghost predicate Decodes<F(!new)>(decode: Decoder<F>, encode: F -> Fallible<Bytes>, typeOf: F -> u32, wf: F -> bool)
  {
    (forall f: F {:trigger encode(f)} :: wf(f) ==> encode(f).Returns?) &&
    forall f: F, body: Bytes {:trigger decode(typeOf(f), body)} ::
      wf(f) && encode(f).Returns? && encode(f).value <= body ==>
        decode(typeOf(f), body).Some? && decode(typeOf(f), body).value.Done? && decode(typeOf(f), body).value.value == f
  }

  lemma {:induction false} FramedBodiesParse<F(!new)>(decode: Decoder<F>, encode: F -> Fallible<Bytes>, typeOf: F -> u32,
                                                     wf: F -> bool, fs: seq<F>, hs: seq<FragmentHeader>, index: nat)
    requires Decodes(decode, encode, typeOf, wf)
    requires forall j :: 0 <= j < |fs| ==> wf(fs[j])
    requires |hs| == |fs|
    requires forall j :: 0 <= j < |hs| ==> (encode(fs[j]).Returns? && hs[j].fragment_type == typeOf(fs[j]) &&
      hs[j].field_data == encode(fs[j]).value + Zeros(Pad4(|encode(fs[j]).value|)))
    ensures ParseBodies(decode, hs, index) == Returns((fs, []))
    decreases |hs|
  {
    if hs != [] {
      var f := fs[0];
      assert encode(f).value <= hs[0].field_data;
      assert ParseBody(decode, hs[0], index) == Returns(Parsed(f));
      assert forall j :: 0 <= j < |fs[1..]| ==> fs[1..][j] == fs[j + 1] && hs[1..][j] == hs[j + 1];
      FramedBodiesParse(decode, encode, typeOf, wf, fs[1..], hs[1..], index + 1);
      assert [f] + fs[1..] == fs;
    }
  }

  /** The string pool is the one its own serialisation decodes to. */
  predicate CanonicalPool(h: StringHash)
  {
    StringHash(Table(Cipher(StringHashBytes(h)), 0)) == h
  }

  /** A pool decoded from NUL-free names, encoded and zero-padded, is canonical. */
  lemma DecodedPoolCanonical(names: seq<Bytes>)
    requires forall j :: 0 <= j < |names| ==> NulFree(names[j])
    ensures var joined := Join(names);
      CanonicalPool(StringHash(Table(Cipher(Cipher(joined) + Zeros(Pad4(|joined|))), 0)))
  {
    PoolRoundTrip(names);
  }

  /** What `into_bytes` needs to write a document its parser reads back. */
  predicate DocWellFormed<F>(encode: F -> Fallible<Bytes>, wf: F -> bool, d: WldDoc<F>)
  {
    d.header.fragment_count as int == |d.fragments| && d.header.string_hash_size as int == |StringHashBytes(d.strings)| &&
    CanonicalPool(d.strings) &&
    forall j :: 0 <= j < |d.fragments| ==>
      wf(d.fragments[j]) && encode(d.fragments[j]).Returns? && |encode(d.fragments[j]).value| + 3 < 0x1_0000_0000
  }

  /**
   * Serialising a well-formed document and parsing the result gives the
   * same header, the same string pool and the same fragments, in order.
   */
  lemma WldDocRoundTrip<F(!new)>(decode: Decoder<F>, encode: F -> Fallible<Bytes>, typeOf: F -> u32, wf: F -> bool,
                                 d: WldDoc<F>, rest: Bytes)
    requires Decodes(decode, encode, typeOf, wf)
    requires DocWellFormed(encode, wf, d)
    ensures WldDocBytes(encode, typeOf, d).Returns?
    ensures ParseWldDoc(decode, WldDocBytes(encode, typeOf, d).value + rest) == Returns(Ok(d))
  {
    FramedAligned(encode, typeOf, d.fragments);
    var hs := Framed(encode, typeOf, d.fragments).value;
    var pool := StringHashBytes(d.strings);
    Nest4(WldHeaderBytes(d.header), pool, Flat(FragmentHeaderBytes, hs), EndMarker, rest);
    Nest3(WldHeaderBytes(d.header), pool, Flat(FragmentHeaderBytes, hs), EndMarker + rest);
    LayoutRoundTrip(d.header, pool, hs, EndMarker + rest);
    FramedBodiesParse(decode, encode, typeOf, wf, d.fragments, hs, 0);
  }

  /** The framed body `into_bytes` writes for `f` decodes back to `f`. */
  predicate FramedReadsBack<F(==)>(decode: Decoder<F>, encode: F -> Fallible<Bytes>, typeOf: F -> u32, f: F)
  {
    encode(f).Returns? &&
    var b := encode(f).value;
    var o := decode(typeOf(f), b + Zeros(Pad4(|b|)));
    o.Some? && o.value.Done? && o.value.value == f
  }

  /** A fragment whose padded encoding decodes as something else does not read back. */
  lemma DecodesAsOther<F>(decode: Decoder<F>, encode: F -> Fallible<Bytes>, typeOf: F -> u32, f: F, b: Bytes)
    requires encode(f) == Returns(b)
    requires var o := decode(typeOf(f), b + Zeros(Pad4(|b|))); o.Some? && o.value.Done? && o.value.value != f
    ensures !FramedReadsBack(decode, encode, typeOf, f)
  {
  }

  /**
   * A fragment whose framed body does not decode back to it, at any
   * position, keeps the written document from parsing back as itself.
   */
  lemma MisreadBreaksRoundTrip<F>(decode: Decoder<F>, encode: F -> Fallible<Bytes>, typeOf: F -> u32, wf: F -> bool,
                                  d: WldDoc<F>, rest: Bytes, j: nat)
    requires DocWellFormed(encode, wf, d) && j < |d.fragments|
    requires !FramedReadsBack(decode, encode, typeOf, d.fragments[j])
    ensures WldDocBytes(encode, typeOf, d).Returns?
    ensures ParseWldDoc(decode, WldDocBytes(encode, typeOf, d).value + rest) != Returns(Ok(d))
  {
    FramedAligned(encode, typeOf, d.fragments);
    var hs := Framed(encode, typeOf, d.fragments).value;
    WrittenLayout(encode, typeOf, wf, d, rest);
    BodyMisread(decode, encode, typeOf, d.fragments[j], hs[j], j);
    AssembleMisread(decode, Layout(d.header, StringHashBytes(d.strings), hs), j, d.fragments[j]);
  }

  /** The bytes `into_bytes` writes for a well-formed document lay out as its header, its pool and its framed fragments. */
  lemma WrittenLayout<F>(encode: F -> Fallible<Bytes>, typeOf: F -> u32, wf: F -> bool, d: WldDoc<F>, rest: Bytes)
    requires DocWellFormed(encode, wf, d)
    ensures Framed(encode, typeOf, d.fragments).Returns? && WldDocBytes(encode, typeOf, d).Returns?
    ensures ParseLayout(WldDocBytes(encode, typeOf, d).value + rest) ==
      Some(Layout(d.header, StringHashBytes(d.strings), Framed(encode, typeOf, d.fragments).value))
  {
    FramedAligned(encode, typeOf, d.fragments);
    var hs := Framed(encode, typeOf, d.fragments).value;
    var pool := StringHashBytes(d.strings);
    Nest4(WldHeaderBytes(d.header), pool, Flat(FragmentHeaderBytes, hs), EndMarker, rest);
    Nest3(WldHeaderBytes(d.header), pool, Flat(FragmentHeaderBytes, hs), EndMarker + rest);
    LayoutRoundTrip(d.header, pool, hs, EndMarker + rest);
  }

  /** The framed body of a fragment that does not read back does not parse as it. */
  lemma BodyMisread<F>(decode: Decoder<F>, encode: F -> Fallible<Bytes>, typeOf: F -> u32, f: F, h: FragmentHeader, j: nat)
    requires encode(f).Returns? && h.fragment_type == typeOf(f)
    requires h.field_data == encode(f).value + Zeros(Pad4(|encode(f).value|))
    requires !FramedReadsBack(decode, encode, typeOf, f)
    ensures ParseBody(decode, h, j) != Returns(Parsed(f))
  {
  }

  /** When the body at `j` does not parse as `f`, no document `Assemble` returns has `f` at `j`. */
  lemma AssembleMisread<F>(decode: Decoder<F>, l: Layout, j: nat, f: F)
    requires j < |l.headers| && ParseBody(decode, l.headers[j], j) != Returns(Parsed(f))
    ensures var r := Assemble(decode, l);
      r.Returns? && r.value.Ok? ==> j < |r.value.value.fragments| && r.value.value.fragments[j] != f
  {
    ParseBodiesPartition(decode, l.headers, 0);
  }

  lemma LayoutRoundTrip(h: WldHeader, pool: Bytes, hs: seq<FragmentHeader>, rest: Bytes)
    requires h.string_hash_size as int == |pool| && h.fragment_count as int == |hs|
    requires forall j :: 0 <= j < |hs| ==> FragmentHeaderWellFormed(hs[j])
    ensures ParseLayout(WldHeaderBytes(h) + pool + Flat(FragmentHeaderBytes, hs) + rest) == Some(Layout(h, pool, hs))
  {
    WldHeaderCodec();
    FragmentHeaderCodec();
    LayoutRoundTripWith(ParseWldHeader, ParseFragmentHeader, h, pool, hs, rest);
  }

  lemma LayoutRoundTripWith(header: Bytes -> Outcome<WldHeader>, frame: Bytes -> Outcome<FragmentHeader>,
                            h: WldHeader, pool: Bytes, hs: seq<FragmentHeader>, rest: Bytes)
    requires Complete(header, WldHeaderBytes, Any) && Complete(frame, FragmentHeaderBytes, FragmentHeaderWellFormed)
    requires h.string_hash_size as int == |pool| && h.fragment_count as int == |hs|
    requires forall j :: 0 <= j < |hs| ==> FragmentHeaderWellFormed(hs[j])
    ensures ParseLayoutWith(header, frame, WldHeaderBytes(h) + pool + Flat(FragmentHeaderBytes, hs) + rest) ==
      Some(Layout(h, pool, hs))
  {
    var t2 := Flat(FragmentHeaderBytes, hs) + rest;
    var t1 := pool + t2;
    Nest3(WldHeaderBytes(h), pool, Flat(FragmentHeaderBytes, hs), rest);
    CompleteAt(header, WldHeaderBytes, Any, h, t1);
    TakeRoundTrip(pool, t2);
    assert forall x :: x in hs ==> FragmentHeaderWellFormed(x);
    ManyRoundTrip(frame, FragmentHeaderBytes, FragmentHeaderWellFormed, hs, rest);
  }

  // ---- `fragment_headers_by_offset`

  /** Fragment headers keyed by the offset (`input.len() - remaining.len()`) where each starts. */
  type Offsets = map<int, FragmentHeader>

  /**
   * The `n` headers at the front of `remaining`, keyed by their offset in
   * an input of `total` bytes of which `remaining` is the tail; `Panics`
   * when one does not parse (the `expect`).
   */
  function HeadersFrom(frame: Bytes -> Outcome<FragmentHeader>, total: int, remaining: Bytes, n: nat): Fallible<Offsets>
    decreases n
  {
    if n == 0 then Returns(map[])
    else
      var h := frame(remaining);
      if !h.Done? then Panics
      else Prepend(total - |remaining|, h.value, HeadersFrom(frame, total, h.rest, n - 1))
  }

  function Prepend(k: int, v: FragmentHeader, r: Fallible<Offsets>): Fallible<Offsets>
  {
    if r.Panics? then Panics else Returns(map[k := v] + r.value)
  }

  /** The map a walk has built so far, followed by what the rest of the walk adds. */
  function Extend(m: Offsets, r: Fallible<Offsets>): Fallible<Offsets>
  {
    if r.Panics? then Panics else Returns(m + r.value)
  }

  lemma ExtendEmpty(r: Fallible<Offsets>)
    ensures Extend(map[], r) == r
  {
    if r.Returns? {
      assert map[] + r.value == r.value;
    }
  }

  lemma ExtendPrepend(m: Offsets, k: int, v: FragmentHeader, r: Fallible<Offsets>)
    ensures Extend(m, Prepend(k, v, r)) == Extend(m[k := v], r)
  {
    if r.Returns? {
      assert m + (map[k := v] + r.value) == m[k := v] + r.value;
    }
  }

  /**
   * The whole map: the header (whose bytes the failure message prints, so
   * an input shorter than a header panics), the pool skipped by
   * `split_at`, then the walk over the rest.
   */
  function HeadersByOffset(input: Bytes): Fallible<Offsets>
  {
    var header := ParseWldHeader(input);
    if !header.Done? || header.value.string_hash_size as int > |header.rest| then Panics
    else HeadersFrom(ParseFragmentHeader, |input|, header.rest[header.value.string_hash_size..], header.value.fragment_count)
  }

  /** `WldDoc::fragment_headers_by_offset`. */
  method FragmentHeadersByOffset(input: Bytes) returns (r: Fallible<Offsets>)
    ensures r == HeadersByOffset(input)
  {
    WldHeaderRest(input);
    if |input| < WldHeaderSize {
      return Panics;
    }
    var header := ParseWldHeader(input);
    var hdr := header.value;
    if hdr.string_hash_size as int > |header.rest| {
      return Panics;
    }
    r := WalkHeaders(ParseFragmentHeader, |input|, header.rest[hdr.string_hash_size..], hdr.fragment_count);
  }

  /**
   * The loop of `fragment_headers_by_offset`: `n` headers read by `frame`
   * from `start`, each recorded under `total - remaining.len()`.
   */
  method WalkHeaders(frame: Bytes -> Outcome<FragmentHeader>, total: int, start: Bytes, n: nat)
    returns (r: Fallible<Offsets>)
    ensures r == HeadersFrom(frame, total, start, n)
  {
    var remaining := start;
    var headers: Offsets := map[];
    var idx := 0;
    ExtendEmpty(HeadersFrom(frame, total, start, n));
    while idx < n
      invariant 0 <= idx <= n
      invariant HeadersFrom(frame, total, start, n) ==
        Extend(headers, HeadersFrom(frame, total, remaining, n - idx))
    {
      var offset := total - |remaining|;
      var h := frame(remaining);
      if !h.Done? {
        return Panics;
      }
      ExtendPrepend(headers, offset, h.value, HeadersFrom(frame, total, h.rest, n - idx - 1));
      headers := headers[offset := h.value];
      remaining := h.rest;
      idx := idx + 1;
    }
    assert headers + map[] == headers;
    r := Returns(headers);
  }

  /** The walk succeeds exactly when `count(FragmentHeader::parse, n)` does. */
  lemma {:induction false} HeadersFromSucceeds(frame: Bytes -> Outcome<FragmentHeader>, total: int, remaining: Bytes,
                                               n: nat)
    ensures HeadersFrom(frame, total, remaining, n).Returns? <==> Many(frame, n, remaining).Done?
    decreases n
  {
    if n > 0 {
      ManyStep(frame, n, remaining);
      var h := frame(remaining);
      if h.Done? {
        HeadersFromSucceeds(frame, total, h.rest, n - 1);
      }
    }
  }

  /** A suffix of a suffix is a suffix. */
  lemma SuffixOfSuffix(input: Bytes, a: Bytes, b: Bytes)
    requires |a| <= |input| && input[|input| - |a|..] == a
    requires |b| <= |a| && a[|a| - |b|..] == b
    ensures input[|input| - |b|..] == b
  {
    assert input[|input| - |a|..][|a| - |b|..] == input[|input| - |b|..];
  }

  /** A successful walk over `n` headers records `n` distinct offsets, none before `remaining` starts. */
  lemma {:induction false} HeadersFromKeys(frame: Bytes -> Outcome<FragmentHeader>, total: int, remaining: Bytes, n: nat)
    requires Consumes(frame)
    ensures var r := HeadersFrom(frame, total, remaining, n);
      r.Returns? ==> (|r.value.Keys| == n && forall k :: k in r.value ==> total - |remaining| <= k < total)
    decreases n
  {
    if n > 0 {
      var h := frame(remaining);
      if h.Done? {
        var offset := total - |remaining|;
        HeadersFromKeys(frame, total, h.rest, n - 1);
        var later := HeadersFrom(frame, total, h.rest, n - 1);
        if later.Returns? {
          assert offset !in later.value.Keys;
          assert (map[offset := h.value] + later.value).Keys == {offset} + later.value.Keys;
        }
      }
    }
  }

  /**
   * Over a tail of `input`, every offset a successful walk records is one
   * where the header it records parses from `input` itself.
   */
  lemma {:induction false} HeadersFromAt(frame: Bytes -> Outcome<FragmentHeader>, input: Bytes, remaining: Bytes, n: nat)
    requires Consumes(frame)
    requires |remaining| <= |input| && input[|input| - |remaining|..] == remaining
    ensures var r := HeadersFrom(frame, |input|, remaining, n);
      r.Returns? ==> forall k :: k in r.value ==> (0 <= k <= |input| && frame(input[k..]).Done? &&
        frame(input[k..]).value == r.value[k])
    decreases n
  {
    if n > 0 {
      var h := frame(remaining);
      if h.Done? {
        SuffixOfSuffix(input, remaining, h.rest);
        HeadersFromAt(frame, input, h.rest, n - 1);
      }
    }
  }

  /**
   * `fragment_headers_by_offset` returns exactly when `parse` frames the
   * document, and then maps `fragment_count` distinct offsets past the
   * header and pool, each to the fragment header found there.
   */
  lemma HeadersByOffsetMatchesLayout(input: Bytes)
    ensures var r := HeadersByOffset(input);
      (r.Returns? <==> ParseLayout(input).Some?) &&
      (r.Returns? ==> (var hdr := ParseLayout(input).value.header;
        |r.value.Keys| == hdr.fragment_count as int &&
        forall k :: k in r.value ==> (WldHeaderSize + hdr.string_hash_size as int <= k <= |input| &&
          ParseFragmentHeader(input[k..]).Done? && ParseFragmentHeader(input[k..]).value == r.value[k])))
  {
    WldHeaderRest(input);
    var header := ParseWldHeader(input);
    if header.Done? {
      var hdr := header.value;
      if hdr.string_hash_size as int <= |header.rest| {
        var remaining := header.rest[hdr.string_hash_size..];
        assert Take(hdr.string_hash_size, header.rest).rest == remaining;
        assert input[|input| - |remaining|..] == remaining;
        FragmentHeaderConsumes();
        HeadersFromSucceeds(ParseFragmentHeader, |input|, remaining, hdr.fragment_count);
        HeadersFromKeys(ParseFragmentHeader, |input|, remaining, hdr.fragment_count);
        HeadersFromAt(ParseFragmentHeader, input, remaining, hdr.fragment_count);
        assert ParseLayout(input) == ParseLayoutWith(ParseWldHeader, ParseFragmentHeader, input);
      }
    }
  }

  // ---- lookups

  /** `get_by_index_ref`: the `idx`-th fragment, counting from 1, if it has the wanted type. */
  function GetByIndexRef<F>(d: WldDoc<F>, typeOf: F -> u32, want: u32, r: FragmentRef): Option<F>
  {
    match r
    case Name(_) => None
    case Index(idx) =>
      if 1 <= idx <= |d.fragments| && typeOf(d.fragments[idx - 1]) == want then Some(d.fragments[idx - 1]) else None
  }

  /** The position of the first fragment whose name resolves to `target`. */
  function FindByName<F>(strings: StringHash, nameOf: F -> StringReference, fs: seq<F>, target: Bytes): (r: Option<nat>)
    ensures r.Some? ==> (r.value < |fs| && Get(strings, nameOf(fs[r.value])) == Some(target) &&
      forall j :: 0 <= j < r.value ==> Get(strings, nameOf(fs[j])) != Some(target))
    ensures r.None? ==> forall j :: 0 <= j < |fs| ==> Get(strings, nameOf(fs[j])) != Some(target)
    decreases |fs|
  {
    if fs == [] then None
    else if Get(strings, nameOf(fs[0])) == Some(target) then Some(0)
    else
      match FindByName(strings, nameOf, fs[1..], target)
      case None => None
      case Some(j) => Some(j + 1)
  }

  /**
   * `get_by_name_ref`: resolve the name, take the first fragment of that
   * name, and return it if it has the wanted type. A first match of another
   * type gives `None`; the search does not go on.
   */
  function GetByNameRef<F>(d: WldDoc<F>, nameOf: F -> StringReference, typeOf: F -> u32, want: u32, r: FragmentRef)
    : Option<F>
  {
    match r
    case Index(_) => None
    case Name(n) =>
      match Get(d.strings, n)
      case None => None
      case Some(target) =>
        match FindByName(d.strings, nameOf, d.fragments, target)
        case None => None
        case Some(j) => if typeOf(d.fragments[j]) == want then Some(d.fragments[j]) else None
  }

  /** `WldDoc::get`. */
  function GetFragment<F>(d: WldDoc<F>, nameOf: F -> StringReference, typeOf: F -> u32, want: u32, r: FragmentRef)
    : Option<F>
  {
    match r
    case Name(_) => GetByNameRef(d, nameOf, typeOf, want, r)
    case Index(_) => GetByIndexRef(d, typeOf, want, r)
  }

  /** An index reference `k` finds fragment `k - 1` exactly when it is in range and of the wanted type. */
  lemma IndexLookup<F>(d: WldDoc<F>, nameOf: F -> StringReference, typeOf: F -> u32, want: u32, k: u32)
    ensures var g := GetFragment(d, nameOf, typeOf, want, Index(k));
      (g.Some? <==> 1 <= k <= |d.fragments| && typeOf(d.fragments[k - 1]) == want) &&
      (g.Some? ==> g.value == d.fragments[k - 1])
  {
  }

  /**
   * A name reference finds the first fragment carrying that name when it
   * has the wanted type, and nothing otherwise; an unknown name or a name
   * no fragment carries finds nothing.
   */
  lemma NameLookup<F>(d: WldDoc<F>, nameOf: F -> StringReference, typeOf: F -> u32, want: u32, n: StringReference)
    ensures var g := GetFragment(d, nameOf, typeOf, want, Name(n));
      (Get(d.strings, n).None? ==> g.None?) &&
      (Get(d.strings, n).Some? ==>
        (forall j :: 0 <= j < |d.fragments| && Get(d.strings, nameOf(d.fragments[j])) == Get(d.strings, n) ==>
          (forall i :: 0 <= i < j ==> Get(d.strings, nameOf(d.fragments[i])) != Get(d.strings, n)) ==>
            g == if typeOf(d.fragments[j]) == want then Some(d.fragments[j]) else None) &&
        ((forall j :: 0 <= j < |d.fragments| ==> Get(d.strings, nameOf(d.fragments[j])) != Get(d.strings, n)) ==> g.None?))
  {
    if Get(d.strings, n).Some? {
      var t := Get(d.strings, n).value;
      var r := FindByName(d.strings, nameOf, d.fragments, t);
      forall j | 0 <= j < |d.fragments| && Get(d.strings, nameOf(d.fragments[j])) == Some(t) &&
        (forall i :: 0 <= i < j ==> Get(d.strings, nameOf(d.fragments[i])) != Some(t))
        ensures r == Some(j)
      {
      }
    }
  }

  /**
   * With the pool's leading NUL (offset 0 names the empty string), the
   * reference `Name(0)` finds the first fragment whose name resolves to
   * the empty string, not `None`.
   */
  lemma NameZeroFindsFirstUnnamed<F>(d: WldDoc<F>, nameOf: F -> StringReference, typeOf: F -> u32, j: nat)
    requires Get(d.strings, StringReference(0)) == Some([])
    requires j < |d.fragments| && Get(d.strings, nameOf(d.fragments[j])) == Some([])
    requires forall i :: 0 <= i < j ==> Get(d.strings, nameOf(d.fragments[i])) != Some([])
    ensures GetFragment(d, nameOf, typeOf, typeOf(d.fragments[j]), Name(StringReference(0))) == Some(d.fragments[j])
  {
    NameLookup(d, nameOf, typeOf, typeOf(d.fragments[j]), StringReference(0));
  }
}
