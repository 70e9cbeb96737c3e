# libeq core, modelled in Dafny

This project models two crates of libeq, a library that reads and writes EverQuest asset files.

- **libeq_wld: the WLD codec.** A WLD file is a 28-byte header, then a string pool obfuscated with
  an 8-byte XOR key, then a flat table of fragments. Each fragment is a size and a type tag followed
  by a little-endian body.
  - The model covers the string pool and its lookup by offset.
  - It covers the `FragmentRef` handle, which is positive for an index and zero or negative for a
    name.
  - It covers the document parse and serialise, `fragment_headers_by_offset`, and lookup by index
    and by name.
  - It covers the ten fragment formats of the core, and a dispatch by type id that sends each id
    to the format `fragments/mod.rs` defines for it (not the older structs `parse_body` still names):
    - BmInfo (0x03), HierarchicalSpriteDef (0x10), TrackDef (0x12), Actor (0x15)
    - LightDef (0x1b), Region (0x22), DmSpriteDef (0x2c), DmTrackDef (0x2e)
    - DmSpriteDef2 (0x36), DmTrackDef2 (0x37)
  - It also covers their shared records: RenderInfo, EncodedFilename, Location and the
    RenderMethod bit fields.
  - It covers the mesh views of `lib.rs`: indices, collision indices, primitives, materials,
    animated vertices, base-colour textures and texture sources.
- **libeq_archive: the PFS archive.**
  - The file-name CRC and the table it is computed with.
  - The directory of file names.
  - The block map and `get_blocks`, which collects a file's blocks.
  - The `EqArchive` object with `push`, `remove` and `to_bytes`, and the byte layout that
    `to_bytes` produces.

## How it is modelled

**Bytes and values.**
- Bytes are `seq<byte>`. The integer widths are subset types of `int` (`byte`, `u16`, `u32`, `i8`,
  `i16`, `i32`); `as u32` casts truncate explicitly.
- An `f32` is kept as its 32-bit pattern, since nothing in the core computes with floats.

**Parsers.**
- Every nom parser is a function `Bytes -> Outcome<T>`. The three outcomes are:
  - `Done(value, rest)`, a successful read;
  - `Failure`, a nom error, usually too little input;
  - `Panic`, a Rust panic such as an `unwrap` on `None` or an unchecked slice.
- A serialiser either is a plain function or returns `Fallible<Bytes>` (`Returns` | `Panics`) when
  the Rust code can panic, as `entries.len() - 1` can in `BmInfo::into_bytes`.

**What is proved about each codec.**
- *Complete*: what is written parses back, whatever follows it.
- *Sound*: what parses is well formed (each optional field present exactly when its flag bit is
  set, each list as long as its count) and re-encodes to exactly the bytes it consumed.
- *Reparse*: serialising a parsed value reproduces the input exactly when what was left over is
  the padding the serialiser adds.

These are proved once over generic field parsers (the `...With` lemmas) and then used for the
concrete formats. `FragmentTable.DocumentRoundTrip` puts them together: a whole well-formed
document of the covered fragments, written with the corrected Actor and DmTrackDef writers and
parsed again, is the same document. `FragmentTable.AsWrittenDocumentRoundTripIff` does the same
with the writers as the source has them: the document comes back exactly when every Actor and
DmTrackDef in it is one those writers preserve.

**Imperative parts.** The imperative parts of the source are methods with loops, proved against
specification functions:
- `Strings.NewStringHash` and `WldDocument.FragmentHeadersByOffset` / `WalkHeaders`;
- `ArchiveCrc.BuildCrcTable`, which fills an `array`;
- `MeshViews.Primitives`;
- the `EqArchives.EqArchive` class.

**Inputs outside the model.**
- zlib compression is a parameter: `z` compresses and `unz` decompresses. Only the file layout
  proofs need `unz` to undo `z`.
- Windows-1252 decoding is the identity on bytes for a pool that does not start with a byte-order
  mark. The `encoding_rs` table maps all 256 bytes to distinct characters.

**Where the format's documentation and the code differ, the model follows the code:**
- An unknown fragment type is an `UnknownFragment` error that fails the whole parse. It is not kept
  as an opaque blob.
- A body that is not consumed to its last byte is not an error. There is no size-mismatch check;
  the padding is simply left unread.
- A string reference is looked up at the absolute value of the offset. An offset that does not
  start a name gives `None`.
- Several views (`materials`, `primitives`, `Primitive::material`) and parsers (an undeclared
  obstacle type, a 4-bit texture style of 0xd, a mesh operation shorter than 4 bytes) panic rather
  than fail.

## Model

| member | source | states |
|---|---|---|
| Strings.ParseStringReference | crates/libeq_wld/src/parser/strings.rs:18-22 | fails exactly on fewer than 4 bytes, never panics, what it reads re-encodes to its input |
| Strings.StringReferenceCodec | crates/libeq_wld/src/parser/strings.rs:12-25 | a string reference is a 4-byte i32 that reads back from its encoding, and every parsed one re-encodes to its bytes |
| Strings.Cipher | crates/libeq_wld/src/parser/strings.rs:34-51 | encoding keeps the length (it is a byte-wise XOR with the key at position mod 8) |
| Strings.CipherInvolution | crates/libeq_wld/src/parser/strings.rs:34-51 | decode_string and encode_string undo each other byte for byte |
| Strings.XorBitsInvolution | crates/libeq_wld/src/parser/strings.rs:34-51 | XOR with a key twice gives back the original bits, the fact the involution rests on |
| Strings.NextNul | crates/libeq_wld/src/parser/strings.rs:54-69 | the first NUL at or after a position, or the end; no NUL before it |
| Strings.NewStringHash | crates/libeq_wld/src/parser/strings.rs:54-69 | the loop of `StringHash::new` builds exactly the table of NUL-terminated names of the decoded pool, each keyed by its start |
| Strings.WalkNames | crates/libeq_wld/src/parser/strings.rs:58-68 | the loop over the decoded text records exactly the table of its NUL-terminated names |
| Strings.TableKeys | crates/libeq_wld/src/parser/strings.rs:54-68 | keys are name starts: the first is where reading began, each next key is one past the NUL that ends the previous name, and no name holds a NUL |
| Strings.TableTail | crates/libeq_wld/src/parser/strings.rs:54-69 | unterminated text at the end of the pool yields no entry |
| Strings.LookupPool | crates/libeq_wld/src/parser/strings.rs:82-86 | lookup at an offset yields the name starting there, up to its NUL, and nothing at an offset that is not a name start |
| Strings.GetIgnoresSign | crates/libeq_wld/src/parser/strings.rs:82-86 | `get` uses the absolute value, so references `-n` and `n` find the same string |
| Strings.GetChecked | crates/libeq_wld/src/parser/strings.rs:82-86 | in a debug build `get` panics exactly on the reference `i32::MIN`, whose `abs()` overflows, and otherwise returns what `Get` finds |
| Strings.SgrassPool | crates/libeq_wld/src/parser/strings.rs:93-103 | for the test pool, offset 0 is the empty name, offset 1 is "SGRASS" and offset 2 is nothing |
| Strings.StringHashBytesPad | crates/libeq_wld/src/parser/strings.rs:70-81 | `into_bytes` is the encoded names with their NULs, zero-padded to the next multiple of 4 |
| Strings.StringHashBytesAligned | crates/libeq_wld/src/parser/strings.rs:70-81 | the serialised pool's length is a multiple of 4 |
| Strings.PoolRoundTrip | crates/libeq_wld/src/parser/strings.rs:104-109 | a padded pool of NUL-free names decodes to those names, and `into_bytes(new(data)) == data` |
| Strings.DecodedPaddingNulFree | crates/libeq_wld/src/parser/strings.rs:54-81 | the key stream decoded from zero padding holds no NUL, so padding does not become a name |
| FragmentRefs.New | crates/libeq_wld/src/parser/fragments/mod.rs:118-126 | `new(i)` is `Index(i)` exactly when i > 0, and otherwise the name reference i |
| FragmentRefs.NewWellFormed | crates/libeq_wld/src/parser/fragments/mod.rs:118-126 | what `new(i)` makes is well formed and carries the word i |
| FragmentRefs.ParseFragmentRef | crates/libeq_wld/src/parser/fragments/mod.rs:127-131 | fails exactly on fewer than 4 bytes, never panics, yields a well-formed reference whose word is the i32 read |
| FragmentRefs.FragmentRefBytesWord | crates/libeq_wld/src/parser/fragments/mod.rs:132-137 | `into_bytes` is 4 bytes, the reference's i32 in little-endian |
| FragmentRefs.FragmentRefRoundTrip | crates/libeq_wld/src/parser/fragments/mod.rs:127-137 | every well-formed reference reads back from its bytes |
| FragmentRefs.FragmentRefReparse | crates/libeq_wld/src/parser/fragments/mod.rs:127-137 | any 4 bytes read as a reference re-serialise to themselves, and exactly 4 are consumed |
| FragmentRefs.FragmentRefCodec | crates/libeq_wld/src/parser/fragments/mod.rs:127-137 | the reference codec is complete, sound and exactly 4 bytes wide |
| EncodedFilenames.ParseEncodedFilename | crates/libeq_wld/src/parser/fragments/common/encoded_filename.rs:30-41 | fails exactly when the input is shorter than 2 bytes plus the declared length, never panics, consumes 2 + name_length bytes |
| EncodedFilenames.EncodedFilenameBytes | crates/libeq_wld/src/parser/fragments/common/encoded_filename.rs:42-48 | the stored length, then the encoded name and one NUL |
| EncodedFilenames.EncodedFilenameRoundTrip | crates/libeq_wld/src/parser/fragments/common/encoded_filename.rs:30-48 | a name whose length field is its length plus one reads back |
| EncodedFilenames.EncodedFilenameExact | crates/libeq_wld/src/parser/fragments/common/encoded_filename.rs:30-48 | a parsed name re-encodes to its input exactly when the stored text ended in exactly one NUL |
| EncodedFilenames.EncodedFilenameCodec | crates/libeq_wld/src/parser/fragments/common/encoded_filename.rs:30-48 | the codec is complete and exact for well-formed names |
| BmInfoFragment.ParseBmInfoWith | crates/libeq_wld/src/parser/fragments/bm_info.rs:46-60 | a parsed BmInfo holds entry_count + 1 entries; fewer than 8 bytes fail |
| BmInfoFragment.BmInfoPadding | crates/libeq_wld/src/parser/fragments/bm_info.rs:76-79 | `(3 - len % 4) % 4` leaves the length one short of a multiple of 4 |
| BmInfoFragment.BmInfoBytes | crates/libeq_wld/src/parser/fragments/bm_info.rs:63-80 | panics exactly for an empty entry list or one too long for a u32 count; otherwise the length is 3 mod 4 |
| BmInfoFragment.BmInfoRoundTrip | crates/libeq_wld/src/parser/fragments/bm_info.rs:46-80 | the fields of a well-formed BmInfo read back |
| BmInfoFragment.BmInfoBytesRoundTrip | crates/libeq_wld/src/parser/fragments/bm_info.rs:99-142 | a serialised BmInfo parses back, leaving its padding; with one more zero it is the fixture layout |
| BmInfoFragment.BmInfoExact | crates/libeq_wld/src/parser/fragments/bm_info.rs:46-60 | a parsed BmInfo with well-formed names is well formed and its fields re-encode to the bytes consumed |
| BmInfoFragment.BmInfoReparse | crates/libeq_wld/src/parser/fragments/bm_info.rs:128-142 | `into_bytes` plus one zero reproduces the input exactly when what was left over is the padding and that zero |
| RenderInfoRecord.UvInfoCodec | crates/libeq_wld/src/parser/fragments/common/render_info.rs:183-211 | a UvInfo is always 36 bytes and reads back from its encoding |
| RenderInfoRecord.ParseUvMap | crates/libeq_wld/src/parser/fragments/common/render_info.rs:222-234 | never panics, fails exactly when the input is shorter than the count and its 8-byte pairs, and holds entry_count entries |
| RenderInfoRecord.UvMapCodec | crates/libeq_wld/src/parser/fragments/common/render_info.rs:222-245 | a UvMap whose count matches its list reads back, and every parsed one re-encodes to its bytes |
| RenderInfoRecord.ParseRenderInfoWith | crates/libeq_wld/src/parser/fragments/common/render_info.rs:54-100 | pen, brightness, scaled ambient, simple sprite, UvInfo and UvMap are present exactly when their flag bits 0x01-0x20 are set |
| RenderInfoRecord.RenderInfoRoundTrip | crates/libeq_wld/src/parser/fragments/common/render_info.rs:54-116 | a record whose fields match its flags reads back from `into_bytes` |
| RenderInfoRecord.RenderInfoExact | crates/libeq_wld/src/parser/fragments/common/render_info.rs:54-116 | every parsed record is well formed and re-encodes to exactly the bytes consumed |
| RenderInfoRecord.RenderInfoNeverPanics | crates/libeq_wld/src/parser/fragments/common/render_info.rs:54-100 | parsing never panics, and fails on fewer than 4 bytes |
| RenderInfoRecord.DrawStyleBits | crates/libeq_wld/src/parser/fragments/common/render_info.rs:266-270 | bits 0-1, a value below 4 |
| RenderInfoRecord.LightingBits | crates/libeq_wld/src/parser/fragments/common/render_info.rs:272-276 | bits 2-4, a value below 8 |
| RenderInfoRecord.ShadingBits | crates/libeq_wld/src/parser/fragments/common/render_info.rs:278-282 | bits 5-6, a value below 4 |
| RenderInfoRecord.TextureStyleBits | crates/libeq_wld/src/parser/fragments/common/render_info.rs:284-288 | bits 7-10, a value below 16 |
| RenderInfoRecord.UnknownBits | crates/libeq_wld/src/parser/fragments/common/render_info.rs:290-292 | bits 11-30, a value below 2^20 |
| RenderInfoRecord.RenderMethodFields | crates/libeq_wld/src/parser/fragments/common/render_info.rs:266-296 | the six accessors read disjoint fields covering the word: composing the fields gives the word back |
| RenderInfoRecord.RenderMethodAccessors | crates/libeq_wld/src/parser/fragments/common/render_info.rs:266-296 | each accessor reads back exactly its own field of a composed word |
| RenderInfoRecord.DrawStyleFromU32 | crates/libeq_wld/src/parser/fragments/common/render_info.rs:301-306 | decodes exactly the values below 4, to the variant with that discriminant |
| RenderInfoRecord.LightingFromU32 | crates/libeq_wld/src/parser/fragments/common/render_info.rs:310-319 | decodes exactly the values below 8 |
| RenderInfoRecord.ShadingFromU32 | crates/libeq_wld/src/parser/fragments/common/render_info.rs:323-328 | decodes exactly the values below 4 |
| RenderInfoRecord.TextureStyleFromU32 | crates/libeq_wld/src/parser/fragments/common/render_info.rs:332-348 | decodes exactly the values below 16 other than 0xd |
| RenderInfoRecord.DrawStyleDecodes | crates/libeq_wld/src/parser/fragments/common/render_info.rs:301-306 | every draw style's discriminant decodes to that variant |
| RenderInfoRecord.LightingDecodes | crates/libeq_wld/src/parser/fragments/common/render_info.rs:310-319 | every lighting's discriminant decodes to that variant |
| RenderInfoRecord.ShadingDecodes | crates/libeq_wld/src/parser/fragments/common/render_info.rs:323-328 | every shading's discriminant decodes to that variant |
| RenderInfoRecord.TextureStyleDecodes | crates/libeq_wld/src/parser/fragments/common/render_info.rs:332-348 | every texture style's discriminant decodes to that variant |
| RenderInfoRecord.DrawStyleOf | crates/libeq_wld/src/parser/fragments/common/render_info.rs:266-270 | never panics, and yields the variant whose discriminant is the field |
| RenderInfoRecord.LightingOf | crates/libeq_wld/src/parser/fragments/common/render_info.rs:272-276 | never panics, and yields the variant whose discriminant is the field |
| RenderInfoRecord.ShadingOf | crates/libeq_wld/src/parser/fragments/common/render_info.rs:278-282 | never panics, and yields the variant whose discriminant is the field |
| RenderInfoRecord.TextureStyleOf | crates/libeq_wld/src/parser/fragments/common/render_info.rs:284-288 | panics exactly when the field is 0xd; otherwise yields the variant whose discriminant is the field |
| RenderInfoRecord.TextureStylePanicsOn0xD | crates/libeq_wld/src/parser/fragments/common/render_info.rs:284-288 | the render method 0x680 makes `texture_style` panic |
| RenderInfoRecord.TextureStyleFieldOf | crates/libeq_wld/src/parser/fragments/common/render_info.rs:284-288 | the corrected total accessor: every four-bit value decodes to the field read |
| RenderInfoRecord.TextureStyleFieldAgrees | crates/libeq_wld/src/parser/fragments/common/render_info.rs:284-288 | the total accessor agrees with `texture_style` wherever that returns, and is `Undeclared` exactly where it panics |
| ActorFragment.ParseLocation | crates/libeq_wld/src/parser/fragments/common/location.rs:48-80 | never panics, fails exactly on fewer than 28 bytes, and re-encodes to the 28 bytes consumed |
| ActorFragment.LocationCodec | crates/libeq_wld/src/parser/fragments/common/location.rs:48-80 | a Location reads back from its encoding |
| ActorFragment.OptionsCodec | crates/libeq_wld/src/parser/fragments/actor.rs:84-113 | current action, location, bounding radius, scale factor, sound and vertex colour reference read back and are present exactly when bits 0x01, 0x02, 0x04, 0x08, 0x10 and 0x100 are set |
| ActorFragment.Resize | crates/libeq_wld/src/parser/fragments/actor.rs:142 | `Vec::resize(n, 0)`: length n, a prefix when shrinking, zero-filled when growing |
| ActorFragment.UserDataCodec | crates/libeq_wld/src/parser/fragments/actor.rs:114-131 | the size and the NUL-filled, encoded user data read back as the trimmed text, and every parsed one re-encodes |
| ActorFragment.ActorCodec | crates/libeq_wld/src/parser/fragments/actor.rs:79-168 | the actor's fields read back, and whatever parses is well formed and re-encodes to its bytes |
| ActorFragment.ActorRoundTrip | crates/libeq_wld/src/parser/fragments/actor.rs:319-342 | a serialised actor parses back, user data included, leaving the padding after its user data |
| ActorFragment.ActorReparse | crates/libeq_wld/src/parser/fragments/actor.rs:79-168 | a parsed actor is well formed, and serialising it reproduces the input exactly when what was left over is the zero padding |
| ActorFragment.UserDataSectionAligned | crates/libeq_wld/src/parser/fragments/actor.rs:139-142 | the serialised user-data section, the size and its padding, is a multiple of 4 long |
| ActorFragment.UserDataAsWritten | crates/libeq_wld/src/parser/fragments/actor.rs:139-142 | the section `into_bytes` writes has length size + padding |
| ActorFragment.AsWrittenAgrees | crates/libeq_wld/src/parser/fragments/actor.rs:307-342 | when the size is the text plus one terminator, as in the fixtures, the as-written and corrected writers agree |
| ActorFragment.AsWrittenParsesAs | crates/libeq_wld/src/parser/fragments/actor.rs:139-142 | the as-written bytes of a well-formed actor parse as the actor with the user data its written bytes decode to, leaving the zero fill unread |
| ActorFragment.AsWrittenReadsBackIff | crates/libeq_wld/src/parser/fragments/actor.rs:139-142 | that reading is the actor itself exactly when user_data_size is at most the data length plus one |
| ActorFragment.AsWrittenMisreadsPadded | crates/libeq_wld/src/parser/fragments/actor.rs:139-142 | past that bound the actor parses back, whatever padding follows, as a different actor |
| ActorFragment.AsWrittenLosesUserData | crates/libeq_wld/src/parser/fragments/actor.rs:139-142 | an actor with empty user data of size 2, as written, parses back with user data `[0, 0x3a]` |
| TrackDefFragment.ParseFrameTransform | crates/libeq_wld/src/parser/fragments/track_def.rs:165-188 | never panics, fails exactly on fewer than 16 bytes, and re-encodes to the 16 bytes consumed |
| TrackDefFragment.FrameTransformRoundTrip | crates/libeq_wld/src/parser/fragments/track_def.rs:165-201 | a frame transform of eight i16 reads back |
| TrackDefFragment.ParseLegacyFrameTransform | crates/libeq_wld/src/parser/fragments/track_def.rs:236-259 | never panics, fails exactly on fewer than 32 bytes, and re-encodes to the 32 bytes consumed |
| TrackDefFragment.LegacyFrameTransformRoundTrip | crates/libeq_wld/src/parser/fragments/track_def.rs:236-272 | the legacy transform is written in the order it is read, so it reads back |
| TrackDefFragment.TransformCodecs | crates/libeq_wld/src/parser/fragments/track_def.rs:165-272 | both transform codecs are complete and sound |
| TrackDefFragment.TrackDefCodec | crates/libeq_wld/src/parser/fragments/track_def.rs:74-116 | a well-formed track reads back, and whatever parses is well formed and re-encodes |
| TrackDefFragment.TrackDefRoundTrip | crates/libeq_wld/src/parser/fragments/track_def.rs:303-373 | a serialised track parses back for either layout |
| TrackDefFragment.TrackDefReparse | crates/libeq_wld/src/parser/fragments/track_def.rs:74-116 | a parsed track is well formed, and re-serialises to its input exactly when nothing was left over |
| TrackDefFragment.OneLayout | crates/libeq_wld/src/parser/fragments/track_def.rs:78-86 | exactly one of the two lists is present, bit 0x08 chooses which, and it has frame_count entries |
| HierarchicalSpriteDefFragment.DagCodec | crates/libeq_wld/src/parser/fragments/hierarchical_sprite_def.rs:180-215 | a dag with as many sub-dags as its count reads back, and every parsed dag is such a one and re-encodes |
| HierarchicalSpriteDefFragment.StagesCodec | crates/libeq_wld/src/parser/fragments/hierarchical_sprite_def.rs:75-101 | the centre offset and bounding radius (bits 0x01, 0x02) and the attached skins (bit 0x200, two lists of num_attached_skins) read back and are present exactly when their bits are set |
| HierarchicalSpriteDefFragment.HierarchicalSpriteDefCodec | crates/libeq_wld/src/parser/fragments/hierarchical_sprite_def.rs:69-250 | a well-formed skeleton reads back, and whatever parses is well formed and re-encodes |
| HierarchicalSpriteDefFragment.HierarchicalSpriteDefRoundTrip | crates/libeq_wld/src/parser/fragments/hierarchical_sprite_def.rs:322-328 | a serialised skeleton parses back |
| HierarchicalSpriteDefFragment.HierarchicalSpriteDefReparse | crates/libeq_wld/src/parser/fragments/hierarchical_sprite_def.rs:69-250 | a parsed skeleton has num_dags dags with their sub-dag counts and its optional parts as its flags say, and re-serialises to its input exactly when nothing was left over |
| LightDefFragment.FramesCodec | crates/libeq_wld/src/parser/fragments/light_def.rs:70-96 | current frame, sleep, light levels and colours read back and are present exactly when bits 0x01, 0x02, 0x04, 0x10 are set, each list frame_count long |
| LightDefFragment.LayoutIgnoresOtherBits | crates/libeq_wld/src/parser/fragments/light_def.rs:155-186 | only bits 0x01, 0x02, 0x04 and 0x10 shape the layout; skip-frames (0x08) and every other bit are ignored |
| LightDefFragment.SkipFramesKeepsLayout | crates/libeq_wld/src/parser/fragments/light_def.rs:158 | flags 0x04 and 0x0c read the same layout |
| LightDefFragment.LightDefCodec | crates/libeq_wld/src/parser/fragments/light_def.rs:66-136 | a well-formed light reads back, and whatever parses is well formed and re-encodes |
| LightDefFragment.LightDefRoundTrip | crates/libeq_wld/src/parser/fragments/light_def.rs:226-231 | a serialised light parses back |
| LightDefFragment.LightDefReparse | crates/libeq_wld/src/parser/fragments/light_def.rs:66-136 | a parsed light is well formed and re-serialises to its input exactly when nothing was left over |
| VertexFrames.MatrixRoundTrip | crates/libeq_wld/src/parser/fragments/dm_track_def_2.rs:71-76 | a matrix of rows of the right width, laid end to end, parses back with its own dimensions |
| VertexFrames.MatrixSound | crates/libeq_wld/src/parser/fragments/dm_track_def_2.rs:71-76 | a parsed matrix has the requested rows and columns and re-encodes to the bytes consumed |
| VertexFrames.MatrixWidth | crates/libeq_wld/src/parser/fragments/dm_track_def.rs:40-44 | with k-byte values the matrix takes exactly `k * cols * rows` bytes and fails on anything shorter |
| DmTrackDef2Fragment.BodyCodec | crates/libeq_wld/src/parser/fragments/dm_track_def_2.rs:71-78 | frame_count frames of vertex_count i16 triples, then `size6`, read back and re-encode |
| DmTrackDef2Fragment.DmTrackDef2Codec | crates/libeq_wld/src/parser/fragments/dm_track_def_2.rs:60-119 | a well-formed track reads back, and whatever parses is well formed and re-encodes |
| DmTrackDef2Fragment.DmTrackDef2RoundTrip | crates/libeq_wld/src/parser/fragments/dm_track_def_2.rs:60-119 | a serialised track parses back |
| DmTrackDef2Fragment.DmTrackDef2Reparse | crates/libeq_wld/src/parser/fragments/dm_track_def_2.rs:71-76 | a parsed track has frame_count frames of vertex_count positions and re-serialises exactly when nothing was left over |
| DmTrackDef2Fragment.DmTrackDef2BytesLength | crates/libeq_wld/src/parser/fragments/dm_track_def_2.rs:98-119 | the serialised length is the 18-byte header, `6 * vertex_count * frame_count` bytes of frames, and the 2 bytes of `size6` |
| DmTrackDef2Fragment.DmTrackDef2Width | crates/libeq_wld/src/parser/fragments/dm_track_def_2.rs:60-94 | parsing never panics and fails exactly when the input is shorter than the header plus the frame matrix its counts declare |
| DmTrackDef2Fragment.FixtureReserialises | crates/libeq_wld/src/parser/fragments/dm_track_def_2.rs:138-162 | an input with the fixture's header (104 vertices, 15 frames) and 9380 bytes parses with nothing left and re-serialises to itself |
| DmTrackDefFragment.FramesWidth | crates/libeq_wld/src/parser/fragments/dm_track_def.rs:40-44 | the frames take `12 * vertex_count * frame_count` bytes and fail on anything shorter |
| DmTrackDefFragment.DmTrackDefCodec | crates/libeq_wld/src/parser/fragments/dm_track_def.rs:34-58 | a well-formed track written with little-endian flags reads back, and whatever parses re-encodes |
| DmTrackDefFragment.DmTrackDefRoundTrip | crates/libeq_wld/src/parser/fragments/dm_track_def.rs:34-80 | the corrected serialisation parses back |
| DmTrackDefFragment.DmTrackDefReparse | crates/libeq_wld/src/parser/fragments/dm_track_def.rs:40-44 | a parsed track has frame_count rows of vertex_count triples and re-serialises exactly when nothing was left over |
| DmTrackDefFragment.DmTrackDefBytesLength | crates/libeq_wld/src/parser/fragments/dm_track_def.rs:62-80 | the serialised length is `24 + 12 * vertex_count * frame_count` |
| DmTrackDefFragment.DmTrackDefWidth | crates/libeq_wld/src/parser/fragments/dm_track_def.rs:34-58 | parsing never panics and fails exactly when the input is shorter than the header plus its declared frames |
| DmTrackDefFragment.ByteSwap | crates/libeq_wld/src/parser/fragments/dm_track_def.rs:65 | the little-endian word of the big-endian bytes of x is x with its bytes reversed |
| DmTrackDefFragment.AsWrittenReversesFlags | crates/libeq_wld/src/parser/fragments/dm_track_def.rs:37-65 | the as-written bytes parse to the same track with its flag bytes reversed |
| DmTrackDefFragment.AsWrittenRoundTripIff | crates/libeq_wld/src/parser/fragments/dm_track_def.rs:37-65 | the as-written bytes read back exactly when the flag bytes are a palindrome |
| DmTrackDefFragment.AsWrittenChangesFlags | crates/libeq_wld/src/parser/fragments/dm_track_def.rs:37-65 | any flag word whose bytes are not a palindrome, written as the source writes it, comes back as a different track |
| DmTrackDefFragment.AsWrittenMisreadsFlagOne | crates/libeq_wld/src/parser/fragments/dm_track_def.rs:37-65 | flags 1 are written `00 00 00 01` and read back as 0x0100_0000 |
| DmSpriteDef2Fragment.ParseFaceEntry2 | crates/libeq_wld/src/parser/fragments/dm_sprite_def_2.rs:426-437 | never panics, fails exactly on fewer than 8 bytes and re-encodes to the 8 bytes consumed |
| DmSpriteDef2Fragment.FaceEntry2RoundTrip | crates/libeq_wld/src/parser/fragments/dm_sprite_def_2.rs:426-446 | a face entry reads back from its 8 bytes |
| DmSpriteDef2Fragment.ParseMeshOp2 | crates/libeq_wld/src/parser/fragments/dm_sprite_def_2.rs:481-512 | panics exactly on fewer than 4 bytes (the unchecked slice), fails on 4 or 5, and otherwise yields a well-formed op (offset iff type 4, the two indexes iff not) re-encoding to the 6 bytes consumed |
| DmSpriteDef2Fragment.MeshOp2RoundTrip | crates/libeq_wld/src/parser/fragments/dm_sprite_def_2.rs:481-522 | a well-formed mesh operation reads back from its 6 bytes |
| DmSpriteDef2Fragment.HeaderCodecs | crates/libeq_wld/src/parser/fragments/dm_sprite_def_2.rs:197-245 | the references, bounds and counts at the head of the fragment read back and re-encode |
| DmSpriteDef2Fragment.ListsCodec | crates/libeq_wld/src/parser/fragments/dm_sprite_def_2.rs:247-271 | every list has the length of its count field, reads back and re-encodes |
| DmSpriteDef2Fragment.MeshOpPadding | crates/libeq_wld/src/parser/fragments/dm_sprite_def_2.rs:315-321 | the padding is fewer than 4 bytes |
| DmSpriteDef2Fragment.MeshOpPaddingParity | crates/libeq_wld/src/parser/fragments/dm_sprite_def_2.rs:315-321 | two zeros after an odd number of mesh operations, none after an even number |
| DmSpriteDef2Fragment.DmSpriteDef2RoundTrip | crates/libeq_wld/src/parser/fragments/dm_sprite_def_2.rs:597-611 | a serialised mesh parses back, leaving its padding |
| DmSpriteDef2Fragment.DmSpriteDef2Exact | crates/libeq_wld/src/parser/fragments/dm_sprite_def_2.rs:196-310 | whatever parses is well formed and its fields re-encode to the bytes consumed |
| DmSpriteDef2Fragment.DmSpriteDef2Reparse | crates/libeq_wld/src/parser/fragments/dm_sprite_def_2.rs:196-398 | a parsed mesh re-serialises to its input exactly when what was left over is its padding |
| DmSpriteDef2Fragment.DmSpriteDef2Alignment | crates/libeq_wld/src/parser/fragments/dm_sprite_def_2.rs:314-398 | as the padding counts only the mesh operations, the length is 0 mod 4 only when `2 * positions + 3 * normals` is |
| DmSpriteDefFragment.ParseFaceEntry | crates/libeq_wld/src/parser/fragments/dm_sprite_def.rs:484-499 | never panics, fails exactly on fewer than 16 bytes and re-encodes to the 16 bytes consumed |
| DmSpriteDefFragment.FaceEntryRoundTrip | crates/libeq_wld/src/parser/fragments/dm_sprite_def.rs:468-500 | a face entry reads back from its 16 bytes |
| DmSpriteDefFragment.ParseMeshOp | crates/libeq_wld/src/parser/fragments/dm_sprite_def.rs:542-569 | never panics, fails exactly on fewer than 12 bytes, and yields an op with exactly one of vertex index and offset (offset iff type 4) |
| DmSpriteDefFragment.MeshOpRoundTrip | crates/libeq_wld/src/parser/fragments/dm_sprite_def.rs:527-569 | a well-formed mesh operation reads back from its 12 bytes |
| DmSpriteDefFragment.HeaderCodecs | crates/libeq_wld/src/parser/fragments/dm_sprite_def.rs:159-193 | the counts and placement at the head of the fragment read back and re-encode |
| DmSpriteDefFragment.SixCodec | crates/libeq_wld/src/parser/fragments/dm_sprite_def.rs:281-288 | the six words of params3 read back |
| DmSpriteDefFragment.StagesCodec | crates/libeq_wld/src/parser/fragments/dm_sprite_def.rs:195-288 | base arrays as long as their counts; size8/data8, face groups, vertex groups, params2 and params3 present exactly when bits 0x200, 0x800, 0x1000, 0x2000, 0x4000 are set, each list as long as its count |
| DmSpriteDefFragment.DmSpriteDefCodec | crates/libeq_wld/src/parser/fragments/dm_sprite_def.rs:158-437 | a well-formed mesh reads back, and whatever parses is well formed and re-encodes |
| DmSpriteDefFragment.DmSpriteDefRoundTrip | crates/libeq_wld/src/parser/fragments/dm_sprite_def.rs:660-666 | a serialised mesh parses back, consuming exactly its bytes |
| DmSpriteDefFragment.DmSpriteDefReparse | crates/libeq_wld/src/parser/fragments/dm_sprite_def.rs:158-437 | a parsed mesh is well formed and re-serialises to its input exactly when nothing was left over |
| RegionFragment.ParseWallWith | crates/libeq_wld/src/parser/fragments/region.rs:393-430 | a wall's vertex list has num_vertices entries, and its render method, render info and normal are all present exactly when bit 0x02 is set |
| RegionFragment.WallCodec | crates/libeq_wld/src/parser/fragments/region.rs:393-456 | a well-formed wall reads back, and whatever parses is well formed and re-encodes |
| RegionFragment.ParseVisNode | crates/libeq_wld/src/parser/fragments/region.rs:693-709 | never panics, fails exactly on fewer than 28 bytes and re-encodes to the 28 bytes consumed |
| RegionFragment.VisNodeCodec | crates/libeq_wld/src/parser/fragments/region.rs:693-721 | the vis node codec is complete, sound and 28 bytes wide |
| RegionFragment.RangeEntryBytes | crates/libeq_wld/src/parser/fragments/region.rs:777-783 | a byte entry is 1 byte, a word entry 2 |
| RegionFragment.EntryCodec | crates/libeq_wld/src/parser/fragments/region.rs:786-794 | byte entries with flag 0x80 and u16 entries without read back, 1 or 2 bytes wide |
| RegionFragment.ParseVisibleList | crates/libeq_wld/src/parser/fragments/region.rs:795-816 | a visible list holds range_count entries |
| RegionFragment.VisibleListSound | crates/libeq_wld/src/parser/fragments/region.rs:795-827 | reading never panics, needs `2 + w * range_count` bytes, and what it reads is well formed and re-encodes |
| RegionFragment.VisibleListCodec | crates/libeq_wld/src/parser/fragments/region.rs:786-827 | a visible list with entries of the kind the flag chooses reads back |
| RegionFragment.ObstacleTypeFromI32 | crates/libeq_wld/src/parser/fragments/region.rs:658-668 | decodes exactly the nine declared discriminants |
| RegionFragment.ObstacleTypeDecodes | crates/libeq_wld/src/parser/fragments/region.rs:658-673 | every obstacle type's code decodes to it |
| RegionFragment.ParseObstacleWith | crates/libeq_wld/src/parser/fragments/region.rs:528-593 | a parsed obstacle has a vertex list iff its type has one, a normal iff EdgePolygonNormalAbcd, an edge wall iff EdgeWall, and user data iff flag 0x04 |
| RegionFragment.ObstaclePanics | crates/libeq_wld/src/parser/fragments/region.rs:528-532 | fewer than 12 bytes fail; otherwise the parse panics exactly when the type word at offset 8 is undeclared |
| RegionFragment.ObstacleCodec | crates/libeq_wld/src/parser/fragments/region.rs:528-622 | a well-formed obstacle reads back, and whatever parses is well formed and re-encodes |
| RegionFragment.RegionCountsCodec | crates/libeq_wld/src/parser/fragments/region.rs:121-131 | the counts at the head of a region read back and re-encode |
| RegionFragment.VerticesSound | crates/libeq_wld/src/parser/fragments/region.rs:132-146 | region vertices, proximal regions and render vertices are as long as their counts, with no render vertices when num_walls is not 0 |
| RegionFragment.TreeSound | crates/libeq_wld/src/parser/fragments/region.rs:147-154 | walls, obstacles, vis nodes and visible lists are as many as their counts and well formed, the entries bytes iff flag 0x80 |
| RegionFragment.ExtrasSound | crates/libeq_wld/src/parser/fragments/region.rs:156-183 | sphere, reverb volume, reverb offset and mesh reference are present exactly when bits 0x01, 0x02, 0x04, 0x100 are set, and the user data is user_data_size long |
| RegionFragment.StagesCodec | crates/libeq_wld/src/parser/fragments/region.rs:132-183 | each stage of the region reads back and re-encodes |
| RegionFragment.RegionBytes | crates/libeq_wld/src/parser/fragments/region.rs:218-294 | the serialised region is a multiple of 4 long, less than 4 bytes past its fields |
| RegionFragment.RegionCodec | crates/libeq_wld/src/parser/fragments/region.rs:120-294 | a well-formed region reads back, and whatever parses is well formed and re-encodes |
| RegionFragment.RegionRoundTrip | crates/libeq_wld/src/parser/fragments/region.rs:995-1018 | a serialised region parses back, leaving its padding |
| RegionFragment.RegionExact | crates/libeq_wld/src/parser/fragments/region.rs:120-214 | whatever parses is well formed and its fields are exactly the bytes consumed |
| RegionFragment.RegionReparse | crates/libeq_wld/src/parser/fragments/region.rs:290-293 | a parsed region re-serialises to its input exactly when what was left over is its padding |
| WldDocument.WldHeaderBytes | crates/libeq_wld/src/parser/mod.rs:250-261 | the header is 28 bytes |
| WldDocument.WldHeaderCodec | crates/libeq_wld/src/parser/mod.rs:227-261 | the header reads back what it writes and re-encodes what it read |
| WldDocument.WldHeaderRest | crates/libeq_wld/src/parser/mod.rs:227-249 | the header parse never panics, succeeds exactly on 28 bytes or more, and leaves the rest |
| WldDocument.FragmentHeaderCodec | crates/libeq_wld/src/parser/mod.rs:298-311 | a fragment header with size bytes of data reads back, and every parsed one has them and re-encodes |
| WldDocument.FragmentHeaderFails | crates/libeq_wld/src/parser/mod.rs:298-311 | never panics, and fails exactly when the input is shorter than 8 bytes plus the declared size |
| WldDocument.ParseBodiesPartition | crates/libeq_wld/src/parser/mod.rs:44-55 | fragments and errors together number the headers; with no error the fragments are the bodies decoded |
| WldDocument.ParseLayout | crates/libeq_wld/src/parser/mod.rs:34-43 | the pool is string_hash_size bytes and there are fragment_count fragment headers |
| WldDocument.ParsedFragmentCount | crates/libeq_wld/src/parser/mod.rs:44-61 | a parsed document holds exactly fragment_count fragments |
| WldDocument.RejectedBodyFailsDoc | crates/libeq_wld/src/parser/mod.rs:44-61 | a body the decoder rejects, at any index, makes the whole parse an error that lists it |
| WldDocument.FramedAligned | crates/libeq_wld/src/parser/mod.rs:170-195 | every body is padded to a multiple of 4 and records its padded length and its type |
| WldDocument.WldDocRoundTrip | crates/libeq_wld/src/parser/mod.rs:34-195 | given codecs that read back, a well-formed document serialised (ending in ff ff ff ff) and parsed is the same header, pool and fragments |
| WldDocument.MisreadBreaksRoundTrip | crates/libeq_wld/src/parser/mod.rs:34-195 | one fragment anywhere in a well-formed document whose padded body does not decode back to it keeps the written document from parsing back as itself |
| WldDocument.AssembleMisread | crates/libeq_wld/src/parser/mod.rs:44-60 | when the body at position j does not parse as f, no document the parse returns has f at position j |
| WldDocument.FragmentHeadersByOffset | crates/libeq_wld/src/parser/mod.rs:64-86 | the method computes the offset map its specification function defines |
| WldDocument.WalkHeaders | crates/libeq_wld/src/parser/mod.rs:70-85 | the loop records n headers, each under `total - remaining.len()`, as the walk function defines |
| WldDocument.HeadersFromSucceeds | crates/libeq_wld/src/parser/mod.rs:70-85 | the walk succeeds exactly when `count(FragmentHeader::parse, n)` does |
| WldDocument.HeadersByOffsetMatchesLayout | crates/libeq_wld/src/parser/mod.rs:64-86 | the map exists exactly when `parse` frames the document, and holds fragment_count distinct offsets past header and pool, each mapped to the header found there |
| WldDocument.FindByName | crates/libeq_wld/src/parser/mod.rs:140-156 | the position of the first fragment whose name resolves to the target, or none when there is none |
| WldDocument.IndexLookup | crates/libeq_wld/src/parser/mod.rs:127-138 | `Index(k)` finds fragment k - 1 exactly when it is in range and of the wanted type |
| WldDocument.NameLookup | crates/libeq_wld/src/parser/mod.rs:140-156 | a name reference finds the first fragment carrying that name when it has the wanted type, and nothing otherwise |
| WldDocument.NameZeroFindsFirstUnnamed | crates/libeq_wld/src/parser/mod.rs:140-156 | with the pool's leading NUL, `Name(0)` finds the first fragment whose name is empty, not nothing |
| FragmentTable.DecodeKnows | crates/libeq_wld/src/parser/mod.rs:313-496 | the dispatch, which sends each covered id to the format `fragments/mod.rs` defines for it, decodes exactly the ten covered type ids and reports every other as unknown |
| FragmentTable.UnknownTypeRejected | crates/libeq_wld/src/parser/mod.rs:491-494 | an unknown type id gives an `UnknownFragment` error carrying the index and the header |
| FragmentTable.DecodeEncode | crates/libeq_wld/src/parser/mod.rs:313-505 | for any table of codecs that read back, each fragment decodes from its own encoding under its own type id, whatever padding follows |
| FragmentTable.StandardReadsBack | crates/libeq_wld/src/parser/mod.rs:313-496 | every one of the ten fragment codecs, with the corrected Actor and DmTrackDef writers, reads back its own bytes |
| FragmentTable.DocumentRoundTrip | crates/libeq_wld/src/parser/mod.rs:34-195 | a well-formed document of covered fragments, written by `into_bytes` with the corrected Actor and DmTrackDef writers and parsed, is the same document |
| FragmentTable.ActorAsWrittenReadsBack | crates/libeq_wld/src/parser/fragments/actor.rs:139-142 | with the source's Actor writer, every well-formed actor whose user_data_size is at most its data length plus one reads back from any input its bytes begin |
| FragmentTable.DmTrackDefAsWrittenReadsBack | crates/libeq_wld/src/parser/fragments/dm_track_def.rs:37-65 | with the source's big-endian flags writer, every well-formed track whose flag bytes are a palindrome reads back from any input its bytes begin |
| FragmentTable.AsWrittenReadsBack | crates/libeq_wld/src/parser/mod.rs:313-473 | the ten codecs with the source's writers all read back, each under its as-written condition |
| FragmentTable.AsWrittenDocumentRoundTrip | crates/libeq_wld/src/parser/mod.rs:34-195 | a document whose fragments all meet the as-written conditions, written with the source's writers and parsed, is the same document |
| FragmentTable.AsWrittenMisreads | crates/libeq_wld/src/parser/mod.rs:170-195 | a fragment that is well formed but misses its as-written condition (an Actor past the size bound, a DmTrackDef whose flags are not a byte palindrome) does not decode back from its padded as-written body |
| FragmentTable.AsWrittenDocumentRoundTripIff | crates/libeq_wld/src/parser/mod.rs:34-195 | a well-formed document written with the source's writers parses back as itself exactly when every fragment in it meets its as-written condition |
| Unknown0x2eFragment.ParseUnknown0x2e | crates/libeq_wld/src/parser/fragments/unknown_0x2e.rs:23-33 | fails exactly on fewer than 4 bytes, never panics, reads the name reference and leaves the rest unread; writing the result gives back the first four bytes only |
| Unknown0x2eFragment.Unknown0x2eRoundTrip | crates/libeq_wld/src/parser/fragments/unknown_0x2e.rs:23-33 | a name reference written and parsed comes back, with what follows left over |
| Unknown0x2eFragment.Unknown0x2eDropsTrack | crates/libeq_wld/src/parser/mod.rs:453-456 | a DmTrackDef body sent, as `parse_body` sends type 0x2e, to the older struct keeps its name, and the struct writes 4 bytes where the track took at least 24 |
| MeshViews.IndicesShape | crates/libeq_wld/src/lib.rs:190-203 | three indices per face, face k's at 3k, 3k+1, 3k+2 |
| MeshViews.IndicesAppend | crates/libeq_wld/src/lib.rs:190-203 | the indices of two runs of faces are those of each in turn |
| MeshViews.SolidFacesSpec | crates/libeq_wld/src/lib.rs:206-220 | the filter keeps exactly the faces with bit 0x10 clear, in order |
| MeshViews.CollisionIndicesSpec | crates/libeq_wld/src/lib.rs:206-220 | collision indices distribute over runs, are all the indices when every face is solid and none when none is |
| MeshViews.Primitives | crates/libeq_wld/src/lib.rs:244-267 | the loop with its running position computes the runs of the specification function |
| MeshViews.BatchesPanics | crates/libeq_wld/src/lib.rs:262 | the primitives panic exactly when the group counts add up to more than the faces |
| MeshViews.BatchesContents | crates/libeq_wld/src/lib.rs:244-267 | one primitive per group, with the group's count of faces right after those before it, and the group's material |
| MeshViews.BatchesCover | crates/libeq_wld/src/lib.rs:244-267 | the primitives, laid end to end, partition the faces the groups claim |
| MeshViews.PrimitivesCoverMesh | crates/libeq_wld/src/lib.rs:244-304 | the primitives' indices are the mesh's indices over the faces claimed, all of them when the groups claim every face |
| MeshViews.ResolveAllSpec | crates/libeq_wld/src/lib.rs:223-241 | resolving a list of references succeeds exactly when each resolves, and gives them in order |
| MeshViews.MaterialsSpec | crates/libeq_wld/src/lib.rs:223-241 | panics unless the palette and every material it names resolve; then the materials in palette order |
| MeshViews.PrimitiveMaterialSpec | crates/libeq_wld/src/lib.rs:319-321 | a primitive's material is the palette's material_idx-th entry resolved; anything else panics |
| MeshViews.AnimatedVerticesByIndex | crates/libeq_wld/src/lib.rs:270-280 | animated vertices exist only through a track, and are found exactly when both hops resolve |
| MeshViews.BaseColorTextureSpec | crates/libeq_wld/src/lib.rs:342-350 | either hop failing gives no texture; both succeeding gives the sprite definition |
| MeshViews.LowerSpec | crates/libeq_wld/src/lib.rs:375-393 | lowering keeps the length, leaves no capital and other characters alone, and is idempotent |
| MeshViews.SourcesSpec | crates/libeq_wld/src/lib.rs:397-399 | no source exactly when no frame contributes a name; otherwise the first name of the first frame that does |
| MeshViews.FrameSourcesByIndex | crates/libeq_wld/src/lib.rs:375-393 | a frame named by index contributes the lowered file names of its BmInfo |
| ArchiveCrc.Round | crates/libeq_archive/src/lib.rs:305-318 | a round keeps the register 32 bits wide |
| ArchiveCrc.BuildCrcTable | crates/libeq_archive/src/lib.rs:299-322 | fills a fresh 256-entry table whose entry i is eight shift-and-reduce rounds with 0x04C11DB7 from `i << 24` |
| ArchiveCrc.EntryRegister | crates/libeq_archive/src/lib.rs:305-318 | the inner loop computes the table entry of its seed |
| ArchiveCrc.RoundLinear | crates/libeq_archive/src/lib.rs:305-318 | a round is linear over GF(2) |
| ArchiveCrc.StepIsBitStep | crates/libeq_archive/src/lib.rs:289-322 | one table step is one byte fed into the top of the register plus eight rounds |
| ArchiveCrc.CrcIsBitwise | crates/libeq_archive/src/lib.rs:289-322 | the table-driven checksum is the bitwise non-reflected CRC-32 |
| ArchiveCrc.CrcAppend | crates/libeq_archive/src/lib.rs:289-297 | checksumming two pieces in turn is checksumming their concatenation |
| ArchiveCrc.NameCrcSpec | crates/libeq_archive/src/lib.rs:289-297 | the name checksum is the bitwise CRC of the name and one NUL from 0, with no final inversion |
| ArchiveCrc.LeadingZeroInvisible | crates/libeq_archive/src/lib.rs:289-297 | with a zero start and no inversion, leading NULs do not change the checksum |
| ArchiveDirectory.DirectoryString | crates/libeq_archive/src/parser/directory.rs:42-52 | what it reads is valid UTF-8 with no trailing NUL, past a 4-byte length |
| ArchiveDirectory.StoredStringReads | crates/libeq_archive/src/parser/directory.rs:42-52 | a length and that many bytes read as the bytes trimmed of NULs, or panic if they are not UTF-8 |
| ArchiveDirectory.InvalidNamePanics | crates/libeq_archive/src/parser/directory.rs:42-52 | bytes that are not UTF-8 make the parse panic rather than fail |
| ArchiveDirectory.NameBytesStored | crates/libeq_archive/src/parser/directory.rs:28-34 | a name is written as the u32 of its length plus one, its bytes and a NUL |
| ArchiveDirectory.NameReadsBack | crates/libeq_archive/src/parser/directory.rs:22-52 | a written name reads back trimmed of trailing NULs, or panics if not UTF-8 |
| ArchiveDirectory.NameRoundTripIff | crates/libeq_archive/src/parser/directory.rs:22-52 | a UTF-8 name comes back unchanged exactly when it does not end in a NUL |
| ArchiveDirectory.TrailingNulLost | crates/libeq_archive/src/parser/directory.rs:42-52 | the name "a\0" reads back as "a" |
| ArchiveDirectory.DirectoryRoundTrip | crates/libeq_archive/src/parser/directory.rs:11-39 | a directory of UTF-8 names without trailing NULs reads back from `to_bytes` |
| ArchiveDirectory.ParsedNamesClean | crates/libeq_archive/src/parser/directory.rs:11-20 | every name of a parsed directory is UTF-8 without a trailing NUL |
| ArchiveDirectory.NameReencodes | crates/libeq_archive/src/parser/directory.rs:118-127 | re-writing a name read from a stored string reproduces the bytes exactly when it ended in exactly one NUL |
| ArchiveBlocks.ParseBlock | crates/libeq_archive/src/parser/block.rs:19-32 | never panics, and consumes exactly the block's size |
| ArchiveBlocks.BlockRoundTrip | crates/libeq_archive/src/parser/block.rs:19-41 | a block reads back from its bytes |
| ArchiveBlocks.ParseIndexEntry | crates/libeq_archive/src/parser/index_entry.rs:12-26 | never panics, and fails exactly on fewer than 12 bytes |
| ArchiveBlocks.IndexEntryRoundTrip | crates/libeq_archive/src/parser/index_entry.rs:12-40 | an index entry reads back from its 12 bytes |
| ArchiveBlocks.ParseBlocksRoundTrip | crates/libeq_archive/src/parser/archive.rs:52-61 | blocks read back from the bytes they were written to are each keyed by their offset |
| ArchiveBlocks.KeyBlocksAscending | crates/libeq_archive/src/parser/archive.rs:52-61 | the keys strictly increase and start at the offset given |
| ArchiveBlocks.From | crates/libeq_archive/src/lib.rs:233 | `range(k..)`: an entry is in the range exactly when it is in the map with a key at least k |
| ArchiveBlocks.FromAscending | crates/libeq_archive/src/lib.rs:233 | the range of a map with ascending keys has ascending keys |
| ArchiveBlocks.FromKeyBlocks | crates/libeq_archive/src/lib.rs:233 | a range query from between two block keys yields the blocks from the later one on |
| ArchiveBlocks.Gather | crates/libeq_archive/src/lib.rs:233-260 | what the fold returns is between one block and all of them |
| ArchiveBlocks.GatherSound | crates/libeq_archive/src/lib.rs:233-260 | what `get_blocks` returns is the shortest run from the start whose sizes add up exactly |
| ArchiveBlocks.GatherComplete | crates/libeq_archive/src/lib.rs:233-260 | when such a run exists, `get_blocks` returns it |
| ArchiveBlocks.GatherPanics | crates/libeq_archive/src/lib.rs:233-260 | `get_blocks` panics exactly when no run from the start adds up exactly |
| ArchiveBlocks.EmptyFilePanics | crates/libeq_archive/src/lib.rs:227-261 | for an entry of no bytes, `get_blocks` panics whenever the next block holds any bytes, as every block written does |
| ArchiveBlocks.EmptyFileFixed | crates/libeq_archive/src/lib.rs:227-261 | the corrected version returns no blocks for an empty file and otherwise agrees |
| EqArchives.FirstMatch | crates/libeq_archive/src/lib.rs:79-85 | the position of the first file with that name, or none exactly when no file has it |
| EqArchives.RemoveFirstSpec | crates/libeq_archive/src/lib.rs:79-85 | `remove` finds nothing exactly when no file has the name; otherwise returns the first such file and keeps the others, in order |
| EqArchives.RemoveFirstCounts | crates/libeq_archive/src/lib.rs:79-85 | `remove` takes out one file of that name, if any, and none of any other name |
| EqArchives.FileBlocksCover | crates/libeq_archive/src/lib.rs:104-118 | the chunks of a file add up to its length, none empty and none over 8192 bytes, none at all for an empty file |
| EqArchives.FileBlocksDecompress | crates/libeq_archive/src/lib.rs:211-222 | decompressing a file's blocks with an inverse of the compressor gives the file |
| EqArchives.Scan | crates/libeq_archive/src/lib.rs:101-135 | one entry per file, plus the directory |
| EqArchives.Items | crates/libeq_archive/src/lib.rs:91-99 | the files, then the directory under no name |
| EqArchives.EqArchive.constructor | crates/libeq_archive/src/lib.rs:43-45 | a new archive holds no files |
| EqArchives.EqArchive.Push | crates/libeq_archive/src/lib.rs:75-77 | the file goes on the end |
| EqArchives.EqArchive.Remove | crates/libeq_archive/src/lib.rs:79-85 | the first file with exactly that name is taken out and returned, as `RemoveFirst` says |
| EqArchives.EqArchive.ToBytes | crates/libeq_archive/src/lib.rs:87-173 | the method computes the bytes of the layout function |
| EqArchives.ModifyArchive | crates/libeq_archive/src/lib.rs:360-375 | the test's pushes and removes leave exactly the file test1.bmp, empty |
| ArchiveLayout.ScanOffsets | crates/libeq_archive/src/lib.rs:101-135 | each entry's offset is the previous one's plus its blocks, and each holds its file's name, checksum, size and blocks |
| ArchiveLayout.ChainPositions | crates/libeq_archive/src/lib.rs:101-135 | each entry sits at the start plus the size of every block before it |
| ArchiveLayout.ScanBlocksNonEmpty | crates/libeq_archive/src/lib.rs:101-135 | every block holds at least one byte |
| ArchiveLayout.LastIsLargest | crates/libeq_archive/src/lib.rs:177-189 | the offsets never decrease, so the directory entry has the largest |
| ArchiveLayout.ArchiveEntries | crates/libeq_archive/src/lib.rs:91-135 | one entry per file with its name CRC, size and blocks, then the directory with checksum 0xffffffff and the largest offset |
| ArchiveLayout.ArchiveFrame | crates/libeq_archive/src/lib.rs:137-173 | the header's index_offset is 12 plus the compressed data, which follows the header; then the entry count, the index entries and the footer |
| ArchiveLayout.ReadBack | crates/libeq_archive/src/lib.rs:227-261 | with offsets counted as the block map keys them, each entry gets exactly its own blocks |
| ArchiveLayout.FixedArchiveReadsBack | crates/libeq_archive/src/parser/archive.rs:40-72 | with offsets counted from the start of the file, `Archive::parse`'s block map gives each entry exactly its own blocks |
| ArchiveLayout.FixedArchiveFileContents | crates/libeq_archive/src/lib.rs:211-222 | and they decompress to the file |
| ArchiveLayout.FixedArchiveDirectory | crates/libeq_archive/src/lib.rs:91-99 | the directory found again lists the file names, in order |
| ArchiveLayout.AsWrittenOffsetsLag | crates/libeq_archive/src/lib.rs:101-135 | as written, each data_offset is 12 less than the key of its first block |
| ArchiveLayout.AsWrittenReadsBackLargeBlocks | crates/libeq_archive/src/lib.rs:227-261 | as written, each file is still found when every block is over 12 bytes |
| ArchiveLayout.AsWrittenReadsBackZlib | crates/libeq_archive/src/lib.rs:101-135 | as written, with a compressor whose every output is at least the 8 bytes of the shortest zlib stream, each file is still found by `get_blocks` |
| ArchiveLayout.AsWrittenMisreads | crates/libeq_archive/src/lib.rs:101-135 | as written, with a stand-in compressor that stores two one-byte files as they are (9-byte blocks, which zlib never produces), the second file's entry returns the first file's block |
| ArchiveLayout.EmptyFileUnreadable | crates/libeq_archive/src/lib.rs:233-260 | an empty file in an archive makes `get_blocks` panic |
| ArchiveLayout.EmptyFileFixedReads | crates/libeq_archive/src/lib.rs:227-261 | with empty files handled, its entry yields no blocks, which decompress to the empty file |

## Left out

- Windows-1252: `encoding_rs` is a foreign call. Names stay bytes. `StringHash` keys are then raw
  byte offsets; the Rust code uses UTF-8 offsets of the decoded text, which agree for ASCII pools.
  `Encoding::decode` also sniffs a byte-order mark: a decoded pool starting with EF BB BF is read as
  UTF-8, and one starting with FF FE or FE FF as UTF-16. The mark is stripped, so every later
  offset shifts. The model keeps the bytes unchanged in every case.
- Floats: positions, normals, texture coordinates, frame scaling and object placement are float
  arithmetic. Every `f32` is an opaque 32-bit word.
- zlib: `Archive::parse` and `decompress` call it. It is a parameter of the model.
- I/O: `EqArchive::read`, the CLI and TUI tools, and all file I/O are not modelled.
- Other fragment types: the other libeq_wld fragment types are outside the model. The model's
  dispatch treats their type ids as unknown, whereas the source decodes them.
- The older `src/` crate is a superseded copy of the same codec and is not modelled.
- `WldDoc::get`: lookups are modelled as `GetFragment` over the document with a type-id test,
  which stands in for the `Any` downcast.
- Archive parsing: `Archive::filenames`, `get`, `files`, `Archive::to_bytes`, and the
  header/footer parsers are used only through the layout they read. The header and footer are
  modelled as the bytes `to_bytes` writes.
- `decompress`: its `expect` on a zlib error panics. Decompression is a total function parameter.
- Integer overflow: `+` and `+=` that overflow are modelled as panics, as in a debug build; a
  release build would wrap. This covers `EqArchives.Scan` (the running position),
  `EqArchives.Assemble` (the index offset), `ArchiveBlocks.Gather` (the collected size) and
  `BmInfoFragment.ParseBmInfoWith`, where a release build would read a count of 0xffffffff as 0
  entries. `Strings.GetChecked` states the debug-build panic of `abs()` on `i32::MIN`.
- Strings.Get: models the release build, where the reference `i32::MIN` finds nothing. The name
  lookups built on it (`WldDocument.FindByName`, `WldDocument.GetByNameRef`, `MeshViews.Find`) do
  not carry the debug-build panic that `Strings.GetChecked` states.
- WldDocument.GetByIndexRef: for `Index(0)` it returns `None`; the source's `idx - 1` on a `u32`
  panics there in a debug build and wraps to a miss in a release build. `FragmentRef::new` never
  makes `Index(0)`.
- FragmentTable.Decode: sends each covered id to the format `fragments/mod.rs` defines for it.
  `parse_body` (crates/libeq_wld/src/parser/mod.rs:313-473) still names older structs for these ids:
  `TextureImagesFragment` (0x03), `BspRegionFragment` (0x22), `MeshFragment` (0x36),
  `AlternateMeshFragment` (0x2c), `MobSkeletonPieceTrackFragment` (0x12), `SkeletonTrackSetFragment`
  (0x10), `ObjectLocationFragment` (0x15), `LightSourceFragment` (0x1b),
  `MeshAnimatedVerticesFragment` (0x37) and `Unknown0x2eFragment` (0x2e). `fragments/mod.rs` declares
  none of them, so the dispatch as it stands does not match the fragment modules beside it. Their
  codecs are not modelled, except `Unknown0x2eFragment`, whose loss of a DmTrackDef body
  `Unknown0x2eDropsTrack` states.
- FragmentTable.DecodeKnows: states the ten ids of the model's dispatch; `parse_body` knows many
  more (see "Other fragment types").
- FragmentTable.DecodeEncode: generic over a table of codecs; the tables used are the model's own
  formats, not the older structs `parse_body` names.
- FragmentTable.StandardReadsBack: the table holds the corrected Actor writer and the little-endian
  DmTrackDef writer. The source's writers form the table `AsWritten`, which reads back only under the
  narrower conditions of `AsWrittenReadsBack`.
- FragmentTable.DocumentRoundTrip: a round trip through the model's dispatch and corrected writers.
  Through the source's writers it holds exactly under `AsWrittenDocumentRoundTripIff`'s condition;
  through the source's dispatch a 0x2e body comes back as its name alone.
- WldDocument.WldDocRoundTrip: stated for documents whose pool is canonical (NUL-free names,
  zero-padded), since `into_bytes` writes the pool as decoded names.
- ArchiveDirectory.DirectoryRoundTrip: holds only for UTF-8 names without a trailing NUL. Other
  names do not come back, which `NameRoundTripIff` and `InvalidNamePanics` state.

## Findings

| source | as written | input that shows it | evidently intended | confidence | as-written member | corrected member |
|---|---|---|---|---|---|---|
| crates/libeq_wld/src/parser/fragments/common/render_info.rs:284-288 | `texture_style` unwraps `from_u32` of the four-bit field, but `TextureStyle` declares no 0xd | render method 0x680 | every value of the field decodes, as the comment beside it says | not executed | RenderInfoRecord.TextureStylePanicsOn0xD | RenderInfoRecord.TextureStyleFieldAgrees |
| crates/libeq_wld/src/parser/fragments/dm_track_def.rs:37-65 | flags are read little-endian and written with `to_be_bytes` | a DmTrackDef with flags 1 reads back with flags 0x0100_0000 | flags written little-endian like every other field | not executed | DmTrackDefFragment.AsWrittenMisreadsFlagOne | DmTrackDefFragment.DmTrackDefRoundTrip |
| crates/libeq_wld/src/parser/fragments/actor.rs:139-142 | the user data plus one NUL is encoded, then zero-filled to the padded size; the zeros are not encoded, so the size's bytes past the terminator are not the key stream that decodes to NUL | an actor with empty user data and user_data_size 2 reads back with user data `[0, 0x3a]` | the NUL-filled user data encoded as a whole, which decodes back to the text | not executed | ActorFragment.AsWrittenLosesUserData | ActorFragment.ActorRoundTrip |
| crates/libeq_archive/src/lib.rs:101-135 | `to_bytes` starts the running position at 0, so every data_offset is 12 below the absolute file offset of the file's first block, which is what the format stores (the gfaydark fixtures pair a block at byte 155621 with a data_offset of 0x25fe5 = 155621) | any archive `to_bytes` writes: each entry's data_offset lags its block by 12 (`AsWrittenOffsetsLag`); with blocks of 12 bytes or fewer, which only a stand-in compressor makes, the second file's entry even yields the first file's block (`AsWrittenMisreads`) | positions counted from the start of the file | not executed | ArchiveLayout.AsWrittenOffsetsLag | ArchiveLayout.FixedArchiveReadsBack |
| crates/libeq_archive/src/lib.rs:233-260 | `get_blocks` stops only when the sum reaches the size, so an empty file runs on into the next file's block and panics | an archive holding an empty file | an empty file yields no blocks | not executed | ArchiveLayout.EmptyFileUnreadable | ArchiveLayout.EmptyFileFixedReads |

Blocks over 12 bytes hide the off-by-12 offset from libeq's own reader. A zlib stream is at least
8 bytes, so with the 8-byte block header every block `to_bytes` writes is at least 16 bytes, and
the range query always skips to the right block (`ArchiveLayout.AsWrittenReadsBackLargeBlocks`,
`ArchiveLayout.AsWrittenReadsBackZlib`). The lag still breaks any reader that seeks to the stored
offset, as the format's own archives show it should. `DmSpriteDef2Alignment` shows a
second alignment quirk. `DmSpriteDef2::to_bytes` pads by the length of the mesh operations alone,
so the body is not always a multiple of 4. This does not break the file, because the document
layer pads every body again (`WldDocument.FramedAligned`).
