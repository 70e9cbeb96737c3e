/**
 * The older `Unknown0x2eFragment`, the struct `parse_body` still sends
 * type 0x2e to. It reads and writes the name reference and nothing else:
 * any body read through it keeps only its first four bytes when written
 * again, so a DmTrackDef (also type 0x2e) loses its flags, counts and
 * frames.
 */
module Unknown0x2eFragment {
  import opened Wire
  import opened Strings
  import V = DmTrackDefFragment

  datatype Unknown0x2e = Unknown0x2e(name_reference: StringReference)

  /** `Unknown0x2eFragment::into_bytes`: the name reference alone. */
  function Unknown0x2eBytes(x: Unknown0x2e): (b: Bytes)
    ensures |b| == 4
  {
    StringReferenceBytes(x.name_reference)
  }

  /**
   * `Unknown0x2eFragment::parse`: the name reference; whatever follows is
   * left unread, and writing the value again gives back the first four
   * bytes only.
   */
  function ParseUnknown0x2e(s: Bytes): (o: Outcome<Unknown0x2e>)
    ensures o.Failure? <==> |s| < 4
    ensures !o.Panic?
    ensures o.Done? ==> Unknown0x2eBytes(o.value) == s[..4] && o.rest == s[4..]
  {
    var n :- ParseStringReference(s);
    Done(Unknown0x2e(n.value), n.rest)
  }

  lemma Unknown0x2eRoundTrip(x: Unknown0x2e, rest: Bytes)
    ensures ParseUnknown0x2e(Unknown0x2eBytes(x) + rest) == Done(x, rest)
  {
    StringReferenceRoundTrip(x.name_reference, rest);
  }

  /**
   * A DmTrackDef body, however it is padded, read through the older
   * struct: its name comes back, and writing the result again gives four
   * bytes where the DmTrackDef took at least `HeaderSize`.
   */
  lemma Unknown0x2eDropsTrack(d: V.DmTrackDef, pad: Bytes)
    ensures var o := ParseUnknown0x2e(V.DmTrackDefBytes(d) + pad);
      o.Done? && o.value.name_reference == d.name_reference &&
      |Unknown0x2eBytes(o.value)| + V.HeaderSize - 4 <= |V.DmTrackDefBytes(d)|
  {
    var tail := LeU32(d.flags) + V.TailBytes(d);
    assert V.DmTrackDefBytes(d) + pad == StringReferenceBytes(d.name_reference) + (tail + pad);
    StringReferenceRoundTrip(d.name_reference, tail + pad);
  }
}
