/**
 * A bitmap file name: a u16 length, then that many bytes of text obscured
 * with the string-pool key; the text carries a NUL terminator on disk that
 * the decoded name does not.
 */
module EncodedFilenames {
  import opened Wire
  import opened Strings

  datatype EncodedFilename = EncodedFilename(name_length: u16, file_name: Bytes)

  function ParseEncodedFilename(s: Bytes): (o: Outcome<EncodedFilename>)
    ensures o.Failure? <==> |s| < 2 || |s| < 2 + LeU16Value(s)
    ensures !o.Panic?
    ensures o.Done? ==> |o.rest| == |s| - 2 - o.value.name_length
  {
    var n :- U16(s);
    var raw :- Take(n.value, n.rest);
    Done(EncodedFilename(n.value, TrimEndNuls(Cipher(raw.value))), raw.rest)
  }

  /** The length word at the front of `s`, 0 when `s` is too short to hold one. */
  function LeU16Value(s: Bytes): nat
  {
    if |s| < 2 then 0 else s[0] as int + 0x100 * s[1] as int
  }

  function EncodedFilenameBytes(f: EncodedFilename): (b: Bytes)
    ensures |b| == 3 + |f.file_name|
  {
    LeU16(f.name_length) + Cipher(f.file_name + [0])
  }

  /** The stored length counts the name and its terminator, and the name does not itself end in a NUL. */
  predicate EncodedFilenameWellFormed(f: EncodedFilename)
  {
    f.name_length == |f.file_name| + 1 && NoTrailingNul(f.file_name)
  }

  lemma EncodedFilenameRoundTrip(f: EncodedFilename, rest: Bytes)
    requires EncodedFilenameWellFormed(f)
    ensures ParseEncodedFilename(EncodedFilenameBytes(f) + rest) == Done(f, rest)
  {
    var text := Cipher(f.file_name + [0]);
    var s := EncodedFilenameBytes(f) + rest;
    assert s == LeU16(f.name_length) + (text + rest);
    U16RoundTrip(f.name_length, text + rest);
    TakeRoundTrip(text, rest);
    CipherInvolution(f.file_name + [0]);
    assert f.file_name + [0] == f.file_name + Zeros(1);
    TrimZeros(f.file_name, 1);
  }

  /**
   * A parsed file name re-encodes to exactly the bytes it was read from if
   * and only if it is well formed, that is when the stored text ended in
   * exactly one NUL.
   */
  lemma EncodedFilenameExact(s: Bytes)
    ensures var o := ParseEncodedFilename(s);
      o.Done? ==> (EncodedFilenameWellFormed(o.value) <==> s == EncodedFilenameBytes(o.value) + o.rest)
  {
    var o := ParseEncodedFilename(s);
    if o.Done? {
      var f := o.value;
      var n := U16(s);
      var raw := Take(n.value, n.rest);
      var d := Cipher(raw.value);
      assert f.file_name == TrimEndNuls(d);
      assert s == LeU16(f.name_length) + raw.value + o.rest;
      if EncodedFilenameWellFormed(f) {
        assert |d| == |f.file_name| + 1;
        assert d == f.file_name + [0];
        CipherInvolution(raw.value);
        assert raw.value == Cipher(f.file_name + [0]);
      }
      if s == EncodedFilenameBytes(f) + o.rest {
        assert |raw.value| == |f.file_name| + 1;
      }
    }
  }

  lemma EncodedFilenameCodec()
    ensures Complete(ParseEncodedFilename, EncodedFilenameBytes, EncodedFilenameWellFormed)
    ensures Exact(ParseEncodedFilename, EncodedFilenameBytes, EncodedFilenameWellFormed)
  {
    forall f: EncodedFilename, rest: Bytes | EncodedFilenameWellFormed(f)
      ensures ParseEncodedFilename(EncodedFilenameBytes(f) + rest) == Done(f, rest)
    {
      EncodedFilenameRoundTrip(f, rest);
    }
    forall s: Bytes | ParseEncodedFilename(s).Done? && EncodedFilenameWellFormed(ParseEncodedFilename(s).value)
      ensures s == EncodedFilenameBytes(ParseEncodedFilename(s).value) + ParseEncodedFilename(s).rest
    {
      EncodedFilenameExact(s);
    }
  }
}
