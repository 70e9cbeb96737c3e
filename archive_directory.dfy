/**
 * The archive's directory: the list of file names an archive stores as its
 * last file (`crates/libeq_archive/src/parser/directory.rs`).  A name is a
 * Rust `String`; here it is the UTF-8 encoding of that string.
 */
module ArchiveDirectory {
  import opened Wire

  datatype Directory = Directory(filenames: seq<Bytes>)

  // ---- UTF-8 well-formedness, as `String::from_utf8` checks it

  predicate Continuation(b: byte)
  {
    0x80 <= b <= 0xBF
  }

  /** The range allowed for the second byte of a sequence led by `lead` (no overlongs, no surrogates, nothing past U+10FFFF). */
  predicate SecondByteOk(lead: byte, b: byte)
  {
    if lead == 0xE0 then 0xA0 <= b <= 0xBF
    else if lead == 0xED then 0x80 <= b <= 0x9F
    else if lead == 0xF0 then 0x90 <= b <= 0xBF
    else if lead == 0xF4 then 0x80 <= b <= 0x8F
    else Continuation(b)
  }

  /** The length of the well-formed character encoding `s` starts with, or 0 when it starts with none. */
  function CharWidth(s: Bytes): (k: nat)
    requires s != []
    ensures k <= 4 && k <= |s|
  {
    var b := s[0];
    if b < 0x80 then 1
    else if 0xC2 <= b <= 0xDF then
      (if |s| >= 2 && Continuation(s[1]) then 2 else 0)
    else if 0xE0 <= b <= 0xEF then
      (if |s| >= 3 && SecondByteOk(b, s[1]) && Continuation(s[2]) then 3 else 0)
    else if 0xF0 <= b <= 0xF4 then
      (if |s| >= 4 && SecondByteOk(b, s[1]) && Continuation(s[2]) && Continuation(s[3]) then 4 else 0)
    else 0
  }

  predicate ValidUtf8(s: Bytes)
    decreases |s|
  {
    s == [] || (CharWidth(s) > 0 && ValidUtf8(s[CharWidth(s)..]))
  }

  /** Only the first byte of a character can be below 0x80. */
  lemma CharWidthTail(s: Bytes)
    requires s != [] && CharWidth(s) > 0
    ensures forall i :: 1 <= i < CharWidth(s) ==> s[i] >= 0x80
  {
  }

  /** A character's width depends only on its own bytes. */
  lemma CharWidthPrefix(s: Bytes, t: Bytes)
    requires s != [] && CharWidth(s) > 0
    requires |t| >= CharWidth(s) && t[..CharWidth(s)] == s[..CharWidth(s)]
    ensures CharWidth(t) == CharWidth(s)
  {
    var k := CharWidth(s);
    assert forall i :: 0 <= i < k ==> t[i] == s[i] by {
      forall i | 0 <= i < k ensures t[i] == s[i] {
        assert t[..k][i] == s[..k][i];
      }
    }
  }

  lemma {:induction false} ValidAppend(a: Bytes, b: Bytes)
    requires ValidUtf8(a) && ValidUtf8(b)
    ensures ValidUtf8(a + b)
    decreases |a|
  {
    if a == [] {
      assert a + b == b;
    } else {
      var k := CharWidth(a);
      AppendSplit(a, b, k);
      CharWidthPrefix(a, a + b);
      ValidAppend(a[k..], b);
    }
  }

  lemma AppendSplit(a: Bytes, b: Bytes, k: nat)
    requires k <= |a|
    ensures (a + b)[..k] == a[..k] && (a + b)[k..] == a[k..] + b
  {
  }

  /** A NUL is a character of its own, so dropping a final NUL keeps the rest well-formed. */
  lemma {:induction false} ValidDropNul(a: Bytes)
    requires ValidUtf8(a + [0])
    ensures ValidUtf8(a)
    decreases |a|
  {
    if a != [] {
      var x := a + [0];
      var k := CharWidth(x);
      CharWidthTail(x);
      assert x[|a|] == 0;
      assert k <= |a|;
      assert x[..k] == a[..k];
      CharWidthPrefix(x, a);
      assert x[k..] == a[k..] + [0];
      ValidDropNul(a[k..]);
    }
  }

  lemma {:induction false} ValidDropZeros(a: Bytes, n: nat)
    requires ValidUtf8(a + Zeros(n))
    ensures ValidUtf8(a)
    decreases n
  {
    if n == 0 {
      assert a + Zeros(n) == a;
    } else {
      assert a + Zeros(n) == (a + Zeros(n - 1)) + [0];
      ValidDropNul(a + Zeros(n - 1));
      ValidDropZeros(a, n - 1);
    }
  }

  /** `trim_end_matches('\0')` on a well-formed string leaves a well-formed string. */
  lemma ValidTrim(b: Bytes)
    requires ValidUtf8(b)
    ensures ValidUtf8(TrimEndNuls(b))
  {
    TrimSplit(b);
    ValidDropZeros(TrimEndNuls(b), |b| - |TrimEndNuls(b)|);
  }

  lemma ValidNulTerminated(f: Bytes)
    requires ValidUtf8(f)
    ensures ValidUtf8(f + [0])
  {
    assert ValidUtf8([0][1..]);
    ValidAppend(f, [0]);
  }

  // ---- the codec

  /**
   * `directory_string`: a u32 length, that many bytes, decoded as UTF-8
   * (`unwrap` panics when they are not) and stripped of every trailing NUL.
   */
  function DirectoryString(s: Bytes): (o: Outcome<Bytes>)
    ensures o.Done? ==> ValidUtf8(o.value) && NoTrailingNul(o.value) && |o.rest| + 4 <= |s|
  {
    var len :- U32(s);
    var data :- Take(len.value, len.rest);
    if ValidUtf8(data.value) then
      ValidTrim(data.value);
      Done(TrimEndNuls(data.value), data.rest)
    else Panic
  }

  /** `Directory::parse`: a u32 count, then that many directory strings. */
  function ParseDirectory(s: Bytes): (o: Outcome<Directory>)
  {
    var count :- U32(s);
    var names :- Many(DirectoryString, count.value, count.rest);
    Done(Directory(names.value), names.rest)
  }

  const Wrap32: nat := 0x1_0000_0000

  /** One name as `to_bytes` writes it: the length of the name with its NUL (cast to u32), the name, a NUL. */
  function NameBytes(f: Bytes): Bytes
  {
    LeU32((|f| + 1) % Wrap32) + f + [0]
  }

  /** `Directory::to_bytes`: the number of names (cast to u32), then each name. */
  function DirectoryBytes(d: Directory): Bytes
  {
    LeU32(|d.filenames| % Wrap32) + Flat(NameBytes, d.filenames)
  }

  /** A name that survives the round trip: well-formed, no trailing NUL, and short enough for its length word. */
  predicate WellFormedName(f: Bytes)
  {
    ValidUtf8(f) && NoTrailingNul(f) && |f| + 1 < Wrap32
  }

  predicate WellFormed(d: Directory)
  {
    |d.filenames| < Wrap32 && forall f :: f in d.filenames ==> WellFormedName(f)
  }

  /** A length word followed by that many bytes reads as those bytes trimmed, or panics if they are not UTF-8. */
  lemma StoredStringReads(data: Bytes, rest: Bytes)
    requires |data| < Wrap32
    ensures DirectoryString(LeU32(|data|) + data + rest)
         == if ValidUtf8(data) then Done(TrimEndNuls(data), rest) else Panic
  {
    var s := LeU32(|data|) + (data + rest);
    Nest2(LeU32(|data|), data, rest);
    U32RoundTrip(|data|, data + rest);
    StringAfterLength(s, data, rest);
  }

  /** Once the length word has been read, the string is the next that many bytes. */
  lemma StringAfterLength(s: Bytes, data: Bytes, rest: Bytes)
    requires U32(s) == Done(|data|, data + rest)
    ensures DirectoryString(s) == if ValidUtf8(data) then Done(TrimEndNuls(data), rest) else Panic
  {
    TakeRoundTrip(data, rest);
  }

  lemma TrimNul(f: Bytes)
    ensures TrimEndNuls(f + [0]) == TrimEndNuls(f)
  {
    assert (f + [0])[..|f|] == f;
  }

  lemma ValidNulIff(f: Bytes)
    ensures ValidUtf8(f + [0]) <==> ValidUtf8(f)
  {
    if ValidUtf8(f) {
      ValidNulTerminated(f);
    }
    if ValidUtf8(f + [0]) {
      ValidDropNul(f);
    }
  }

  /** A written name is its bytes with their NUL, behind their length. */
  lemma NameBytesStored(f: Bytes)
    requires |f| + 1 < Wrap32
    ensures NameBytes(f) == LeU32(|f + [0]|) + (f + [0])
  {
  }

  /** Reading back a written name gives the name with its trailing NULs stripped, or a panic if it is not UTF-8. */
  lemma NameReadsBack(f: Bytes, rest: Bytes)
    requires |f| + 1 < Wrap32
    ensures DirectoryString(NameBytes(f) + rest)
         == if ValidUtf8(f) then Done(TrimEndNuls(f), rest) else Panic
  {
    NameBytesStored(f);
    StoredStringReads(f + [0], rest);
    ValidNulIff(f);
    TrimNul(f);
  }

  /** A name without a trailing NUL is its own trimming. */
  lemma TrimClean(f: Bytes)
    requires NoTrailingNul(f)
    ensures TrimEndNuls(f) == f
  {
  }

  /** A well-formed UTF-8 name comes back unchanged exactly when it does not end in a NUL. */
  lemma NameRoundTripIff(f: Bytes, rest: Bytes)
    requires ValidUtf8(f) && |f| + 1 < Wrap32
    ensures DirectoryString(NameBytes(f) + rest) == Done(f, rest) <==> NoTrailingNul(f)
  {
    NameReadsBack(f, rest);
    if NoTrailingNul(f) {
      TrimClean(f);
    }
  }

  /** A name read from a directory never ends in a NUL, so a name that did is not read back as written. */
  lemma TrailingNulLost()
    ensures DirectoryString(NameBytes([0x61, 0]) + []) == Done([0x61], [])
  {
    assert ValidUtf8([0x61, 0][2..]);
    assert ValidUtf8([0x61, 0][1..]);
    NameReadsBack([0x61, 0], []);
    assert TrimEndNuls([0x61, 0][..1]) == [0x61];
  }

  /** Bytes that are not UTF-8 make the parser panic rather than fail. */
  lemma InvalidNamePanics(rest: Bytes)
    ensures DirectoryString([1, 0, 0, 0, 0xFF] + rest) == Panic
  {
    var s := [1, 0, 0, 0, 0xFF] + rest;
    assert s[..4] == [1, 0, 0, 0] && s[4..] == [0xFF] + rest;
    assert ([0xFF] + rest)[..1] == [0xFF];
    assert !ValidUtf8([0xFF]);
  }

  lemma NameComplete()
    ensures Complete(DirectoryString, NameBytes, WellFormedName)
  {
    forall f: Bytes, rest: Bytes {:trigger DirectoryString(NameBytes(f) + rest)} | WellFormedName(f)
      ensures DirectoryString(NameBytes(f) + rest) == Done(f, rest)
    {
      NameRoundTripIff(f, rest);
    }
  }

  /** `Directory::parse` reads back what `Directory::to_bytes` wrote. */
  lemma DirectoryRoundTrip(d: Directory, rest: Bytes)
    requires WellFormed(d)
    ensures ParseDirectory(DirectoryBytes(d) + rest) == Done(d, rest)
  {
    var names := d.filenames;
    var body := Flat(NameBytes, names) + rest;
    assert DirectoryBytes(d) + rest == LeU32(|names|) + body;
    U32RoundTrip(|names|, body);
    NamesRoundTrip(names, rest);
  }

  /** The names, written one after the other, read back as a count of names. */
  lemma NamesRoundTrip(names: seq<Bytes>, rest: Bytes)
    requires forall f :: f in names ==> WellFormedName(f)
    ensures Many(DirectoryString, |names|, Flat(NameBytes, names) + rest) == Done(names, rest)
  {
    NameComplete();
    ManyRoundTrip(DirectoryString, NameBytes, WellFormedName, names, rest);
  }

  /** Every element `Many` returns is one `p` returned, so it has whatever property all of `p`'s results have. */
  lemma {:induction false} ManyAll<T>(p: Bytes -> Outcome<T>, w: T -> bool, n: nat, s: Bytes)
    requires forall t :: p(t).Done? ==> w(p(t).value)
    ensures Many(p, n, s).Done? ==> forall x :: x in Many(p, n, s).value ==> w(x)
    decreases n
  {
    if n > 0 && p(s).Done? {
      ManyStep(p, n, s);
      ManyAll(p, w, n - 1, p(s).rest);
    }
  }

  predicate CleanName(f: Bytes)
  {
    ValidUtf8(f) && NoTrailingNul(f)
  }

  /** Every name a parsed directory holds is well-formed UTF-8 without a trailing NUL. */
  lemma ParsedNamesClean(s: Bytes)
    requires ParseDirectory(s).Done?
    ensures forall f :: f in ParseDirectory(s).value.filenames ==> ValidUtf8(f) && NoTrailingNul(f)
  {
    assert forall t :: DirectoryString(t).Done? ==> CleanName(DirectoryString(t).value);
    ManyAll(DirectoryString, CleanName, U32(s).value, U32(s).rest);
  }

  /** The stored string ends in exactly one NUL. */
  predicate SingleNul(data: Bytes)
  {
    |data| >= 1 && data[|data| - 1] == 0 && NoTrailingNul(data[..|data| - 1])
  }

  lemma SingleNulReencodes(data: Bytes, rest: Bytes)
    requires |data| < Wrap32 && SingleNul(data)
    ensures NameBytes(TrimEndNuls(data)) + rest == LeU32(|data|) + data + rest
  {
    var pre := data[..|data| - 1];
    LastSplit(data);
    TrimNul(pre);
    TrimClean(pre);
    NameBytesStored(pre);
  }

  lemma LastSplit(data: Bytes)
    requires |data| >= 1
    ensures data == data[..|data| - 1] + [data[|data| - 1]]
  {
  }

  lemma ReencodedSingleNul(data: Bytes, rest: Bytes)
    requires |data| < Wrap32
    requires NameBytes(TrimEndNuls(data)) + rest == LeU32(|data|) + data + rest
    ensures SingleNul(data)
  {
    var v := TrimEndNuls(data);
    var stored := LeU32(|data|) + data + rest;
    assert |v| + 1 == |data| by {
      assert |NameBytes(v) + rest| == |stored|;
    }
    NameBytesStored(v);
    assert v + [0] == data by {
      assert (NameBytes(v) + rest)[4..4 + |data|] == v + [0];
      assert stored[4..4 + |data|] == data;
    }
    assert data[..|data| - 1] == v;
  }

  /**
   * Writing back the name read from a stored string reproduces the stored
   * bytes exactly when the string ended in exactly one NUL.
   */
  lemma NameReencodes(data: Bytes, rest: Bytes)
    requires |data| < Wrap32
    ensures var stored := LeU32(|data|) + data + rest;
      (NameBytes(TrimEndNuls(data)) + rest == stored <==> SingleNul(data))
  {
    if SingleNul(data) {
      SingleNulReencodes(data, rest);
    }
    if NameBytes(TrimEndNuls(data)) + rest == LeU32(|data|) + data + rest {
      ReencodedSingleNul(data, rest);
    }
  }
}
