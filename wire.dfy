/**
 * Little-endian wire primitives shared by every codec in this model: the
 * integer widths the parsers read, the outcome of a parser, and the list
 * combinators (a counted repetition and its flattening encoder).
 *
 * A parser is a function from the remaining input to an `Outcome`: either
 * the parsed value and the input it did not consume, a recoverable parse
 * error (input too short), or a panic of the original program.
 */
module Wire {
  type byte = x: int | 0 <= x < 0x100
  type u16 = x: int | 0 <= x < 0x1_0000
  type u32 = x: int | 0 <= x < 0x1_0000_0000
  type i8 = x: int | -0x80 <= x < 0x80
  type i16 = x: int | -0x8000 <= x < 0x8000
  type i32 = x: int | -0x8000_0000 <= x < 0x8000_0000
  /** An IEEE-754 single kept as its 32-bit pattern: no field is computed on. */
  type f32 = u32
  type Bytes = seq<byte>

  datatype Option<+T> = None | Some(value: T)

  /** The result of a routine that either returns or panics. */
  datatype Fallible<+T> = Returns(value: T) | Panics

  datatype Outcome<+T> = Done(value: T, rest: Bytes) | Failure | Panic
  {
    predicate IsFailure() { !Done? }

    function PropagateFailure<U>(): Outcome<U>
      requires IsFailure()
    {
      if Failure? then Failure else Panic
    }

    function Extract(): Outcome<T>
      requires Done?
    {
      this
    }
  }

  function Zeros(n: nat): (r: Bytes)
    ensures |r| == n && forall i :: 0 <= i < n ==> r[i] == 0
  {
    seq(n, _ => 0)
  }

  /** The number of zero bytes that brings a length of `n` up to a multiple of 4. */
  function Pad4(n: nat): (p: nat)
    ensures p < 4 && (n + p) % 4 == 0
    ensures n % 4 == 0 ==> p == 0
  {
    (4 - n % 4) % 4
  }

  /** `flags & bit == bit` for a single-bit mask. */
  predicate HasFlag(flags: u32, bit: u32)
    requires bit > 0
  {
    (flags / bit) % 2 == 1
  }

  // ---- encoders (`to_le_bytes`)

  function LeU16(x: u16): (r: Bytes)
    ensures |r| == 2
  {
    [x % 0x100, x / 0x100]
  }

  function LeU32(x: u32): (r: Bytes)
    ensures |r| == 4
  {
    [x % 0x100, (x / 0x100) % 0x100, (x / 0x1_0000) % 0x100, x / 0x100_0000]
  }

  function LeI8(x: i8): (r: Bytes)
    ensures |r| == 1
  {
    [if x < 0 then x + 0x100 else x]
  }

  function LeI16(x: i16): (r: Bytes)
    ensures |r| == 2
  {
    LeU16(if x < 0 then x + 0x1_0000 else x)
  }

  function LeI32(x: i32): (r: Bytes)
    ensures |r| == 4
  {
    LeU32(if x < 0 then x + 0x1_0000_0000 else x)
  }

  /** `to_be_bytes` of a u32: most significant byte first. */
  function BeU32(x: u32): (r: Bytes)
    ensures |r| == 4
  {
    [x / 0x100_0000, (x / 0x1_0000) % 0x100, (x / 0x100) % 0x100, x % 0x100]
  }

  // ---- parsers (`le_u8`, `le_u16`, ... and `take`)

  function U8(s: Bytes): (o: Outcome<byte>)
    ensures o.Failure? <==> |s| < 1
    ensures !o.Panic?
    ensures o.Done? ==> s == [o.value] + o.rest
  {
    if |s| < 1 then Failure else Done(s[0], s[1..])
  }

  function U16(s: Bytes): (o: Outcome<u16>)
    ensures o.Failure? <==> |s| < 2
    ensures !o.Panic?
    ensures o.Done? ==> s == LeU16(o.value) + o.rest
  {
    if |s| < 2 then Failure
    else
      ByteDigit(s[0], s[1]);
      Done(s[0] as int + 0x100 * s[1] as int, s[2..])
  }

  function U32(s: Bytes): (o: Outcome<u32>)
    ensures o.Failure? <==> |s| < 4
    ensures !o.Panic?
    ensures o.Done? ==> s == LeU32(o.value) + o.rest
  {
    if |s| < 4 then Failure
    else
      var v := s[0] as int + 0x100 * (s[1] as int + 0x100 * (s[2] as int + 0x100 * s[3] as int));
      Le32Digits(s[0], s[1], s[2], s[3]);
      Done(v, s[4..])
  }

  /** The base-256 digit facts behind decoding: splitting `lo + 256 * hi` back apart. */
  lemma ByteDigit(lo: byte, hi: int)
    ensures (lo + 0x100 * hi) % 0x100 == lo && (lo + 0x100 * hi) / 0x100 == hi
  {
  }

  lemma Le32Digits(b0: byte, b1: byte, b2: byte, b3: byte)
    ensures var v := b0 as int + 0x100 * (b1 as int + 0x100 * (b2 as int + 0x100 * b3 as int));
      0 <= v < 0x1_0000_0000 && LeU32(v) == [b0, b1, b2, b3]
  {
    var h2 := b2 as int + 0x100 * b3 as int;
    var h1 := b1 as int + 0x100 * h2;
    var v := b0 as int + 0x100 * h1;
    ByteDigit(b0, h1);
    ByteDigit(b1, h2);
    ByteDigit(b2, b3 as int);
    assert v / 0x1_0000 == h2;
    assert v / 0x100_0000 == b3;
  }

  function I8(s: Bytes): (o: Outcome<i8>)
    ensures o.Failure? <==> |s| < 1
    ensures !o.Panic?
    ensures o.Done? ==> s == LeI8(o.value) + o.rest
  {
    if |s| < 1 then Failure
    else Done(if s[0] < 0x80 then s[0] as int else s[0] as int - 0x100, s[1..])
  }

  function I16(s: Bytes): (o: Outcome<i16>)
    ensures o.Failure? <==> |s| < 2
    ensures !o.Panic?
    ensures o.Done? ==> s == LeI16(o.value) + o.rest
  {
    var w :- U16(s);
    Done(if w.value < 0x8000 then w.value else w.value - 0x1_0000, w.rest)
  }

  function I32(s: Bytes): (o: Outcome<i32>)
    ensures o.Failure? <==> |s| < 4
    ensures !o.Panic?
    ensures o.Done? ==> s == LeI32(o.value) + o.rest
  {
    var w :- U32(s);
    Done(if w.value < 0x8000_0000 then w.value else w.value - 0x1_0000_0000, w.rest)
  }

  function Take(n: nat, s: Bytes): (o: Outcome<Bytes>)
    ensures o.Failure? <==> |s| < n
    ensures !o.Panic?
    ensures o.Done? ==> |o.value| == n && s == o.value + o.rest
  {
    if |s| < n then Failure else Done(s[..n], s[n..])
  }

  lemma U8RoundTrip(x: byte, rest: Bytes)
    ensures U8([x] + rest) == Done(x, rest)
  {
    assert ([x] + rest)[1..] == rest;
  }

  lemma U16RoundTrip(x: u16, rest: Bytes)
    ensures U16(LeU16(x) + rest) == Done(x, rest)
  {
    assert (LeU16(x) + rest)[2..] == rest;
  }

  /** The four little-endian digits of `x` recompose to `x`. */
  lemma Compose32(x: u32)
    ensures x % 0x100 + 0x100 * ((x / 0x100) % 0x100 + 0x100 * ((x / 0x1_0000) % 0x100 + 0x100 * (x / 0x100_0000))) == x
  {
    var q1 := x / 0x100;
    var q2 := x / 0x1_0000;
    var q3 := x / 0x100_0000;
    assert q2 == q1 / 0x100;
    assert q3 == q2 / 0x100;
    assert q2 % 0x100 + 0x100 * q3 == q2;
    assert q1 % 0x100 + 0x100 * q2 == q1;
    assert x % 0x100 + 0x100 * q1 == x;
  }

  lemma U32RoundTrip(x: u32, rest: Bytes)
    ensures U32(LeU32(x) + rest) == Done(x, rest)
  {
    var b := LeU32(x) + rest;
    assert b[0] == x % 0x100 && b[1] == (x / 0x100) % 0x100;
    assert b[2] == (x / 0x1_0000) % 0x100 && b[3] == x / 0x100_0000;
    assert b[4..] == rest;
    Compose32(x);
  }

  lemma I8RoundTrip(x: i8, rest: Bytes)
    ensures I8(LeI8(x) + rest) == Done(x, rest)
  {
    assert (LeI8(x) + rest)[1..] == rest;
  }

  lemma I16RoundTrip(x: i16, rest: Bytes)
    ensures I16(LeI16(x) + rest) == Done(x, rest)
  {
    U16RoundTrip(if x < 0 then x + 0x1_0000 else x, rest);
  }

  lemma I32RoundTrip(x: i32, rest: Bytes)
    ensures I32(LeI32(x) + rest) == Done(x, rest)
  {
    U32RoundTrip(if x < 0 then x + 0x1_0000_0000 else x, rest);
  }

  lemma TakeRoundTrip(b: Bytes, rest: Bytes)
    ensures Take(|b|, b + rest) == Done(b, rest)
  {
    assert (b + rest)[..|b|] == b;
    assert (b + rest)[|b|..] == rest;
  }

  // ---- counted repetition (`nom::multi::count`) and its encoder (`flat_map`)

  function Many<T>(p: Bytes -> Outcome<T>, n: nat, s: Bytes): (o: Outcome<seq<T>>)
    ensures o.Done? ==> |o.value| == n
    decreases n
  {
    if n == 0 then Done([], s)
    else
      var head :- p(s);
      var tail :- Many(p, n - 1, head.rest);
      Done([head.value] + tail.value, tail.rest)
  }

  /** `count` after one element is `count` of one fewer on what that element left. */
  lemma ManyStep<T>(p: Bytes -> Outcome<T>, n: nat, s: Bytes)
    requires n > 0
    ensures !p(s).Done? ==> !Many(p, n, s).Done?
    ensures p(s).Done? ==> (Many(p, n, s).Done? <==> Many(p, n - 1, p(s).rest).Done?)
    ensures p(s).Done? && Many(p, n, s).Done? ==> Many(p, n, s).value == [p(s).value] + Many(p, n - 1, p(s).rest).value
  {
  }

  function Flat<T>(e: T -> Bytes, xs: seq<T>): Bytes
    decreases |xs|
  {
    if xs == [] then [] else e(xs[0]) + Flat(e, xs[1..])
  }

  /** `e` is a right inverse of `p` on the values `w` admits. */
  ghost predicate Complete<T(!new)>(p: Bytes -> Outcome<T>, e: T -> Bytes, w: T -> bool)
  {
    forall x: T, rest: Bytes {:trigger p(e(x) + rest)} :: w(x) ==> p(e(x) + rest) == Done(x, rest)
  }

  lemma CompleteAt<T(!new)>(p: Bytes -> Outcome<T>, e: T -> Bytes, w: T -> bool, x: T, rest: Bytes)
    requires Complete(p, e, w) && w(x)
    ensures p(e(x) + rest) == Done(x, rest)
  {
  }

  lemma SoundAt<T(!new)>(p: Bytes -> Outcome<T>, e: T -> Bytes, w: T -> bool, s: Bytes)
    requires Sound(p, e, w) && p(s).Done?
    ensures w(p(s).value) && s == e(p(s).value) + p(s).rest
  {
  }

  /** Whatever `p` parses is admitted by `w` and re-encodes by `e` to the bytes it consumed. */
  ghost predicate Sound<T(!new)>(p: Bytes -> Outcome<T>, e: T -> Bytes, w: T -> bool)
  {
    forall s: Bytes :: p(s).Done? ==> w(p(s).value) && s == e(p(s).value) + p(s).rest
  }

  function Any<T>(x: T): bool { true }

  lemma {:induction false} ManyRoundTrip<T(!new)>(p: Bytes -> Outcome<T>, e: T -> Bytes, w: T -> bool, xs: seq<T>, rest: Bytes)
    requires Complete(p, e, w)
    requires forall x :: x in xs ==> w(x)
    ensures Many(p, |xs|, Flat(e, xs) + rest) == Done(xs, rest)
    decreases |xs|
  {
    if xs != [] {
      var tail := Flat(e, xs[1..]) + rest;
      assert Flat(e, xs) + rest == e(xs[0]) + tail;
      assert p(e(xs[0]) + tail) == Done(xs[0], tail);
      ManyRoundTrip(p, e, w, xs[1..], rest);
      assert [xs[0]] + xs[1..] == xs;
    }
  }

  lemma {:induction false} ManySound<T(!new)>(p: Bytes -> Outcome<T>, e: T -> Bytes, w: T -> bool, n: nat, s: Bytes)
    requires Sound(p, e, w)
    ensures var o := Many(p, n, s);
      o.Done? ==> (forall x :: x in o.value ==> w(x)) && s == Flat(e, o.value) + o.rest
    decreases n
  {
    if n > 0 && p(s).Done? {
      var head := p(s);
      ManySound(p, e, w, n - 1, head.rest);
      var tail := Many(p, n - 1, head.rest);
      if tail.Done? {
        var xs := [head.value] + tail.value;
        assert xs[1..] == tail.value;
        assert Flat(e, xs) == e(head.value) + Flat(e, tail.value);
      }
    }
  }

  /** Whatever `p` parses and `w` admits re-encodes by `e` to the bytes it consumed. */
  ghost predicate Exact<T(!new)>(p: Bytes -> Outcome<T>, e: T -> Bytes, w: T -> bool)
  {
    forall s: Bytes :: p(s).Done? && w(p(s).value) ==> s == e(p(s).value) + p(s).rest
  }

  lemma {:induction false} ManyExact<T(!new)>(p: Bytes -> Outcome<T>, e: T -> Bytes, w: T -> bool, n: nat, s: Bytes)
    requires Exact(p, e, w)
    ensures var o := Many(p, n, s);
      o.Done? && (forall x :: x in o.value ==> w(x)) ==> s == Flat(e, o.value) + o.rest
    decreases n
  {
    var o := Many(p, n, s);
    if n > 0 && o.Done? && (forall x :: x in o.value ==> w(x)) {
      var head := p(s);
      var tail := Many(p, n - 1, head.rest);
      assert o.value == [head.value] + tail.value;
      assert o.value[0] == head.value;
      assert forall x :: x in tail.value ==> x in o.value;
      ManyExact(p, e, w, n - 1, head.rest);
      assert o.value[1..] == tail.value;
    }
  }

  /** A parser that reports every input it cannot read as `Failure`. */
  ghost predicate NeverPanics<T(!new)>(p: Bytes -> Outcome<T>)
  {
    forall s: Bytes :: !p(s).Panic?
  }

  /** A parser of fixed width `k` that never panics. */
  ghost predicate FixedWidth<T(!new)>(p: Bytes -> Outcome<T>, k: nat)
  {
    forall s: Bytes :: !p(s).Panic? && (p(s).Failure? <==> |s| < k) && (p(s).Done? ==> |p(s).rest| == |s| - k)
  }

  lemma FixedWidthAt<T(!new)>(p: Bytes -> Outcome<T>, k: nat, s: Bytes)
    requires FixedWidth(p, k)
    ensures !p(s).Panic? && (p(s).Failure? <==> |s| < k) && (p(s).Done? ==> |p(s).rest| == |s| - k)
  {
  }

  lemma MulStep(k: nat, n: nat)
    requires n > 0
    ensures k * n == k + k * (n - 1) && k * (n - 1) >= 0
  {
  }

  lemma {:induction false} ManyFixedWidth<T(!new)>(p: Bytes -> Outcome<T>, k: nat, n: nat, s: Bytes)
    requires FixedWidth(p, k)
    ensures var o := Many(p, n, s);
      !o.Panic? && (o.Failure? <==> |s| < k * n) && (o.Done? ==> |o.rest| == |s| - k * n)
    decreases n
  {
    if n > 0 {
      var kn, kn1 := k * n, k * (n - 1);
      MulStep(k, n);
      var h := p(s);
      FixedWidthAt(p, k, s);
      if h.Done? {
        ManyFixedWidth(p, k, n - 1, h.rest);
        var t := Many(p, n - 1, h.rest);
        assert !t.Panic? && (t.Failure? <==> |h.rest| < kn1) && (t.Done? ==> |t.rest| == |h.rest| - kn1);
        assert Many(p, n, s) == if t.Done? then Done([h.value] + t.value, t.rest) else Failure;
      } else {
        assert Many(p, n, s) == Failure;
      }
    }
  }

  lemma {:induction false} FlatLength<T>(e: T -> Bytes, k: nat, xs: seq<T>)
    requires forall x :: x in xs ==> |e(x)| == k
    ensures |Flat(e, xs)| == k * |xs|
    decreases |xs|
  {
    if xs != [] {
      FlatLength(e, k, xs[1..]);
      MulStep(k, |xs|);
      assert Flat(e, xs) == e(xs[0]) + Flat(e, xs[1..]);
    }
  }

  // ---- fixed-width tuples (`(le_f32, le_f32, le_f32)` and the like) and their codec facts

  /** A pair of 32-bit words (a `(f32, f32)`), read in order. */
  function Word2(s: Bytes): (o: Outcome<(u32, u32)>)
    ensures o.Failure? <==> |s| < 8
    ensures !o.Panic?
    ensures o.Done? ==> s == Word2Bytes(o.value) + o.rest && |o.rest| == |s| - 8
  {
    var a :- U32(s);
    var b :- U32(a.rest);
    Done((a.value, b.value), b.rest)
  }

  function Word2Bytes(t: (u32, u32)): (b: Bytes)
    ensures |b| == 8
  {
    LeU32(t.0) + LeU32(t.1)
  }

  lemma Word2RoundTrip(x: (u32, u32), rest: Bytes)
    ensures Word2(Word2Bytes(x) + rest) == Done(x, rest)
  {
    var t1 := LeU32(x.1) + rest;
    assert Word2Bytes(x) + rest == LeU32(x.0) + t1;
    U32RoundTrip(x.0, t1);
    U32RoundTrip(x.1, rest);
  }

  /** A triple of 32-bit words (a `(f32, f32, f32)`), read in order. */
  function Word3(s: Bytes): (o: Outcome<(u32, u32, u32)>)
    ensures o.Failure? <==> |s| < 12
    ensures !o.Panic?
    ensures o.Done? ==> s == Word3Bytes(o.value) + o.rest && |o.rest| == |s| - 12
  {
    var a :- U32(s);
    var b :- U32(a.rest);
    var c :- U32(b.rest);
    Done((a.value, b.value, c.value), c.rest)
  }

  function Word3Bytes(t: (u32, u32, u32)): (b: Bytes)
    ensures |b| == 12
  {
    LeU32(t.0) + LeU32(t.1) + LeU32(t.2)
  }

  lemma Word3RoundTrip(x: (u32, u32, u32), rest: Bytes)
    ensures Word3(Word3Bytes(x) + rest) == Done(x, rest)
  {
    var t2 := LeU32(x.2) + rest;
    var t1 := LeU32(x.1) + t2;
    assert Word3Bytes(x) + rest == LeU32(x.0) + t1;
    U32RoundTrip(x.0, t1);
    U32RoundTrip(x.1, t2);
    U32RoundTrip(x.2, rest);
  }

  /** Four 32-bit words, read in order. */
  function Word4(s: Bytes): (o: Outcome<(u32, u32, u32, u32)>)
    ensures o.Failure? <==> |s| < 16
    ensures !o.Panic?
    ensures o.Done? ==> s == Word4Bytes(o.value) + o.rest && |o.rest| == |s| - 16
  {
    var a :- U32(s);
    var b :- U32(a.rest);
    var c :- U32(b.rest);
    var d :- U32(c.rest);
    Done((a.value, b.value, c.value, d.value), d.rest)
  }

  function Word4Bytes(t: (u32, u32, u32, u32)): (b: Bytes)
    ensures |b| == 16
  {
    LeU32(t.0) + LeU32(t.1) + LeU32(t.2) + LeU32(t.3)
  }

  lemma Word4RoundTrip(x: (u32, u32, u32, u32), rest: Bytes)
    ensures Word4(Word4Bytes(x) + rest) == Done(x, rest)
  {
    var t3 := LeU32(x.3) + rest;
    var t2 := LeU32(x.2) + t3;
    var t1 := LeU32(x.1) + t2;
    assert Word4Bytes(x) + rest == LeU32(x.0) + t1;
    U32RoundTrip(x.0, t1);
    U32RoundTrip(x.1, t2);
    U32RoundTrip(x.2, t3);
    U32RoundTrip(x.3, rest);
  }

  /** A pair of u16, read in order. */
  function Half2(s: Bytes): (o: Outcome<(u16, u16)>)
    ensures o.Failure? <==> |s| < 4
    ensures !o.Panic?
    ensures o.Done? ==> s == Half2Bytes(o.value) + o.rest && |o.rest| == |s| - 4
  {
    var a :- U16(s);
    var b :- U16(a.rest);
    Done((a.value, b.value), b.rest)
  }

  function Half2Bytes(t: (u16, u16)): (b: Bytes)
    ensures |b| == 4
  {
    LeU16(t.0) + LeU16(t.1)
  }

  lemma Half2RoundTrip(x: (u16, u16), rest: Bytes)
    ensures Half2(Half2Bytes(x) + rest) == Done(x, rest)
  {
    var t1 := LeU16(x.1) + rest;
    assert Half2Bytes(x) + rest == LeU16(x.0) + t1;
    U16RoundTrip(x.0, t1);
    U16RoundTrip(x.1, rest);
  }

  /** A pair of i16, read in order. */
  function Short2(s: Bytes): (o: Outcome<(i16, i16)>)
    ensures o.Failure? <==> |s| < 4
    ensures !o.Panic?
    ensures o.Done? ==> s == Short2Bytes(o.value) + o.rest && |o.rest| == |s| - 4
  {
    var a :- I16(s);
    var b :- I16(a.rest);
    Done((a.value, b.value), b.rest)
  }

  function Short2Bytes(t: (i16, i16)): (b: Bytes)
    ensures |b| == 4
  {
    LeI16(t.0) + LeI16(t.1)
  }

  lemma Short2RoundTrip(x: (i16, i16), rest: Bytes)
    ensures Short2(Short2Bytes(x) + rest) == Done(x, rest)
  {
    var t1 := LeI16(x.1) + rest;
    assert Short2Bytes(x) + rest == LeI16(x.0) + t1;
    I16RoundTrip(x.0, t1);
    I16RoundTrip(x.1, rest);
  }

  /** A triple of u16, read in order. */
  function Half3(s: Bytes): (o: Outcome<(u16, u16, u16)>)
    ensures o.Failure? <==> |s| < 6
    ensures !o.Panic?
    ensures o.Done? ==> s == Half3Bytes(o.value) + o.rest && |o.rest| == |s| - 6
  {
    var a :- U16(s);
    var b :- U16(a.rest);
    var c :- U16(b.rest);
    Done((a.value, b.value, c.value), c.rest)
  }

  function Half3Bytes(t: (u16, u16, u16)): (b: Bytes)
    ensures |b| == 6
  {
    LeU16(t.0) + LeU16(t.1) + LeU16(t.2)
  }

  lemma Half3RoundTrip(x: (u16, u16, u16), rest: Bytes)
    ensures Half3(Half3Bytes(x) + rest) == Done(x, rest)
  {
    var t2 := LeU16(x.2) + rest;
    var t1 := LeU16(x.1) + t2;
    assert Half3Bytes(x) + rest == LeU16(x.0) + t1;
    U16RoundTrip(x.0, t1);
    U16RoundTrip(x.1, t2);
    U16RoundTrip(x.2, rest);
  }

  /** A triple of i16, read in order. */
  function Short3(s: Bytes): (o: Outcome<(i16, i16, i16)>)
    ensures o.Failure? <==> |s| < 6
    ensures !o.Panic?
    ensures o.Done? ==> s == Short3Bytes(o.value) + o.rest && |o.rest| == |s| - 6
  {
    var a :- I16(s);
    var b :- I16(a.rest);
    var c :- I16(b.rest);
    Done((a.value, b.value, c.value), c.rest)
  }

  function Short3Bytes(t: (i16, i16, i16)): (b: Bytes)
    ensures |b| == 6
  {
    LeI16(t.0) + LeI16(t.1) + LeI16(t.2)
  }

  lemma Short3RoundTrip(x: (i16, i16, i16), rest: Bytes)
    ensures Short3(Short3Bytes(x) + rest) == Done(x, rest)
  {
    var t2 := LeI16(x.2) + rest;
    var t1 := LeI16(x.1) + t2;
    assert Short3Bytes(x) + rest == LeI16(x.0) + t1;
    I16RoundTrip(x.0, t1);
    I16RoundTrip(x.1, t2);
    I16RoundTrip(x.2, rest);
  }

  /** A triple of i8, read in order. */
  function Tiny3(s: Bytes): (o: Outcome<(i8, i8, i8)>)
    ensures o.Failure? <==> |s| < 3
    ensures !o.Panic?
    ensures o.Done? ==> s == Tiny3Bytes(o.value) + o.rest && |o.rest| == |s| - 3
  {
    var a :- I8(s);
    var b :- I8(a.rest);
    var c :- I8(b.rest);
    Done((a.value, b.value, c.value), c.rest)
  }

  function Tiny3Bytes(t: (i8, i8, i8)): (b: Bytes)
    ensures |b| == 3
  {
    LeI8(t.0) + LeI8(t.1) + LeI8(t.2)
  }

  lemma Tiny3RoundTrip(x: (i8, i8, i8), rest: Bytes)
    ensures Tiny3(Tiny3Bytes(x) + rest) == Done(x, rest)
  {
    var t2 := LeI8(x.2) + rest;
    var t1 := LeI8(x.1) + t2;
    assert Tiny3Bytes(x) + rest == LeI8(x.0) + t1;
    I8RoundTrip(x.0, t1);
    I8RoundTrip(x.1, t2);
    I8RoundTrip(x.2, rest);
  }

  lemma U8Codec()
    ensures Complete(U8, (b: byte) => [b], Any) && Sound(U8, (b: byte) => [b], Any) && FixedWidth(U8, 1)
  {
    forall x: byte, rest: Bytes ensures U8([x] + rest) == Done(x, rest) { U8RoundTrip(x, rest); }
  }

  lemma U16Codec()
    ensures Complete(U16, LeU16, Any) && Sound(U16, LeU16, Any) && FixedWidth(U16, 2)
  {
    forall x: u16, rest: Bytes ensures U16(LeU16(x) + rest) == Done(x, rest) { U16RoundTrip(x, rest); }
  }

  lemma U32Codec()
    ensures Complete(U32, LeU32, Any) && Sound(U32, LeU32, Any) && FixedWidth(U32, 4)
  {
    forall x: u32, rest: Bytes ensures U32(LeU32(x) + rest) == Done(x, rest) { U32RoundTrip(x, rest); }
  }

  lemma I32Codec()
    ensures Complete(I32, LeI32, Any) && Sound(I32, LeI32, Any) && FixedWidth(I32, 4)
  {
    forall x: i32, rest: Bytes ensures I32(LeI32(x) + rest) == Done(x, rest) { I32RoundTrip(x, rest); }
  }

  /** Each fixed-width tuple reader takes exactly its width (stated alone, without the codec facts). */
  lemma Word2Width()
    ensures FixedWidth(Word2, 8)
  {
  }

  lemma Word3Width()
    ensures FixedWidth(Word3, 12)
  {
  }

  lemma Word4Width()
    ensures FixedWidth(Word4, 16)
  {
  }

  lemma Short3Width()
    ensures FixedWidth(Short3, 6)
  {
  }

  /** What a tuple reader leaves is its input past its width. */
  lemma Word2Rest(s: Bytes)
    ensures Word2(s).Done? ==> Word2(s).rest == s[8..]
  {
  }

  lemma Word3Rest(s: Bytes)
    ensures Word3(s).Done? ==> Word3(s).rest == s[12..]
  {
  }

  lemma Word4Rest(s: Bytes)
    ensures Word4(s).Done? ==> Word4(s).rest == s[16..]
  {
  }

  lemma Word2Codec()
    ensures Complete(Word2, Word2Bytes, Any) && Sound(Word2, Word2Bytes, Any) && FixedWidth(Word2, 8)
  {
    forall x: (u32, u32), rest: Bytes ensures Word2(Word2Bytes(x) + rest) == Done(x, rest) {
      Word2RoundTrip(x, rest);
    }
  }

  lemma Word3Codec()
    ensures Complete(Word3, Word3Bytes, Any) && Sound(Word3, Word3Bytes, Any) && FixedWidth(Word3, 12)
  {
    forall x: (u32, u32, u32), rest: Bytes ensures Word3(Word3Bytes(x) + rest) == Done(x, rest) {
      Word3RoundTrip(x, rest);
    }
  }

  lemma Word4Codec()
    ensures Complete(Word4, Word4Bytes, Any) && Sound(Word4, Word4Bytes, Any) && FixedWidth(Word4, 16)
  {
    forall x: (u32, u32, u32, u32), rest: Bytes ensures Word4(Word4Bytes(x) + rest) == Done(x, rest) {
      Word4RoundTrip(x, rest);
    }
  }

  lemma Half2Codec()
    ensures Complete(Half2, Half2Bytes, Any) && Sound(Half2, Half2Bytes, Any) && FixedWidth(Half2, 4)
  {
    forall x: (u16, u16), rest: Bytes ensures Half2(Half2Bytes(x) + rest) == Done(x, rest) {
      Half2RoundTrip(x, rest);
    }
  }

  lemma Half3Codec()
    ensures Complete(Half3, Half3Bytes, Any) && Sound(Half3, Half3Bytes, Any) && FixedWidth(Half3, 6)
  {
    forall x: (u16, u16, u16), rest: Bytes ensures Half3(Half3Bytes(x) + rest) == Done(x, rest) {
      Half3RoundTrip(x, rest);
    }
  }

  lemma Short2Codec()
    ensures Complete(Short2, Short2Bytes, Any) && Sound(Short2, Short2Bytes, Any) && FixedWidth(Short2, 4)
  {
    forall x: (i16, i16), rest: Bytes ensures Short2(Short2Bytes(x) + rest) == Done(x, rest) {
      Short2RoundTrip(x, rest);
    }
  }

  lemma Short3Codec()
    ensures Complete(Short3, Short3Bytes, Any) && Sound(Short3, Short3Bytes, Any) && FixedWidth(Short3, 6)
  {
    forall x: (i16, i16, i16), rest: Bytes ensures Short3(Short3Bytes(x) + rest) == Done(x, rest) {
      Short3RoundTrip(x, rest);
    }
  }

  lemma Tiny3Codec()
    ensures Complete(Tiny3, Tiny3Bytes, Any) && Sound(Tiny3, Tiny3Bytes, Any) && FixedWidth(Tiny3, 3)
  {
    forall x: (i8, i8, i8), rest: Bytes ensures Tiny3(Tiny3Bytes(x) + rest) == Done(x, rest) {
      Tiny3RoundTrip(x, rest);
    }
  }

  // ---- a stage parser that depends on fields read before it (a count, a flag word)

  ghost predicate CompleteIn<C(!new), T(!new)>(p: (C, Bytes) -> Outcome<T>, e: T -> Bytes, w: (C, T) -> bool)
  {
    forall k: C, x: T, rest: Bytes {:trigger p(k, e(x) + rest)} :: w(k, x) ==> p(k, e(x) + rest) == Done(x, rest)
  }

  ghost predicate SoundIn<C(!new), T(!new)>(p: (C, Bytes) -> Outcome<T>, e: T -> Bytes, w: (C, T) -> bool)
  {
    forall k: C, s: Bytes :: p(k, s).Done? ==> w(k, p(k, s).value) && s == e(p(k, s).value) + p(k, s).rest
  }

  // ---- a read gated by a flag (`if flags.has_x() { p(i).map(Some) } else { (i, None) }`)

  function When<T>(c: bool, p: Bytes -> Outcome<T>, s: Bytes): (o: Outcome<Option<T>>)
    ensures !c ==> o == Done(None, s)
    ensures c ==> (o.Failure? <==> p(s).Failure?) && (o.Panic? <==> p(s).Panic?)
    ensures c && o.Done? ==> o.value == Some(p(s).value) && o.rest == p(s).rest
  {
    if c then
      var x :- p(s);
      Done(Some(x.value), x.rest)
    else Done(None, s)
  }

  /** `option.map_or(vec![], encode)`. */
  function OptBytes<T>(e: T -> Bytes, o: Option<T>): Bytes
  {
    if o.Some? then e(o.value) else []
  }

  /** An optional field is written exactly when it is present. */
  predicate Gated<T>(c: bool, w: T -> bool, o: Option<T>)
  {
    (o.Some? <==> c) && (o.Some? ==> w(o.value))
  }

  lemma WhenRoundTrip<T(!new)>(c: bool, p: Bytes -> Outcome<T>, e: T -> Bytes, w: T -> bool, o: Option<T>, rest: Bytes)
    requires Complete(p, e, w)
    requires Gated(c, w, o)
    ensures When(c, p, OptBytes(e, o) + rest) == Done(o, rest)
  {
    if c {
      assert p(e(o.value) + rest) == Done(o.value, rest);
    } else {
      assert OptBytes(e, o) + rest == rest;
    }
  }

  lemma WhenSound<T(!new)>(c: bool, p: Bytes -> Outcome<T>, e: T -> Bytes, w: T -> bool, s: Bytes)
    requires Sound(p, e, w)
    ensures var o := When(c, p, s);
      o.Done? ==> Gated(c, w, o.value) && s == OptBytes(e, o.value) + o.rest
  {
    if c && p(s).Done? {
      assert w(p(s).value) && s == e(p(s).value) + p(s).rest;
    }
  }

  /** Three gated reads in a row. */
  function When3<A, B, C>(ca: bool, pa: Bytes -> Outcome<A>, cb: bool, pb: Bytes -> Outcome<B>, cc: bool,
                          pc: Bytes -> Outcome<C>, s: Bytes): (o: Outcome<(Option<A>, Option<B>, Option<C>)>)
  {
    var a :- When(ca, pa, s);
    var b :- When(cb, pb, a.rest);
    var c :- When(cc, pc, b.rest);
    Done((a.value, b.value, c.value), c.rest)
  }

  function OptBytes3<A, B, C>(ea: A -> Bytes, eb: B -> Bytes, ec: C -> Bytes, x: (Option<A>, Option<B>, Option<C>)): Bytes
  {
    OptBytes(ea, x.0) + OptBytes(eb, x.1) + OptBytes(ec, x.2)
  }

  lemma When3RoundTrip<A(!new), B(!new), C(!new)>(ca: bool, pa: Bytes -> Outcome<A>, ea: A -> Bytes, wa: A -> bool,
                                                  cb: bool, pb: Bytes -> Outcome<B>, eb: B -> Bytes, wb: B -> bool,
                                                  cc: bool, pc: Bytes -> Outcome<C>, ec: C -> Bytes, wc: C -> bool,
                                                  x: (Option<A>, Option<B>, Option<C>), rest: Bytes)
    requires Complete(pa, ea, wa) && Complete(pb, eb, wb) && Complete(pc, ec, wc)
    requires Gated(ca, wa, x.0) && Gated(cb, wb, x.1) && Gated(cc, wc, x.2)
    ensures When3(ca, pa, cb, pb, cc, pc, OptBytes3(ea, eb, ec, x) + rest) == Done(x, rest)
  {
    var t2 := OptBytes(ec, x.2) + rest;
    var t1 := OptBytes(eb, x.1) + t2;
    Nest3(OptBytes(ea, x.0), OptBytes(eb, x.1), OptBytes(ec, x.2), rest);
    WhenRoundTrip(ca, pa, ea, wa, x.0, t1);
    WhenRoundTrip(cb, pb, eb, wb, x.1, t2);
    WhenRoundTrip(cc, pc, ec, wc, x.2, rest);
  }

  lemma When3Sound<A(!new), B(!new), C(!new)>(ca: bool, pa: Bytes -> Outcome<A>, ea: A -> Bytes, wa: A -> bool,
                                              cb: bool, pb: Bytes -> Outcome<B>, eb: B -> Bytes, wb: B -> bool,
                                              cc: bool, pc: Bytes -> Outcome<C>, ec: C -> Bytes, wc: C -> bool, s: Bytes)
    requires Sound(pa, ea, wa) && Sound(pb, eb, wb) && Sound(pc, ec, wc)
    ensures var o := When3(ca, pa, cb, pb, cc, pc, s);
      o.Done? ==> Gated(ca, wa, o.value.0) && Gated(cb, wb, o.value.1) && Gated(cc, wc, o.value.2) &&
                  s == OptBytes3(ea, eb, ec, o.value) + o.rest
  {
    var o := When3(ca, pa, cb, pb, cc, pc, s);
    if o.Done? {
      var a := When(ca, pa, s);
      var b := When(cb, pb, a.rest);
      WhenSound(ca, pa, ea, wa, s);
      WhenSound(cb, pb, eb, wb, a.rest);
      WhenSound(cc, pc, ec, wc, b.rest);
      Nest3(OptBytes(ea, o.value.0), OptBytes(eb, o.value.1), OptBytes(ec, o.value.2), o.rest);
    }
  }

  // ---- a list read only when its count was read (`if let Some(n) = count { count(p, n).map(Some) }`)

  function Counted<T>(n: Option<u32>, p: Bytes -> Outcome<T>, s: Bytes): (o: Outcome<Option<seq<T>>>)
    ensures n.None? ==> o == Done(None, s)
    ensures n.Some? && o.Done? ==> o.value.Some? && |o.value.value| == n.value
  {
    if n.Some? then
      var xs :- Many(p, n.value, s);
      Done(Some(xs.value), xs.rest)
    else Done(None, s)
  }

  function OptFlat<T>(e: T -> Bytes, o: Option<seq<T>>): Bytes
  {
    if o.Some? then Flat(e, o.value) else []
  }

  /** A counted list is present exactly when its count is, with that many admitted elements. */
  predicate CountMatches<T>(n: Option<u32>, w: T -> bool, o: Option<seq<T>>)
  {
    (o.Some? <==> n.Some?) && (o.Some? ==> |o.value| == n.value && forall i :: 0 <= i < |o.value| ==> w(o.value[i]))
  }

  lemma CountedRoundTrip<T(!new)>(n: Option<u32>, p: Bytes -> Outcome<T>, e: T -> Bytes, w: T -> bool,
                                  o: Option<seq<T>>, rest: Bytes)
    requires Complete(p, e, w) && CountMatches(n, w, o)
    ensures Counted(n, p, OptFlat(e, o) + rest) == Done(o, rest)
  {
    if n.Some? {
      ManyRoundTrip(p, e, w, o.value, rest);
    } else {
      assert OptFlat(e, o) + rest == rest;
    }
  }

  lemma CountedSound<T(!new)>(n: Option<u32>, p: Bytes -> Outcome<T>, e: T -> Bytes, w: T -> bool, s: Bytes)
    requires Sound(p, e, w)
    ensures var o := Counted(n, p, s);
      o.Done? ==> CountMatches(n, w, o.value) && s == OptFlat(e, o.value) + o.rest
  {
    if n.Some? {
      ManySound(p, e, w, n.value, s);
    }
  }

  /** Raw bytes read only when their length was read. */
  function TakeWhen(n: Option<u32>, s: Bytes): (o: Outcome<Option<Bytes>>)
    ensures n.None? ==> o == Done(None, s)
    ensures !o.Panic?
    ensures o.Done? ==> CountMatches(n, Any, o.value) && s == OptBytes(Raw, o.value) + o.rest
  {
    if n.Some? then
      var b :- Take(n.value, s);
      Done(Some(b.value), b.rest)
    else Done(None, s)
  }

  function Raw(b: Bytes): Bytes { b }

  lemma TakeWhenRoundTrip(n: Option<u32>, o: Option<Bytes>, rest: Bytes)
    requires CountMatches(n, Any, o)
    ensures TakeWhen(n, OptBytes(Raw, o) + rest) == Done(o, rest)
  {
    if n.Some? {
      TakeRoundTrip(o.value, rest);
    }
  }

  // ---- `trim_end_matches('\0')`

  predicate NoTrailingNul(b: Bytes)
  {
    b == [] || b[|b| - 1] != 0
  }

  /** `b` with every trailing NUL removed. */
  function TrimEndNuls(b: Bytes): (r: Bytes)
    ensures |r| <= |b| && r == b[..|r|] && NoTrailingNul(r)
    ensures forall i :: |r| <= i < |b| ==> b[i] == 0
    decreases |b|
  {
    if b != [] && b[|b| - 1] == 0 then TrimEndNuls(b[..|b| - 1]) else b
  }

  /** A sequence is its trimmed prefix followed by the NULs trimmed off it. */
  lemma TrimSplit(b: Bytes)
    ensures b == TrimEndNuls(b) + Zeros(|b| - |TrimEndNuls(b)|)
  {
    var r := TrimEndNuls(b);
    var z := Zeros(|b| - |r|);
    forall i | 0 <= i < |b| ensures b[i] == (r + z)[i] {
      if i >= |r| {
        assert b[i] == 0;
      }
    }
  }

  /** Trimming removes exactly the zeros appended to a name that does not end in a NUL. */
  lemma {:induction false} TrimZeros(b: Bytes, n: nat)
    requires NoTrailingNul(b)
    ensures TrimEndNuls(b + Zeros(n)) == b
    decreases n
  {
    if n > 0 {
      var z := b + Zeros(n);
      assert z[..|z| - 1] == b + Zeros(n - 1);
      TrimZeros(b, n - 1);
    } else {
      assert b + Zeros(0) == b;
    }
  }

  // ---- concatenation facts used to line up a parser's remaining input with an encoding

  lemma SuffixCancel(a: Bytes, x: Bytes, y: Bytes)
    ensures a + x == a + y <==> x == y
  {
    if a + x == a + y {
      assert (a + x)[|a|..] == x;
      assert (a + y)[|a|..] == y;
    }
  }

  /** A value `p` accepts, encoded and followed by `tail`, parses back with `tail` left over. */
  lemma CompleteThen<T(!new)>(p: Bytes -> Outcome<T>, e: T -> Bytes, w: T -> bool, x: T, tail: Bytes, rest: Bytes)
    requires Complete(p, e, w) && w(x)
    ensures p(e(x) + tail + rest) == Done(x, tail + rest)
  {
    Nest2(e(x), tail, rest);
    CompleteAt(p, e, w, x, tail + rest);
  }

  /** Re-encoding what `p` parsed, followed by `tail`, gives back the input exactly when `tail` is what was left over. */
  lemma ReencodeExact<T(!new)>(p: Bytes -> Outcome<T>, e: T -> Bytes, w: T -> bool, s: Bytes, tail: Bytes)
    requires Sound(p, e, w) && p(s).Done?
    ensures e(p(s).value) + tail == s <==> p(s).rest == tail
  {
    SoundAt(p, e, w, s);
    SuffixCancel(e(p(s).value), p(s).rest, tail);
  }

  /** The same, for an encoding padded with zeros to a multiple of 4. */
  lemma PaddedReencodeExact<T(!new)>(p: Bytes -> Outcome<T>, e: T -> Bytes, w: T -> bool, s: Bytes)
    requires Sound(p, e, w) && p(s).Done?
    ensures var f := e(p(s).value); f + Zeros(Pad4(|f|)) == s <==> p(s).rest == Zeros(Pad4(|f|))
  {
    ReencodeExact(p, e, w, s, Zeros(Pad4(|e(p(s).value)|)));
  }

  /** A sequence is its first `k` elements followed by the rest. */
  lemma SplitAt(s: Bytes, k: nat, a: Bytes, b: Bytes)
    requires k <= |s| && s[..k] == a && s[k..] == b
    ensures s == a + b
  {
    assert s == s[..k] + s[k..];
  }

  lemma Nest2(a: Bytes, b: Bytes, r: Bytes)
    ensures a + b + r == a + (b + r)
  {
  }

  lemma Nest3(a: Bytes, b: Bytes, c: Bytes, r: Bytes)
    ensures a + b + c + r == a + (b + (c + r))
  {
  }

  lemma Nest4(a: Bytes, b: Bytes, c: Bytes, d: Bytes, r: Bytes)
    ensures a + b + c + d + r == a + (b + (c + (d + r)))
  {
  }

  lemma Nest5(a: Bytes, b: Bytes, c: Bytes, d: Bytes, e: Bytes, r: Bytes)
    ensures a + b + c + d + e + r == a + (b + (c + (d + (e + r))))
  {
  }

  lemma Nest6(a: Bytes, b: Bytes, c: Bytes, d: Bytes, e: Bytes, f: Bytes, r: Bytes)
    ensures a + b + c + d + e + f + r == a + (b + (c + (d + (e + (f + r)))))
  {
  }

  lemma Nest7(a: Bytes, b: Bytes, c: Bytes, d: Bytes, e: Bytes, f: Bytes, g: Bytes, r: Bytes)
    ensures a + b + c + d + e + f + g + r == a + (b + (c + (d + (e + (f + (g + r))))))
  {
  }

  lemma Nest8(a: Bytes, b: Bytes, c: Bytes, d: Bytes, e: Bytes, f: Bytes, g: Bytes, h: Bytes, r: Bytes)
    ensures a + b + c + d + e + f + g + h + r == a + (b + (c + (d + (e + (f + (g + (h + r)))))))
  {
  }

  lemma Nest9(a: Bytes, b: Bytes, c: Bytes, d: Bytes, e: Bytes, f: Bytes, g: Bytes, h: Bytes, i: Bytes, r: Bytes)
    ensures a + b + c + d + e + f + g + h + i + r == a + (b + (c + (d + (e + (f + (g + (h + (i + r))))))))
  {
  }

}
