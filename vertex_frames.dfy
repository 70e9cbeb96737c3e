/**
 * The frame matrix shared by the two vertex-animation tracks:
 * `count(count(vertex, vertex_count), frame_count)`, a list of
 * `frame_count` frames of `vertex_count` vertices each, written out frame
 * after frame and vertex after vertex.
 */
module VertexFrames {
  import opened Wire

  /** `count(p, cols)` as a parser in its own right: one frame. */
  function RowParser<T>(p: Bytes -> Outcome<T>, cols: nat): Bytes -> Outcome<seq<T>>
  {
    s => Many(p, cols, s)
  }

  function RowBytes<T>(e: T -> Bytes): seq<T> -> Bytes
  {
    r => Flat(e, r)
  }

  function HasLength<T>(cols: nat): seq<T> -> bool
  {
    r => |r| == cols
  }

  /** `count(count(p, cols), rows)`. */
  function ParseMatrix<T>(p: Bytes -> Outcome<T>, cols: nat, rows: nat, s: Bytes): (o: Outcome<seq<seq<T>>>)
  {
    Many(RowParser(p, cols), rows, s)
  }

  /** The nested `flat_map` of the writers: every row's values, in order. */
  function MatrixBytes<T>(e: T -> Bytes, m: seq<seq<T>>): Bytes
  {
    Flat(RowBytes(e), m)
  }

  /** `rows` rows of `cols` values each. */
  predicate IsMatrix<T>(cols: nat, rows: nat, m: seq<seq<T>>)
  {
    |m| == rows && forall i :: 0 <= i < |m| ==> |m[i]| == cols
  }

  lemma RowCodec<T(!new)>(p: Bytes -> Outcome<T>, e: T -> Bytes, cols: nat)
    requires Complete(p, e, Any) && Sound(p, e, Any)
    ensures Complete(RowParser(p, cols), RowBytes(e), HasLength(cols))
    ensures Sound(RowParser(p, cols), RowBytes(e), HasLength(cols))
  {
    forall r: seq<T>, rest: Bytes | HasLength(cols)(r)
      ensures RowParser(p, cols)(RowBytes(e)(r) + rest) == Done(r, rest)
    {
      ManyRoundTrip(p, e, Any, r, rest);
    }
    forall s: Bytes | RowParser(p, cols)(s).Done?
      ensures HasLength(cols)(RowParser(p, cols)(s).value)
      ensures s == RowBytes(e)(RowParser(p, cols)(s).value) + RowParser(p, cols)(s).rest
    {
      ManySound(p, e, Any, cols, s);
    }
  }

  /** Serialising a well-shaped matrix and parsing it with its own dimensions gives it back. */
  lemma MatrixRoundTrip<T(!new)>(p: Bytes -> Outcome<T>, e: T -> Bytes, cols: nat, m: seq<seq<T>>, rest: Bytes)
    requires Complete(p, e, Any) && Sound(p, e, Any)
    requires IsMatrix(cols, |m|, m)
    ensures ParseMatrix(p, cols, |m|, MatrixBytes(e, m) + rest) == Done(m, rest)
  {
    RowCodec(p, e, cols);
    assert forall r :: r in m ==> HasLength(cols)(r);
    ManyRoundTrip(RowParser(p, cols), RowBytes(e), HasLength(cols), m, rest);
  }

  /** A parsed matrix has the requested shape and re-encodes to the bytes it consumed. */
  lemma MatrixSound<T(!new)>(p: Bytes -> Outcome<T>, e: T -> Bytes, cols: nat, rows: nat, s: Bytes)
    requires Complete(p, e, Any) && Sound(p, e, Any)
    ensures var o := ParseMatrix(p, cols, rows, s);
      o.Done? ==> IsMatrix(cols, rows, o.value) && s == MatrixBytes(e, o.value) + o.rest
  {
    RowCodec(p, e, cols);
    ManySound(RowParser(p, cols), RowBytes(e), HasLength(cols), rows, s);
    var o := ParseMatrix(p, cols, rows, s);
    if o.Done? {
      forall i | 0 <= i < |o.value| ensures |o.value[i]| == cols {
        assert o.value[i] in o.value;
      }
    }
  }

  lemma RowWidth<T(!new)>(p: Bytes -> Outcome<T>, k: nat, cols: nat, w: nat)
    requires FixedWidth(p, k) && w == k * cols
    ensures FixedWidth(RowParser(p, cols), w)
  {
    forall t: Bytes ensures var o := RowParser(p, cols)(t);
      !o.Panic? && (o.Failure? <==> |t| < w) && (o.Done? ==> |o.rest| == |t| - w)
    {
      ManyFixedWidth(p, k, cols, t);
    }
  }

  /** With `k`-byte values, the matrix takes exactly `w * rows` bytes, `w = k * cols`, and fails on anything shorter. */
  lemma MatrixWidth<T(!new)>(p: Bytes -> Outcome<T>, k: nat, cols: nat, w: nat, rows: nat, s: Bytes)
    requires FixedWidth(p, k) && w == k * cols
    ensures var o := ParseMatrix(p, cols, rows, s);
      !o.Panic? && (o.Failure? <==> |s| < w * rows) && (o.Done? ==> |o.rest| == |s| - w * rows)
  {
    RowWidth(p, k, cols, w);
    ManyFixedWidth(RowParser(p, cols), w, rows, s);
  }

  /** With `k`-byte values, a well-shaped matrix serialises to `k * cols * rows` bytes. */
  lemma MatrixBytesLength<T>(e: T -> Bytes, k: nat, cols: nat, m: seq<seq<T>>)
    requires forall x: T :: |e(x)| == k
    requires IsMatrix(cols, |m|, m)
    ensures |MatrixBytes(e, m)| == k * cols * |m|
  {
    forall r | r in m ensures |RowBytes(e)(r)| == k * cols {
      FlatLength(e, k, r);
    }
    FlatLength(RowBytes(e), k * cols, m);
  }
}
