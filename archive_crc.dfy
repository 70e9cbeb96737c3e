/**
 * The file-name checksum of the PFS archive index: a CRC-32 with the
 * IEEE 802.3 polynomial 0x04C11DB7 in its non-reflected form, computed a
 * byte at a time through a 256-entry table, starting from 0 and with no
 * final inversion. The name is checksummed together with its NUL
 * terminator.
 *
 * The 32-bit register is modelled by its bits, the most significant
 * first, so that `<<` drops bits on the left and `^` is bitwise; the
 * table holds the registers' u32 values.
 */
module ArchiveCrc {
  import opened Wire

  const RoundsPerByte: nat := 8

  function Zeros(n: nat): seq<bool>
  {
    seq(n, _ => false)
  }

  /** Bitwise exclusive or. */
  function Xor(a: seq<bool>, b: seq<bool>): seq<bool>
    requires |a| == |b|
  {
    seq(|a|, i requires 0 <= i < |a| => a[i] != b[i])
  }

  /** A shift left by `k` within the register's width. */
  function Shl(a: seq<bool>, k: nat): seq<bool>
    requires k <= |a|
  {
    a[k..] + Zeros(k)
  }

  /** The low `w` bits of `n`, the most significant first. */
  function Bits(n: nat, w: nat): (r: seq<bool>)
    ensures |r| == w
    decreases w
  {
    if w == 0 then [] else Bits(n / 2, w - 1) + [n % 2 == 1]
  }

  function Pow2(n: nat): (p: nat)
    ensures p > 0
  {
    if n == 0 then 1 else 2 * Pow2(n - 1)
  }

  /** The number whose bits `a` are. */
  function Value(a: seq<bool>): (v: nat)
    ensures v < Pow2(|a|)
    decreases |a|
  {
    if a == [] then 0 else 2 * Value(a[..|a| - 1]) + (if a[|a| - 1] then 1 else 0)
  }

  lemma Pow2Of32()
    ensures Pow2(32) == 0x1_0000_0000
  {
    assert Pow2(8) == 0x100;
    assert Pow2(16) == 0x1_0000;
    assert Pow2(24) == 0x100_0000;
  }

  /** A register's u32 value. */
  function Word(r: seq<bool>): u32
    requires |r| == 32
  {
    Pow2Of32();
    Value(r)
  }

  /** Reading a bit pattern as a number and writing it back gives the pattern. */
  lemma {:induction false} BitsValue(a: seq<bool>)
    ensures Bits(Value(a), |a|) == a
    decreases |a|
  {
    if a != [] {
      var init := a[..|a| - 1];
      BitsValue(init);
      var v := Value(a);
      assert v / 2 == Value(init) && (v % 2 == 1) == a[|a| - 1];
      assert a == init + [a[|a| - 1]];
    }
  }

  /** 0x04C11DB7, bit by bit. */
  function Polynomial(): (p: seq<bool>)
    ensures |p| == 32
  {
    [false, false, false, false, false, true, false, false,
     true, true, false, false, false, false, false, true,
     false, false, false, true, true, true, false, true,
     true, false, true, true, false, true, true, true]
  }

  /** A byte placed in the top eight bits of the register (`(idx as u32) << 24`). */
  function Seed(i: byte): (r: seq<bool>)
    ensures |r| == 32
  {
    Bits(i, 8) + Zeros(24)
  }

  /** One bit of polynomial division: shift left, folding in the polynomial when the top bit falls out. */
  function Round(crc: seq<bool>): (r: seq<bool>)
    requires |crc| == 32
    ensures |r| == 32
  {
    if crc[0] then Xor(Shl(crc, 1), Polynomial()) else Shl(crc, 1)
  }

  function Rounds(crc: seq<bool>, n: nat): (r: seq<bool>)
    requires |crc| == 32
    ensures |r| == 32
    decreases n
  {
    if n == 0 then crc else Round(Rounds(crc, n - 1))
  }

  /** Entry `i` of `CRC_TABLE`, as a register: eight rounds from `i << 24`. */
  function TableEntry(i: byte): (r: seq<bool>)
    ensures |r| == 32
  {
    Rounds(Seed(i), RoundsPerByte)
  }

  /** `build_crc_table`: fills a 256-entry table, eight rounds per entry. */
  method BuildCrcTable() returns (table: array<u32>)
    ensures fresh(table) && table.Length == 256
    ensures forall i :: 0 <= i < 256 ==> table[i] == Word(TableEntry(i))
  {
    table := new u32[256](_ => 0);
    var idx := 0;
    while idx < 256
      invariant 0 <= idx <= 256
      invariant forall j :: 0 <= j < idx ==> table[j] == Word(TableEntry(j))
    {
      var crc := EntryRegister(idx);
      ghost var before := table[..];
      table[idx] := Word(crc);
      forall j | 0 <= j <= idx
        ensures table[j] == Word(TableEntry(j))
      {
        if j < idx {
          assert table[j] == before[j];
        }
      }
      idx := idx + 1;
    }
  }

  /** The inner loop of `build_crc_table`: eight shift-and-reduce rounds on one seed. */
  method EntryRegister(idx: byte) returns (crc: seq<bool>)
    ensures crc == TableEntry(idx)
  {
    crc := Seed(idx);
    var round := 0;
    while round < RoundsPerByte
      invariant 0 <= round <= RoundsPerByte
      invariant crc == Rounds(Seed(idx), round)
    {
      if crc[0] {
        crc := Xor(Shl(crc, 1), Polynomial());
      } else {
        crc := Shl(crc, 1);
      }
      round := round + 1;
    }
  }

  /**
   * One byte through the table, as the fold in `filename_crc` does it: the
   * register shifted left by eight, xored with the entry that the register's
   * top byte xored with `b` selects.
   */
  function Step(crc: seq<bool>, b: byte): (r: seq<bool>)
    requires |crc| == 32
    ensures |r| == 32
  {
    Xor(Shl(crc, 8), TableEntry(Value(Xor(crc[..8], Bits(b, 8)))))
  }

  /** The fold of `Step` over `s`, starting from `crc`. */
  function Crc(crc: seq<bool>, s: Bytes): (r: seq<bool>)
    requires |crc| == 32
    ensures |r| == 32
    decreases |s|
  {
    if s == [] then crc else Crc(Step(crc, s[0]), s[1..])
  }

  /** `filename_crc`: the name's bytes and one NUL, from a zero register. */
  function NameCrc(name: Bytes): u32
  {
    Word(Crc(Zeros(32), name + [0]))
  }

  // ---------------------------------------------------------------------
  // The reference definition: plain bitwise polynomial division.

  /** One byte fed into the top of the register, then eight rounds. */
  function BitStep(crc: seq<bool>, b: byte): (r: seq<bool>)
    requires |crc| == 32
    ensures |r| == 32
  {
    Rounds(Xor(crc, Seed(b)), RoundsPerByte)
  }

  function BitwiseCrc(crc: seq<bool>, s: Bytes): (r: seq<bool>)
    requires |crc| == 32
    ensures |r| == 32
    decreases |s|
  {
    if s == [] then crc else BitwiseCrc(BitStep(crc, s[0]), s[1..])
  }

  /** A round is linear over GF(2). */
  lemma RoundLinear(x: seq<bool>, y: seq<bool>)
    requires |x| == 32 && |y| == 32
    ensures Round(Xor(x, y)) == Xor(Round(x), Round(y))
  {
    var p := Polynomial();
    assert Shl(Xor(x, y), 1) == Xor(Shl(x, 1), Shl(y, 1));
    if x[0] && y[0] {
      assert Xor(Xor(Shl(x, 1), p), Xor(Shl(y, 1), p)) == Xor(Shl(x, 1), Shl(y, 1));
    } else if x[0] {
      assert Xor(Xor(Shl(x, 1), p), Shl(y, 1)) == Xor(Xor(Shl(x, 1), Shl(y, 1)), p);
    } else if y[0] {
      assert Xor(Shl(x, 1), Xor(Shl(y, 1), p)) == Xor(Xor(Shl(x, 1), Shl(y, 1)), p);
    }
  }

  lemma {:induction false} RoundsLinear(x: seq<bool>, y: seq<bool>, n: nat)
    requires |x| == 32 && |y| == 32
    ensures Rounds(Xor(x, y), n) == Xor(Rounds(x, n), Rounds(y, n))
    decreases n
  {
    if n > 0 {
      RoundsLinear(x, y, n - 1);
      RoundLinear(Rounds(x, n - 1), Rounds(y, n - 1));
    }
  }

  /** Bits below the top byte never reach the top bit within eight rounds, so they only shift. */
  lemma {:induction false} LowRounds(t: seq<bool>, k: nat)
    requires |t| == 24 && k <= 8
    ensures Rounds(Zeros(8) + t, k) == Zeros(8 - k) + t + Zeros(k)
    decreases k
  {
    if k > 0 {
      LowRounds(t, k - 1);
      var r := Zeros(9 - k) + t + Zeros(k - 1);
      assert !r[0];
      assert Shl(r, 1) == Zeros(8 - k) + t + Zeros(k);
    } else {
      assert Zeros(8) + t + Zeros(0) == Zeros(8) + t;
    }
  }

  /** The table step is the bitwise step: the table holds the eight rounds of the byte that leaves the register. */
  lemma StepIsBitStep(crc: seq<bool>, b: byte)
    requires |crc| == 32
    ensures Step(crc, b) == BitStep(crc, b)
  {
    var hi := Xor(crc[..8], Bits(b, 8));
    var lo := crc[8..];
    BitsValue(hi);
    assert Seed(Value(hi)) == hi + Zeros(24);
    assert Xor(crc, Seed(b)) == Xor(hi + Zeros(24), Zeros(8) + lo);
    RoundsLinear(hi + Zeros(24), Zeros(8) + lo, RoundsPerByte);
    LowRounds(lo, 8);
    assert Zeros(0) + lo + Zeros(8) == Shl(crc, 8);
    assert Xor(TableEntry(Value(hi)), Shl(crc, 8)) == Xor(Shl(crc, 8), TableEntry(Value(hi)));
  }

  /** The table-driven checksum is the bitwise one. */
  lemma {:induction false} CrcIsBitwise(crc: seq<bool>, s: Bytes)
    requires |crc| == 32
    ensures Crc(crc, s) == BitwiseCrc(crc, s)
    decreases |s|
  {
    if s != [] {
      StepIsBitStep(crc, s[0]);
      CrcIsBitwise(Step(crc, s[0]), s[1..]);
    }
  }

  /** Checksumming two pieces in turn is checksumming their concatenation. */
  lemma {:induction false} CrcAppend(crc: seq<bool>, a: Bytes, b: Bytes)
    requires |crc| == 32
    ensures Crc(crc, a + b) == Crc(Crc(crc, a), b)
    decreases |a|
  {
    if a != [] {
      assert (a + b)[0] == a[0] && (a + b)[1..] == a[1..] + b;
      CrcAppend(Step(crc, a[0]), a[1..], b);
    } else {
      assert a + b == b;
    }
  }

  /**
   * The name checksum is the bitwise CRC-32 of the name and its NUL from a
   * zero register: the name's own checksum advanced by one zero byte.
   */
  lemma NameCrcSpec(name: Bytes)
    ensures NameCrc(name) == Word(BitwiseCrc(Zeros(32), name + [0]))
    ensures NameCrc(name) == Word(Step(Crc(Zeros(32), name), 0))
  {
    CrcIsBitwise(Zeros(32), name + [0]);
    CrcAppend(Zeros(32), name, [0]);
    assert [0 as byte][1..] == [];
  }

  lemma {:induction false} ZeroRounds(n: nat)
    ensures Rounds(Zeros(32), n) == Zeros(32)
    decreases n
  {
    if n > 0 {
      ZeroRounds(n - 1);
      assert Shl(Zeros(32), 1) == Zeros(32);
    }
  }

  lemma {:induction false} ZeroBits(w: nat)
    ensures Bits(0, w) == Zeros(w) && Value(Zeros(w)) == 0
    decreases w
  {
    if w > 0 {
      ZeroBits(w - 1);
      assert Zeros(w) == Zeros(w - 1) + [false];
      assert Zeros(w)[..w - 1] == Zeros(w - 1);
    }
  }

  /** With a zero start and no final inversion, leading NUL bytes leave the checksum unchanged. */
  lemma LeadingZeroInvisible(s: Bytes)
    ensures Crc(Zeros(32), [0] + s) == Crc(Zeros(32), s)
  {
    var z := Zeros(32);
    assert ([0] + s)[0] == 0 && ([0] + s)[1..] == s;
    ZeroBits(8);
    assert Xor(z[..8], Bits(0, 8)) == Zeros(8);
    ZeroRounds(RoundsPerByte);
    assert Seed(0) == z;
    assert Xor(Shl(z, 8), z) == z;
    assert Step(z, 0) == z;
  }
}
