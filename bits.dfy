/**
 * Bit helpers of the maze (Maze.GetBit, Maze.FlipBit, Maze.SetBitTo).
 *
 * The helpers take a C# `int`, a 32-bit two's-complement value, which is modelled as `bv32`:
 * `+`, `-`, `>>` and `&` on `bv32` wrap exactly like unchecked C# arithmetic. A bit index is
 * a `bv32` below 32. A cell's bound bitmask is a C# `ushort`, modelled as `bv16`; it is widened
 * to `int` before a helper runs and narrowed back with a `(ushort)` cast afterwards.
 *
 * The facts about a single bit are proved one small lemma at a time, because the solver
 * reasons about a shift by a variable amount circuit by circuit.
 */
module Bits {

  /** Value of bit `n` of `v`: `(v >> n) & 1`. Always 0 or 1. */
  function GetBit(v: bv32, n: bv32): (r: bv32)
    requires n < 32
    ensures r == 0 || r == 1
  {
    (v >> n) & 1
  }

  /** Inverts bit `n` of `v` by adding or subtracting `1 << n`. */
  function FlipBit(v: bv32, n: bv32): bv32
    requires n < 32
  {
    v + (if GetBit(v, n) > 0 then -(1 << n) else 1 << n)
  }

  /** Adding or subtracting the mask is exclusive-or with it: no carry or borrow escapes bit `n`. */
  lemma FlipBitIsXor(v: bv32, n: bv32)
    requires n < 32
    ensures FlipBit(v, n) == v ^ (1 << n)
  {
    if GetBit(v, n) > 0 {
      FlipSetBit(v, n);
    } else {
      FlipClearBit(v, n);
    }
  }

  lemma FlipSetBit(v: bv32, n: bv32)
    requires n < 32 && GetBit(v, n) > 0
    ensures FlipBit(v, n) == v ^ (1 << n)
  {
    SubtractSetBit(v, n);
    assert FlipBit(v, n) == v + -(1 << n);
  }

  lemma FlipClearBit(v: bv32, n: bv32)
    requires n < 32 && GetBit(v, n) == 0
    ensures FlipBit(v, n) == v ^ (1 << n)
  {
    AddClearBit(v, n);
    assert FlipBit(v, n) == v + (1 << n);
  }

  lemma SubtractSetBit(v: bv32, n: bv32)
    requires n < 32 && GetBit(v, n) > 0
    ensures v + -(1 << n) == v ^ (1 << n)
  {
    var mask: bv32 := 1 << n;
    assert v & mask == mask;
    SubtractContained(v, mask);
  }

  lemma AddClearBit(v: bv32, n: bv32)
    requires n < 32 && GetBit(v, n) == 0
    ensures v + (1 << n) == v ^ (1 << n)
  {
    var mask: bv32 := 1 << n;
    assert v & mask == 0;
    AddDisjoint(v, mask);
  }

  /** Subtracting bits that are all present borrows nothing. */
  lemma SubtractContained(v: bv32, m: bv32)
    requires v & m == m
    ensures v + -m == v ^ m
  {
  }

  /** Adding bits that are all absent carries nothing. */
  lemma AddDisjoint(v: bv32, m: bv32)
    requires v & m == 0
    ensures v + m == v ^ m
  {
  }

  /** Exclusive-or with the mask `1 << n` inverts bit `n` and no other. */
  lemma XorMaskBit(v: bv32, n: bv32, m: bv32)
    requires n < 32 && m < 32
    ensures GetBit(v ^ (1 << n), m) == if m == n then 1 - GetBit(v, n) else GetBit(v, m)
  {
    if m == n {
      XorMaskSameBit(v, n);
    } else {
      XorMaskOtherBit(v, n, m);
    }
  }

  lemma XorMaskSameBit(v: bv32, n: bv32)
    requires n < 32
    ensures GetBit(v ^ (1 << n), n) == 1 - GetBit(v, n)
  {
    var w := v ^ (1 << n);
    assert GetBit(w, n) == (w >> n) & 1;
    assert GetBit(v, n) == (v >> n) & 1;
  }

  lemma XorMaskOtherBit(v: bv32, n: bv32, m: bv32)
    requires n < 32 && m < 32 && m != n
    ensures GetBit(v ^ (1 << n), m) == GetBit(v, m)
  {
    var w := v ^ (1 << n);
    assert GetBit(w, m) == (w >> m) & 1;
    assert GetBit(v, m) == (v >> m) & 1;
  }

  /** FlipBit inverts bit `n` and leaves every other bit as it was. */
  lemma FlipBitBits(v: bv32, n: bv32, m: bv32)
    requires n < 32 && m < 32
    ensures GetBit(FlipBit(v, n), m) == if m == n then 1 - GetBit(v, n) else GetBit(v, m)
  {
    FlipBitIsXor(v, n);
    XorMaskBit(v, n, m);
  }

  /** FlipBit is its own inverse. */
  lemma FlipBitInvolutive(v: bv32, n: bv32)
    requires n < 32
    ensures FlipBit(FlipBit(v, n), n) == v
  {
    FlipBitIsXor(v, n);
    FlipBitIsXor(FlipBit(v, n), n);
  }

  /** The bit value that `SetBitTo` stores for a requested `b`: 1 when `b > 0`, else 0. */
  function BitOf(b: int): (r: bv32)
    ensures r == 0 || r == 1
    ensures r == 1 <==> b > 0
  {
    if b > 0 then 1 else 0
  }

  /**
   * Makes bit `n` of `v` equal to `b > 0 ? 1 : 0`, flipping it only when it differs
   * (see SetBitToBits for the effect on every bit).
   */
  function SetBitTo(v: bv32, n: bv32, b: int): bv32
    requires n < 32
  {
    if GetBit(v, n) == BitOf(b) then v else FlipBit(v, n)
  }

  /** After SetBitTo, bit `n` holds the requested value and every other bit is unchanged. */
  lemma SetBitToBits(v: bv32, n: bv32, b: int, m: bv32)
    requires n < 32 && m < 32
    ensures GetBit(SetBitTo(v, n, b), m) == if m == n then BitOf(b) else GetBit(v, m)
  {
    if GetBit(v, n) != BitOf(b) {
      FlipBitBits(v, n, m);
    }
  }

  /** Setting a bit twice keeps only the second value. */
  lemma SetBitToTwice(v: bv32, n: bv32, b: int, c: int)
    requires n < 32
    ensures SetBitTo(SetBitTo(v, n, b), n, c) == SetBitTo(v, n, c)
  {
    var w := SetBitTo(v, n, b);
    SetBitToBits(v, n, b, n);
    if GetBit(v, n) != BitOf(b) && GetBit(v, n) == BitOf(c) {
      FlipBitInvolutive(v, n);
    }
  }

  /** Widening of a `ushort` to a C# `int` (zero extension): no bit above 15 is set. */
  function Widen(u: bv16): (r: bv32)
    ensures r < 0x1_0000
    ensures r as bv16 == u
  {
    u as bv32
  }

  /**
   * `(ushort)SetBitTo(bits, n, b)` as the maze writes a bound bit: for a bit index below 16
   * the 32-bit result still fits in 16 bits, so the cast loses nothing.
   */
  function SetBoundBit(bits: bv16, n: bv32, b: int): (r: bv16)
    requires n < 16
    ensures Widen(r) == SetBitTo(Widen(bits), n, b)
  {
    SetBitToFits(Widen(bits), n, b);
    SetBitTo(Widen(bits), n, b) as bv16
  }

  /** Changing one of the low 16 bits of a value below 2^16 keeps it below 2^16. */
  lemma SetBitToFits(w: bv32, n: bv32, b: int)
    requires w < 0x1_0000 && n < 16
    ensures SetBitTo(w, n, b) < 0x1_0000
  {
    if GetBit(w, n) != BitOf(b) {
      FlipBitIsXor(w, n);
      var r := SetBitTo(w, n, b);
      assert r == FlipBit(w, n);
      var mask: bv32 := 1 << n;
      assert mask < 0x1_0000;
    }
  }

  /** `ushort.MaxValue`, the bitmask of a new cell. */
  const AllClosed: bv16 := 0xFFFF

  /** Every bound bit of a new cell is 1 (closed). */
  lemma AllClosedHasEveryBit(n: bv32)
    requires n < 16
    ensures GetBit(Widen(AllClosed), n) == 1
  {
    var w := Widen(AllClosed);
    assert w == 0xFFFF;
  }

  /** Bit `d` of a cell's bound bitmask, for a dimension index `d` below 16. */
  function BoundBit(bits: bv16, d: nat): (r: bv32)
    requires d < 16
    ensures r == 0 || r == 1
  {
    GetBit(Widen(bits), d as bv32)
  }

  /** Distinct dimension indices below 16 name distinct bits. */
  lemma IndexInjective(d: nat, e: nat)
    requires d < 16 && e < 16
    ensures (d as bv32 == e as bv32) <==> d == e
  {
    IndexRoundTrip(d);
    IndexRoundTrip(e);
  }

  lemma IndexRoundTrip(d: nat)
    requires d < 16
    ensures (d as bv32) as int == d
  {
  }

  /**
   * After writing bit `d` of a bound bitmask, bit `d` holds the requested value and every
   * other bit reads as before.
   */
  lemma SetBoundBitReads(bits: bv16, d: nat, b: int, e: nat)
    requires d < 16 && e < 16
    ensures BoundBit(SetBoundBit(bits, d as bv32, b), e) == if e == d then BitOf(b) else BoundBit(bits, e)
  {
    IndexInjective(d, e);
    SetBitToBits(Widen(bits), d as bv32, b, e as bv32);
    assert Widen(SetBoundBit(bits, d as bv32, b)) == SetBitTo(Widen(bits), d as bv32, b);
  }
}
