/**
 The 256-bit intrinsics the kernels use, lane by lane.  A register of 32-bit lanes is a sequence
 of eight signed integers, so an all-ones lane is -1 and the top bit of a lane is its sign.
 */
module Simd {
  import opened Machine
  import opened Bitmap

  type Lanes32 = l: seq<int32> | |l| == 8 witness [0, 0, 0, 0, 0, 0, 0, 0]
  type Lanes64 = l: seq<int64> | |l| == 4 witness [0, 0, 0, 0]
  type Lanes8 = l: seq<uint8> | |l| == 32 witness seq(32, i => 0)

  // ----- 32-bit lanes

  function Load32(data: seq<int32>, i: nat): Lanes32
    requires i + 8 <= |data|
  {
    data[i..i + 8]
  }

  function Set32(x: int32): Lanes32 { seq(8, k => x) }

  function CmpGt32(a: Lanes32, b: Lanes32): Lanes32 {
    seq(8, k requires 0 <= k < 8 => if a[k] > b[k] then -1 else 0)
  }

  function CmpEq32(a: Lanes32, b: Lanes32): Lanes32 {
    seq(8, k requires 0 <= k < 8 => if a[k] == b[k] then -1 else 0)
  }

  /** Bit k of the result is the top bit of lane k. */
  function MoveMaskPs(l: Lanes32): bv8 {
    PackByte(seq(8, k requires 0 <= k < 8 => l[k] < 0), 0)
  }

  function Pow2(w: nat): (p: int)
    ensures p >= 1
  {
    if w == 0 then 1 else 2 * Pow2(w - 1)
  }

  /** Bitwise and of two integers in two's complement, with w value bits below the sign bit. */
  function And(a: int, b: int, w: nat): (r: int)
    requires -Pow2(w) <= a < Pow2(w) && -Pow2(w) <= b < Pow2(w)
    ensures -Pow2(w) <= r < Pow2(w)
    decreases w
  {
    if w == 0 then (if a == -1 && b == -1 then -1 else 0)
    else 2 * And(a / 2, b / 2, w - 1) + (if a % 2 == 1 && b % 2 == 1 then 1 else 0)
  }

  /** Bit k of a two's complement integer; from the sign bit on, all bits are the sign. */
  predicate IntBit(a: int, k: nat)
    decreases k
  {
    if k == 0 then a % 2 == 1 else IntBit(a / 2, k - 1)
  }

  /** Every bit of the result, sign included, is the conjunction of the operands' bits. */
  lemma {:induction false} AndIsBitwise(a: int, b: int, w: nat, k: nat)
    requires -Pow2(w) <= a < Pow2(w) && -Pow2(w) <= b < Pow2(w)
    ensures IntBit(And(a, b, w), k) == (IntBit(a, k) && IntBit(b, k))
    decreases w, k
  {
    if k > 0 {
      if w == 0 {
        AndIsBitwise(a, b, 0, k - 1);
      } else {
        AndIsBitwise(a / 2, b / 2, w - 1, k - 1);
      }
    }
  }

  lemma Int32Width()
    ensures Pow2(31) == 0x8000_0000
  {
    assert Pow2(8) == 0x100;
    assert Pow2(16) == 0x1_0000;
    assert Pow2(24) == 0x100_0000;
  }

  function And32(a: Lanes32, b: Lanes32): Lanes32 {
    Int32Width();
    seq(8, k requires 0 <= k < 8 => And(a[k], b[k], 31))
  }

  /** A mask lane that compares produce is all ones or all zeros: it keeps or clears the lane. */
  lemma {:induction false} AndMask(v: int, w: nat)
    requires -Pow2(w) <= v < Pow2(w)
    ensures And(v, -1, w) == v && And(v, 0, w) == 0
    decreases w
  {
    if w > 0 {
      AndMask(v / 2, w - 1);
    }
  }

  /** And with a power of two isolates that bit of a byte. */
  lemma {:induction false} AndSingle(b: bv8, k: nat, w: nat)
    requires k < 8 && k < w && b as int < Pow2(w) && Pow2(k) < Pow2(w)
    ensures And(b as int, Pow2(k), w) == if TestBit(b, k) then Pow2(k) else 0
    decreases w
  {
    HalveByte(b);
    if k == 0 {
      AndMask(b as int / 2, w - 1);
    } else {
      AndSingle(b >> 1, k - 1, w - 1);
    }
  }

  lemma HalveByte(b: bv8)
    ensures (b >> 1) as int == b as int / 2
    ensures (b & 1 == 1) == (b as int % 2 == 1)
  {
  }

  /** Sign-extends the lower (0) or upper (1) four lanes to 64 bits. */
  function Extend64(l: Lanes32, half: nat): Lanes64
    requires half < 2
  {
    seq(4, k requires 0 <= k < 4 => l[4 * half + k])
  }

  // ----- 64-bit lanes

  function Add64(a: Lanes64, b: Lanes64): Lanes64 {
    seq(4, k requires 0 <= k < 4 => Wrap64(a[k] as int + b[k] as int))
  }

  // ----- 8-bit lanes

  function Load8(codes: seq<uint8>, i: nat): Lanes8
    requires i + 32 <= |codes|
  {
    codes[i..i + 32]
  }

  function Set8(x: uint8): Lanes8 { seq(32, k => x) }

  function CmpEq8(a: Lanes8, b: Lanes8): Lanes8 {
    seq(32, k requires 0 <= k < 32 => if a[k] == b[k] then 0xFF else 0)
  }

  /** Bits 8 * q .. 8 * q + 8 of the byte-wise move mask: the top bits of those eight lanes. */
  function MaskByte(l: Lanes8, q: nat): bv8
    requires q < 4
  {
    PackByte(seq(32, k requires 0 <= k < 32 => l[k] >= 0x80), 8 * q)
  }

  function MoveMask8(l: Lanes8): bv32 {
    Join32(MaskByte(l, 0), MaskByte(l, 1), MaskByte(l, 2), MaskByte(l, 3))
  }

  function Join32(a: bv8, b: bv8, c: bv8, d: bv8): bv32 {
    (a as bv32) | ((b as bv32) << 8) | ((c as bv32) << 16) | ((d as bv32) << 24)
  }

  function ByteOf32(m: bv32, q: nat): bv8
    requires q < 4
  {
    if q == 0 then (m & 0xFF) as bv8
    else if q == 1 then ((m >> 8) & 0xFF) as bv8
    else if q == 2 then ((m >> 16) & 0xFF) as bv8
    else ((m >> 24) & 0xFF) as bv8
  }

  function PopCount32(m: bv32): nat {
    PopCount(ByteOf32(m, 0)) + PopCount(ByteOf32(m, 1)) +
    PopCount(ByteOf32(m, 2)) + PopCount(ByteOf32(m, 3))
  }

  lemma MoveMask8Bytes(l: Lanes8, q: nat)
    requires q < 4
    ensures ByteOf32(MoveMask8(l), q) == MaskByte(l, q)
  {
    FourBytes(MaskByte(l, 0), MaskByte(l, 1), MaskByte(l, 2), MaskByte(l, 3), q);
  }

  lemma FourBytes(a: bv8, b: bv8, c: bv8, d: bv8, q: nat)
    requires q < 4
    ensures ByteOf32(Join32(a, b, c, d), q) == [a, b, c, d][q]
  {
    assert q == 0 || q == 1 || q == 2 || q == 3;
  }
}
