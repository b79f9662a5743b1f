/**
 Packed selection bitmaps: one bit per row, least significant bit first.
 Every kernel that writes a bitmap is specified by Pack, every kernel that reads one by Bits.
 */
module Bitmap {
  /** The least number of bytes that holds n bits. */
  function ByteCount(n: nat): (b: nat)
    ensures 8 * b - 8 < n <= 8 * b
  {
    (n + 7) / 8
  }

  /** 1 << k. */
  function Single(k: nat): bv8
    requires k < 8
  {
    if k == 0 then 1 else Single(k - 1) << 1
  }

  /** (b >> k) & 1. */
  predicate TestBit(b: bv8, k: nat)
    requires k < 8
    decreases k
  {
    if k == 0 then b & 1 == 1 else TestBit(b >> 1, k - 1)
  }

  /** The number of one bits among the low k bits of a byte. */
  function CountBits(b: bv8, k: nat): nat
    requires k <= 8
  {
    if k == 0 then 0 else CountBits(b, k - 1) + if TestBit(b, k - 1) then 1 else 0
  }

  function PopCount(b: bv8): nat { CountBits(b, 8) }

  function Ones(p: seq<bool>): (c: nat)
    ensures c <= |p|
  {
    if p == [] then 0 else Ones(p[..|p| - 1]) + if p[|p| - 1] then 1 else 0
  }

  function BitAt(bm: seq<bv8>, i: nat): bool
    requires i < 8 * |bm|
  {
    TestBit(bm[i / 8], i % 8)
  }

  /** The first n row decisions recorded in a bitmap. */
  function Bits(bm: seq<bv8>, n: nat): (p: seq<bool>)
    requires n <= 8 * |bm|
    ensures |p| == n
  {
    if n == 0 then [] else Bits(bm, n - 1) + [BitAt(bm, n - 1)]
  }

  lemma {:induction false} BitsAt(bm: seq<bv8>, n: nat, i: nat)
    requires i < n <= 8 * |bm|
    ensures Bits(bm, n)[i] == BitAt(bm, i)
  {
    if i < n - 1 {
      BitsAt(bm, n - 1, i);
    }
  }

  /** Rows o .. o + k of p in the low k bits of a byte, with zero padding past the end. */
  function PackBits(p: seq<bool>, o: nat, k: nat): bv8
    requires k <= 8
  {
    if k == 0 then 0
    else PackBits(p, o, k - 1) | if o + k - 1 < |p| && p[o + k - 1] then Single(k - 1) else 0
  }

  /** The byte that holds rows o .. o + 8 of p. */
  function PackByte(p: seq<bool>, o: nat): bv8 {
    PackBits(p, o, 8)
  }

  /** The one bitmap of minimal length that records p. */
  function Pack(p: seq<bool>): seq<bv8> {
    seq(ByteCount(|p|), b requires 0 <= b < ByteCount(|p|) => PackByte(p, 8 * b))
  }

  // ----- single bytes

  lemma {:induction false} ShiftDown(b: bv8, k: nat)
    requires k < 8
    ensures TestBit(b, k) == ((b >> k) & 1 == 1)
    decreases k
  {
    if k > 0 {
      ShiftDown(b >> 1, k - 1);
      assert k == 1 || k == 2 || k == 3 || k == 4 || k == 5 || k == 6 || k == 7;
    }
  }

  lemma {:induction false} ShiftUp(k: nat)
    requires k < 8
    ensures Single(k) == (1 as bv8) << k
  {
    if k > 0 {
      ShiftUp(k - 1);
      assert k == 1 || k == 2 || k == 3 || k == 4 || k == 5 || k == 6 || k == 7;
    }
  }

  lemma SetBit(b: bv8, k: nat, j: nat)
    requires k < 8 && j < 8
    ensures TestBit(b | Single(k), j) == (TestBit(b, j) || j == k)
  {
    ShiftDown(b | Single(k), j);
    ShiftDown(b, j);
    ShiftUp(k);
    SetBitShift(b, k, j);
  }

  lemma SetBitShift(b: bv8, k: nat, j: nat)
    requires k < 8 && j < 8
    ensures (((b | (1 << k)) >> j) & 1 == 1) == ((b >> j) & 1 == 1 || j == k)
  {
    assert k == 0 || k == 1 || k == 2 || k == 3 || k == 4 || k == 5 || k == 6 || k == 7;
    assert j == 0 || j == 1 || j == 2 || j == 3 || j == 4 || j == 5 || j == 6 || j == 7;
  }

  lemma {:induction false} ZeroByte(j: nat)
    requires j < 8
    ensures !TestBit(0, j)
  {
    if j > 0 {
      ZeroByte(j - 1);
      assert (0 as bv8) >> 1 == 0;
    }
  }

  lemma SameBits(a: bv8, b: bv8)
    requires forall k :: 0 <= k < 8 ==> TestBit(a, k) == TestBit(b, k)
    ensures a == b
  {
    SameBit(a, b, 0); SameBit(a, b, 1); SameBit(a, b, 2); SameBit(a, b, 3);
    SameBit(a, b, 4); SameBit(a, b, 5); SameBit(a, b, 6); SameBit(a, b, 7);
    EightBits(a, b);
  }

  lemma EightBits(a: bv8, b: bv8)
    requires (a >> 0) & 1 == (b >> 0) & 1 && (a >> 1) & 1 == (b >> 1) & 1
    requires (a >> 2) & 1 == (b >> 2) & 1 && (a >> 3) & 1 == (b >> 3) & 1
    requires (a >> 4) & 1 == (b >> 4) & 1 && (a >> 5) & 1 == (b >> 5) & 1
    requires (a >> 6) & 1 == (b >> 6) & 1 && (a >> 7) & 1 == (b >> 7) & 1
    ensures a == b
  {
  }

  lemma SameBit(a: bv8, b: bv8, k: nat)
    requires k < 8 && TestBit(a, k) == TestBit(b, k)
    ensures (a >> k) & 1 == (b >> k) & 1
  {
    ShiftDown(a, k);
    ShiftDown(b, k);
    LowBit(a >> k);
    LowBit(b >> k);
  }

  lemma LowBit(b: bv8)
    ensures b & 1 == 0 || b & 1 == 1
  {
  }

  /** The bits of b below k: the effect of masking with (1 << k) - 1. */
  function LowBits(b: bv8, k: nat): bv8
    requires 0 < k < 8
  {
    b & (Single(k) - 1)
  }

  lemma LowBitsBit(b: bv8, k: nat, j: nat)
    requires 0 < k < 8 && j < 8
    ensures TestBit(LowBits(b, k), j) == (j < k && TestBit(b, j))
  {
    ShiftDown(LowBits(b, k), j);
    ShiftDown(b, j);
    ShiftUp(k);
    LowBitsShift(b, k, j);
  }

  lemma LowBitsShift(b: bv8, k: nat, j: nat)
    requires 0 < k < 8 && j < 8
    ensures (((b & ((1 << k) - 1)) >> j) & 1 == 1) == (j < k && (b >> j) & 1 == 1)
  {
    assert k == 1 || k == 2 || k == 3 || k == 4 || k == 5 || k == 6 || k == 7;
    assert j == 0 || j == 1 || j == 2 || j == 3 || j == 4 || j == 5 || j == 6 || j == 7;
  }

  lemma {:induction false} PackBitsBit(p: seq<bool>, o: nat, k: nat, j: nat)
    requires k <= 8 && j < 8
    ensures TestBit(PackBits(p, o, k), j) == (j < k && o + j < |p| && p[o + j])
  {
    if k == 0 {
      ZeroByte(j);
    } else {
      PackBitsBit(p, o, k - 1, j);
      SetBit(PackBits(p, o, k - 1), k - 1, j);
      assert PackBits(p, o, k - 1) | 0 == PackBits(p, o, k - 1);
    }
  }

  lemma PackByteBit(p: seq<bool>, o: nat, k: nat)
    requires k < 8
    ensures TestBit(PackByte(p, o), k) == (o + k < |p| && p[o + k])
  {
    PackBitsBit(p, o, 8, k);
  }

  lemma PackByteUnique(v: bv8, p: seq<bool>, o: nat)
    requires forall k :: 0 <= k < 8 ==> TestBit(v, k) == (o + k < |p| && p[o + k])
    ensures v == PackByte(p, o)
  {
    forall k | 0 <= k < 8 ensures TestBit(v, k) == TestBit(PackByte(p, o), k) {
      PackByteBit(p, o, k);
    }
    SameBits(v, PackByte(p, o));
  }

  // ----- whole bitmaps

  /** Bit i of a packed bitmap is row i, and every padding bit is zero. */
  lemma PackBit(p: seq<bool>, i: nat)
    requires i < 8 * ByteCount(|p|)
    ensures BitAt(Pack(p), i) == (i < |p| && p[i])
  {
    PackByteBit(p, 8 * (i / 8), i % 8);
  }

  /** Pack is the only bitmap of its length with those bits, so equal bits mean equal bytes. */
  lemma PackUnique(bm: seq<bv8>, p: seq<bool>)
    requires |bm| == ByteCount(|p|)
    requires forall i :: 0 <= i < 8 * |bm| ==> BitAt(bm, i) == (i < |p| && p[i])
    ensures bm == Pack(p)
  {
    forall b | 0 <= b < |bm| ensures bm[b] == Pack(p)[b] {
      ByteOfPack(bm, p, b);
    }
  }

  lemma ByteOfPack(bm: seq<bv8>, p: seq<bool>, b: nat)
    requires b < |bm|
    requires forall i :: 0 <= i < 8 * |bm| ==> BitAt(bm, i) == (i < |p| && p[i])
    ensures bm[b] == PackByte(p, 8 * b)
  {
    var o := 8 * b;
    forall k | 0 <= k < 8 ensures TestBit(bm[b], k) == (o + k < |p| && p[o + k]) {
      BitAtByte(bm, b, k);
    }
    PackByteUnique(bm[b], p, o);
  }

  lemma BitAtByte(bm: seq<bv8>, b: nat, k: nat)
    requires b < |bm| && k < 8
    ensures BitAt(bm, 8 * b + k) == TestBit(bm[b], k)
  {
    assert (8 * b + k) / 8 == b && (8 * b + k) % 8 == k;
  }

  /** Reading a packed bitmap back gives the row decisions that were packed. */
  lemma BitsOfPack(p: seq<bool>)
    ensures Bits(Pack(p), |p|) == p
  {
    forall i | 0 <= i < |p| ensures Bits(Pack(p), |p|)[i] == p[i] {
      BitsAt(Pack(p), |p|, i);
      PackBit(p, i);
    }
  }

  lemma {:induction false} OnesConcat(p: seq<bool>, q: seq<bool>)
    ensures Ones(p + q) == Ones(p) + Ones(q)
    decreases |q|
  {
    if q == [] {
      assert p + q == p;
    } else {
      OnesConcat(p, q[..|q| - 1]);
      assert (p + q)[..|p + q| - 1] == p + q[..|q| - 1];
    }
  }

  lemma OnesPush(p: seq<bool>, from: nat, i: nat)
    requires from <= i < |p|
    ensures Ones(p[from..i + 1]) == Ones(p[from..i]) + if p[i] then 1 else 0
  {
    assert p[from..i + 1][..i - from] == p[from..i];
  }

  /** The number of rows set among the first n. */
  function OnesTo(bm: seq<bv8>, n: nat): nat
    requires n <= 8 * |bm|
  {
    if n == 0 then 0 else OnesTo(bm, n - 1) + if BitAt(bm, n - 1) then 1 else 0
  }

  lemma {:induction false} OnesToIsOnes(bm: seq<bv8>, n: nat)
    requires n <= 8 * |bm|
    ensures OnesTo(bm, n) == Ones(Bits(bm, n))
  {
    if n > 0 {
      OnesToIsOnes(bm, n - 1);
      assert Bits(bm, n)[..n - 1] == Bits(bm, n - 1);
    }
  }

  /** Rows that start on a byte boundary count what the low bits of their byte count. */
  lemma {:induction false} OnesInByte(bm: seq<bv8>, b: nat, n: nat, k: nat)
    requires b < |bm| && n == 8 * b && k <= 8
    ensures OnesTo(bm, n + k) == OnesTo(bm, n) + CountBits(bm[b], k)
  {
    if k > 0 {
      OnesInByte(bm, b, n, k - 1);
      BitAtByte(bm, b, k - 1);
    }
  }

  /** Masking off the high bits leaves a byte whose whole popcount is that of the low bits. */
  lemma {:induction false} PopCountOfLowBits(v: bv8, k: nat, j: nat)
    requires 0 < k < 8 && j <= 8
    ensures CountBits(LowBits(v, k), j) == CountBits(v, if j < k then j else k)
  {
    if j > 0 {
      PopCountOfLowBits(v, k, j - 1);
      LowBitsBit(v, k, j - 1);
    }
  }

  // ----- bitmaps under construction

  /** bm records the first i rows of p and is zero everywhere else. */
  ghost predicate Marks(bm: seq<bv8>, p: seq<bool>, i: nat) {
    && |bm| == ByteCount(|p|)
    && i <= |p|
    && forall k :: 0 <= k < 8 * |bm| ==> BitAt(bm, k) == (k < i && p[k])
  }

  lemma MarksNothing(bm: seq<bv8>, p: seq<bool>)
    requires |bm| == ByteCount(|p|)
    requires forall b :: 0 <= b < |bm| ==> bm[b] == 0
    ensures Marks(bm, p, 0)
  {
    forall k | 0 <= k < 8 * |bm| ensures !BitAt(bm, k) {
      ZeroByte(k % 8);
    }
  }

  /** One step of a row loop: rows that pass set their bit, the others leave the byte alone. */
  lemma MarksNext(bm: seq<bv8>, p: seq<bool>, i: nat)
    requires i < |p| && Marks(bm, p, i)
    ensures Marks(if p[i] then bm[i / 8 := bm[i / 8] | Single(i % 8)] else bm, p, i + 1)
  {
    var next := if p[i] then bm[i / 8 := bm[i / 8] | Single(i % 8)] else bm;
    forall k | 0 <= k < 8 * |next| ensures BitAt(next, k) == (k < i + 1 && p[k]) {
      assert BitAt(bm, k) == (k < i && p[k]);
      if p[i] && k / 8 == i / 8 {
        SetBit(bm[i / 8], i % 8, k % 8);
        assert k == i <==> k % 8 == i % 8;
      }
    }
  }

  /** Whole bytes stored one after the other amount to row-by-row marking. */
  lemma MarksBytes(bm: seq<bv8>, p: seq<bool>, i: nat)
    requires |bm| == ByteCount(|p|) && i <= |p| && i % 8 == 0
    requires forall b :: 0 <= b < i / 8 ==> bm[b] == PackByte(p, 8 * b)
    requires forall b :: i / 8 <= b < |bm| ==> bm[b] == 0
    ensures Marks(bm, p, i)
  {
    forall k | 0 <= k < 8 * |bm| ensures BitAt(bm, k) == (k < i && p[k]) {
      if k < i {
        PackByteBit(p, 8 * (k / 8), k % 8);
      } else {
        ZeroByte(k % 8);
      }
    }
  }

  lemma MarksEverything(bm: seq<bv8>, p: seq<bool>)
    requires Marks(bm, p, |p|)
    ensures bm == Pack(p)
  {
    PackUnique(bm, p);
  }

  // ----- counting

  function ByteOnes(bm: seq<bv8>, b: nat): nat
    requires b <= |bm|
  {
    if b == 0 then 0 else ByteOnes(bm, b - 1) + PopCount(bm[b - 1])
  }

  lemma {:induction false} ByteOnesAreOnes(bm: seq<bv8>, b: nat, n: nat)
    requires b <= |bm| && n == 8 * b
    ensures ByteOnes(bm, b) == OnesTo(bm, n)
  {
    if b > 0 {
      ByteOnesAreOnes(bm, b - 1, n - 8);
      OnesInByte(bm, b - 1, n - 8, 8);
    }
  }

  /** The number of rows set in the first n bits: full bytes first, then the masked last byte. */
  method PopCountBitmap(bm: seq<bv8>, n: nat) returns (count: nat)
    requires ByteCount(n) <= |bm|
    ensures count == Ones(Bits(bm, n))
  {
    var fullBytes, leftover := n / 8, n % 8;
    count := 0;
    for i := 0 to fullBytes
      invariant count == ByteOnes(bm, i)
    {
      count := count + PopCount(bm[i]);
    }
    ByteOnesAreOnes(bm, fullBytes, n - leftover);
    if leftover != 0 {
      OnesInByte(bm, fullBytes, n - leftover, leftover);
      PopCountOfLowBits(bm[fullBytes], leftover, 8);
      count := count + PopCount(LowBits(bm[fullBytes], leftover));
    }
    OnesToIsOnes(bm, n);
  }
}
