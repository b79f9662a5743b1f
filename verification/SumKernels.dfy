/**
 Sum, minimum, maximum and count of the rows a selection bitmap keeps; without a bitmap every
 row counts.  The vector sum keeps four 64-bit partial sums and a bit mask per lane.
 */
module SumKernels {
  import opened Machine
  import opened Bitmap
  import opened Rows
  import opened Simd

  /** The rows a nullable selection bitmap keeps. */
  function Keep(bitmap: Option<seq<bv8>>, n: nat): (k: seq<bool>)
    requires Covers(bitmap, n)
    ensures |k| == n
  {
    match bitmap
    case None => All(n)
    case Some(bm) => Bits(bm, n)
  }

  predicate Covers(bitmap: Option<seq<bv8>>, n: nat) {
    bitmap.Some? ==> ByteCount(n) <= |bitmap.value|
  }

  /** The per-row test of the scalar loops. */
  predicate KeepRow(bitmap: Option<seq<bv8>>, n: nat, i: nat)
    requires Covers(bitmap, n) && i < n
    ensures KeepRow(bitmap, n, i) == Keep(bitmap, n)[i]
  {
    if bitmap == None then true
    else
      BitsAt(bitmap.value, n, i);
      TestBit(bitmap.value[i / 8], i % 8)
  }

  // ----- specification of the sum

  /** The sum of the kept rows among the first i. */
  function MaskedTotal(data: seq<int32>, keep: seq<bool>, i: nat): (t: int)
    requires i <= |data| == |keep|
    ensures -0x8000_0000 * i <= t <= 0x7FFF_FFFF * i
  {
    if i == 0 then 0
    else MaskedTotal(data, keep, i - 1) + if keep[i - 1] then data[i - 1] else 0
  }

  /** The kept rows among the first i. */
  function KeptTo(data: seq<int32>, keep: seq<bool>, i: nat): seq<int32>
    requires i <= |data| == |keep|
  {
    Kept(data[..i], keep[..i])
  }

  lemma KeptToEnd(data: seq<int32>, keep: seq<bool>)
    requires |data| == |keep|
    ensures KeptTo(data, keep, |data|) == Kept(data, keep)
  {
    assert data[..|data|] == data && keep[..|data|] == keep;
  }

  lemma KeptToNext(data: seq<int32>, keep: seq<bool>, i: nat)
    requires i < |data| == |keep|
    ensures KeptTo(data, keep, i + 1) == KeptTo(data, keep, i) + if keep[i] then [data[i]] else []
  {
    var d, k := data[..i + 1], keep[..i + 1];
    assert d[..i] == data[..i] && k[..i] == keep[..i];
    assert Kept(d, k) == Kept(d[..i], k[..i]) + if k[i] then [d[i]] else [];
  }

  /** What one more row does to the kept rows, their sum and their extremes. */
  lemma NextRow(data: seq<int32>, keep: seq<bool>, i: nat)
    requires i < |data| == |keep|
    ensures !keep[i] ==> KeptTo(data, keep, i + 1) == KeptTo(data, keep, i)
    ensures keep[i] ==> KeptTo(data, keep, i + 1) != []
    ensures keep[i] ==> Total(KeptTo(data, keep, i + 1)) == Total(KeptTo(data, keep, i)) + data[i]
    ensures keep[i] ==>
      (Least(KeptTo(data, keep, i + 1)) ==
       if KeptTo(data, keep, i) == [] || data[i] < Least(KeptTo(data, keep, i)) then data[i]
       else Least(KeptTo(data, keep, i)))
    ensures keep[i] ==>
      (Greatest(KeptTo(data, keep, i + 1)) ==
       if KeptTo(data, keep, i) == [] || data[i] > Greatest(KeptTo(data, keep, i)) then data[i]
       else Greatest(KeptTo(data, keep, i)))
  {
    KeptToNext(data, keep, i);
    RowsPush(KeptTo(data, keep, i), data[i]);
  }

  lemma {:induction false} TotalOfKept(data: seq<int32>, keep: seq<bool>, i: nat)
    requires i <= |data| == |keep|
    ensures Total(KeptTo(data, keep, i)) == MaskedTotal(data, keep, i)
  {
    if i > 0 {
      TotalOfKept(data, keep, i - 1);
      NextRow(data, keep, i - 1);
    }
  }

  lemma AllKept(data: seq<int32>, keep: seq<bool>)
    requires |data| == |keep|
    ensures Total(Kept(data, keep)) == MaskedTotal(data, keep, |data|)
  {
    TotalOfKept(data, keep, |data|);
    KeptToEnd(data, keep);
  }

  // ----- scalar sum

  /** The row loop from row `from` on: the whole scalar kernel, and the tail of the vector kernel. */
  method SumTail(data: seq<int32>, bitmap: Option<seq<bv8>>, from: nat, start: int64) returns (acc: int64)
    requires from <= |data| <= MAX_ROWS && Covers(bitmap, |data|)
    requires start == MaskedTotal(data, Keep(bitmap, |data|), from)
    ensures acc == MaskedTotal(data, Keep(bitmap, |data|), |data|)
  {
    acc := start;
    for i := from to |data|
      invariant acc == MaskedTotal(data, Keep(bitmap, |data|), i)
    {
      var keep := KeepRow(bitmap, |data|, i);
      if keep {
        acc := acc + data[i];
      }
    }
  }

  method SumScalar(data: seq<int32>, bitmap: Option<seq<bv8>>) returns (acc: int64)
    requires |data| <= MAX_ROWS && Covers(bitmap, |data|)
    ensures acc == Total(Kept(data, Keep(bitmap, |data|)))
  {
    acc := SumTail(data, bitmap, 0, 0);
    AllKept(data, Keep(bitmap, |data|));
  }

  // ----- vector sum

  const LANE_BITS: Lanes32 := [1, 2, 4, 8, 16, 32, 64, 128]

  function AddExtended(acc64: Lanes64, v: Lanes32): Lanes64 {
    Add64(acc64, Add64(Extend64(v, 0), Extend64(v, 1)))
  }

  /** Lane k keeps its value when bit k of the splatted selection byte is set. */
  function KeepMask(splat: int32): Lanes32 {
    CmpEq32(And32(Set32(splat), LANE_BITS), LANE_BITS)
  }

  /** Zeroes the lanes of v whose bit in the selection byte is clear. */
  function MaskLanes(v: Lanes32, byte: bv8): Lanes32 {
    And32(v, KeepMask(byte as int))
  }

  lemma LaneBit(k: nat)
    requires k < 8
    ensures LANE_BITS[k] == Pow2(k) && Pow2(k) <= 128
  {
    assert Pow2(1) == 2 && Pow2(2) == 4 && Pow2(3) == 8 && Pow2(4) == 16;
    assert Pow2(5) == 32 && Pow2(6) == 64 && Pow2(7) == 128;
    assert k == 0 || k == 1 || k == 2 || k == 3 || k == 4 || k == 5 || k == 6 || k == 7;
  }

  /** The keep mask of lane k is all ones exactly when bit k of the selection byte is set. */
  lemma KeepMaskLane(byte: bv8, k: nat)
    requires k < 8
    ensures KeepMask(byte as int)[k] == if TestBit(byte, k) then -1 else 0
  {
    Int32Width();
    LaneBit(k);
    AndSingle(byte, k, 31);
    CompareLane(byte as int, k, TestBit(byte, k));
  }

  lemma CompareLane(x: int32, k: nat, bit: bool)
    requires k < 8 && -Pow2(31) <= x < Pow2(31) && Pow2(k) <= 128 < Pow2(31)
    requires And(x, Pow2(k), 31) == if bit then Pow2(k) else 0
    ensures KeepMask(x)[k] == if bit then -1 else 0
  {
    LaneBit(k);
    assert Set32(x)[k] == x;
  }

  lemma MaskLane(v: Lanes32, byte: bv8, k: nat)
    requires k < 8
    ensures MaskLanes(v, byte)[k] == if TestBit(byte, k) then v[k] else 0
  {
    Int32Width();
    KeepMaskLane(byte, k);
    AndMask(v[k], 31);
  }

  function LaneSum(l: Lanes64): int { l[0] as int + l[1] as int + l[2] as int + l[3] as int }

  /** No lane has left int64 after i rows: each one absorbed i / 4 of them. */
  predicate LanesInRange(l: Lanes64, i: nat) {
    forall k :: 0 <= k < 4 ==> -0x8000_0000 * (i / 4) <= l[k] <= 0x7FFF_FFFF * (i / 4)
  }

  /** One vector step adds the eight lanes exactly: nothing wraps within MAX_ROWS rows. */
  lemma AddExtendedIsExact(acc64: Lanes64, v: Lanes32, i: nat)
    requires i + 8 <= MAX_ROWS && i % 8 == 0 && LanesInRange(acc64, i)
    ensures LanesInRange(AddExtended(acc64, v), i + 8)
    ensures LaneSum(AddExtended(acc64, v)) ==
            LaneSum(acc64) + v[0] + v[1] + v[2] + v[3] + v[4] + v[5] + v[6] + v[7]
  {
    AddLane(acc64, v, 0, i); AddLane(acc64, v, 1, i); AddLane(acc64, v, 2, i); AddLane(acc64, v, 3, i);
  }

  lemma AddLane(acc64: Lanes64, v: Lanes32, k: nat, i: nat)
    requires i + 8 <= MAX_ROWS && i % 8 == 0 && k < 4
    requires -0x8000_0000 * (i / 4) <= acc64[k] <= 0x7FFF_FFFF * (i / 4)
    ensures AddExtended(acc64, v)[k] == acc64[k] + v[k] + v[k + 4]
    ensures -0x8000_0000 * ((i + 8) / 4) <= AddExtended(acc64, v)[k] <= 0x7FFF_FFFF * ((i + 8) / 4)
  {
    assert Extend64(v, 0)[k] == v[k] && Extend64(v, 1)[k] == v[k + 4];
  }

  lemma MaskedTotalChunk(data: seq<int32>, keep: seq<bool>, i: nat, m: Lanes32)
    requires i + 8 <= |data| == |keep|
    requires forall k :: 0 <= k < 8 ==> m[k] == if keep[i + k] then data[i + k] else 0
    ensures MaskedTotal(data, keep, i + 8) ==
            MaskedTotal(data, keep, i) + m[0] + m[1] + m[2] + m[3] + m[4] + m[5] + m[6] + m[7]
  {
    assert MaskedTotal(data, keep, i + 2) == MaskedTotal(data, keep, i) + m[0] + m[1];
    assert MaskedTotal(data, keep, i + 4) == MaskedTotal(data, keep, i + 2) + m[2] + m[3];
    assert MaskedTotal(data, keep, i + 6) == MaskedTotal(data, keep, i + 4) + m[4] + m[5];
    assert MaskedTotal(data, keep, i + 8) == MaskedTotal(data, keep, i + 6) + m[6] + m[7];
  }

  method Accumulate(acc64: Lanes64, v: Lanes32, ghost i: nat) returns (r: Lanes64)
    requires i + 8 <= MAX_ROWS && i % 8 == 0 && LanesInRange(acc64, i)
    ensures LanesInRange(r, i + 8)
    ensures LaneSum(r) == LaneSum(acc64) + v[0] + v[1] + v[2] + v[3] + v[4] + v[5] + v[6] + v[7]
  {
    AddExtendedIsExact(acc64, v, i);
    r := AddExtended(acc64, v);
  }

  lemma AllChunk(data: seq<int32>, i: nat, v: Lanes32)
    requires i + 8 <= |data| && v == Load32(data, i)
    ensures MaskedTotal(data, All(|data|), i + 8) ==
            MaskedTotal(data, All(|data|), i) + v[0] + v[1] + v[2] + v[3] + v[4] + v[5] + v[6] + v[7]
  {
    MaskedTotalChunk(data, All(|data|), i, v);
  }

  /** Adds up the four lanes; every partial sum is an int64. */
  method HSum(l: Lanes64, ghost i: nat) returns (s: int64)
    requires i <= MAX_ROWS && i % 8 == 0 && LanesInRange(l, i)
    ensures s == LaneSum(l)
  {
    s := l[0] + l[1];
    s := s + l[2];
    s := s + l[3];
  }

  method SumAvx2(data: seq<int32>, bitmap: Option<seq<bv8>>) returns (acc: int64)
    requires |data| <= MAX_ROWS && Covers(bitmap, |data|)
    ensures acc == Total(Kept(data, Keep(bitmap, |data|)))
  {
    if bitmap == None {
      acc := SumAllAvx2(data);
    } else {
      acc := SumMaskedAvx2(data, bitmap.value);
    }
    AllKept(data, Keep(bitmap, |data|));
  }

  method SumAllAvx2(data: seq<int32>) returns (acc: int64)
    requires |data| <= MAX_ROWS
    ensures acc == MaskedTotal(data, All(|data|), |data|)
  {
    var n := |data|;
    ghost var rows := All(n);
    var i := 0;
    var acc64: Lanes64 := [0, 0, 0, 0];
    while i + 8 <= n
      invariant i <= n && i % 8 == 0 && LanesInRange(acc64, i)
      invariant LaneSum(acc64) == MaskedTotal(data, rows, i)
    {
      var v := Load32(data, i);
      AllChunk(data, i, v);
      acc64 := Accumulate(acc64, v, i);
      i := i + 8;
    }
    acc := HSum(acc64, i);
    acc := SumTail(data, None, i, acc);
  }

  method SumMaskedAvx2(data: seq<int32>, bm: seq<bv8>) returns (acc: int64)
    requires |data| <= MAX_ROWS && ByteCount(|data|) <= |bm|
    ensures acc == MaskedTotal(data, Bits(bm, |data|), |data|)
  {
    var i;
    acc, i := SumMaskedLanes(data, bm, Bits(bm, |data|));
    acc := SumTail(data, Some(bm), i, acc);
  }

  method SumMaskedLanes(data: seq<int32>, bm: seq<bv8>, ghost rows: seq<bool>) returns (acc: int64, i: nat)
    requires |data| <= MAX_ROWS && ByteCount(|data|) <= |bm| && rows == Bits(bm, |data|)
    ensures i <= |data| < i + 8
    ensures acc == MaskedTotal(data, rows, i)
  {
    i := 0;
    var acc64: Lanes64 := [0, 0, 0, 0];
    while i + 8 <= |data|
      invariant i <= |data| && i % 8 == 0 && LanesInRange(acc64, i)
      invariant LaneSum(acc64) == MaskedTotal(data, rows, i)
    {
      var masked := MaskedLanes(data, bm, i, rows);
      acc64 := Accumulate(acc64, masked, i);
      i := i + 8;
    }
    acc := HSum(acc64, i);
  }

  /** The eight rows from row i on, with those that are not selected zeroed. */
  method MaskedLanes(data: seq<int32>, bm: seq<bv8>, i: nat, ghost rows: seq<bool>) returns (masked: Lanes32)
    requires i + 8 <= |data| && i % 8 == 0 && ByteCount(|data|) <= |bm| && rows == Bits(bm, |data|)
    ensures MaskedTotal(data, rows, i + 8) ==
            MaskedTotal(data, rows, i) + masked[0] + masked[1] + masked[2] + masked[3]
            + masked[4] + masked[5] + masked[6] + masked[7]
  {
    var v := Load32(data, i);
    masked := ApplyMask(v, bm[i / 8]);
    MaskedChunk(data, bm, i, v, masked);
    MaskedTotalChunk(data, Bits(bm, |data|), i, masked);
  }

  method ApplyMask(v: Lanes32, byte: bv8) returns (masked: Lanes32)
    ensures forall k :: 0 <= k < 8 ==> masked[k] == if TestBit(byte, k) then v[k] else 0
  {
    masked := MaskLanes(v, byte);
    forall k | 0 <= k < 8 ensures MaskLanes(v, byte)[k] == if TestBit(byte, k) then v[k] else 0 {
      MaskLane(v, byte, k);
    }
  }

  lemma MaskedChunk(data: seq<int32>, bm: seq<bv8>, i: nat, v: Lanes32, masked: Lanes32)
    requires i + 8 <= |data| && i % 8 == 0 && ByteCount(|data|) <= |bm|
    requires v == Load32(data, i)
    requires forall k :: 0 <= k < 8 ==> masked[k] == if TestBit(bm[i / 8], k) then v[k] else 0
    ensures forall k :: 0 <= k < 8 ==> masked[k] == if Bits(bm, |data|)[i + k] then data[i + k] else 0
  {
    forall k | 0 <= k < 8 ensures masked[k] == if Bits(bm, |data|)[i + k] then v[k] else 0 {
      BitsInByte(bm, |data|, i, k);
    }
  }

  lemma BitsInByte(bm: seq<bv8>, n: nat, i: nat, k: nat)
    requires i + 8 <= n <= 8 * |bm| && i % 8 == 0 && k < 8
    ensures Bits(bm, n)[i + k] == TestBit(bm[i / 8], k)
  {
    BitsAt(bm, n, i + k);
    assert (i + k) / 8 == i / 8 && (i + k) % 8 == k;
  }

  // ----- minimum, maximum, count

  method MinScalar(data: seq<int32>, bitmap: Option<seq<bv8>>) returns (best: int32, empty: bool)
    requires Covers(bitmap, |data|)
    ensures empty == (Kept(data, Keep(bitmap, |data|)) == [])
    ensures best == if empty then 0 else Least(Kept(data, Keep(bitmap, |data|)))
  {
    ghost var rows := Keep(bitmap, |data|);
    var any := false;
    best := 0;
    for i := 0 to |data|
      invariant any == (KeptTo(data, rows, i) != [])
      invariant best == if any then Least(KeptTo(data, rows, i)) else 0
    {
      var keep := KeepRow(bitmap, |data|, i);
      NextRow(data, rows, i);
      if !keep {
        continue;
      }
      if !any || data[i] < best {
        best := data[i];
        any := true;
      }
    }
    KeptToEnd(data, rows);
    empty := !any;
  }

  method MaxScalar(data: seq<int32>, bitmap: Option<seq<bv8>>) returns (best: int32, empty: bool)
    requires Covers(bitmap, |data|)
    ensures empty == (Kept(data, Keep(bitmap, |data|)) == [])
    ensures best == if empty then 0 else Greatest(Kept(data, Keep(bitmap, |data|)))
  {
    ghost var rows := Keep(bitmap, |data|);
    var any := false;
    best := 0;
    for i := 0 to |data|
      invariant any == (KeptTo(data, rows, i) != [])
      invariant best == if any then Greatest(KeptTo(data, rows, i)) else 0
    {
      var keep := KeepRow(bitmap, |data|, i);
      NextRow(data, rows, i);
      if !keep {
        continue;
      }
      if !any || data[i] > best {
        best := data[i];
        any := true;
      }
    }
    KeptToEnd(data, rows);
    empty := !any;
  }

  method CountScalar(n: nat, bitmap: Option<seq<bv8>>) returns (c: nat)
    requires Covers(bitmap, n)
    ensures c == Ones(Keep(bitmap, n))
  {
    if bitmap == None {
      c := n;
      AllOnes(n);
    } else {
      c := PopCountBitmap(bitmap.value, n);
    }
  }

  lemma {:induction false} AllOnes(n: nat)
    ensures Ones(All(n)) == n
  {
    if n > 0 {
      AllOnes(n - 1);
      assert All(n)[..n - 1] == All(n - 1);
    }
  }
}
