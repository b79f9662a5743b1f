/**
 The two int32 filter kernels.  Both clear the bitmap, record one decision per row and return
 the number of rows that pass; the vector kernel does so in 64-row, 8-row and single-row regions.
 */
module FilterKernels {
  import opened Machine
  import opened Bitmap
  import opened Rows
  import opened Simd
  import opened Words

  /** The compare and move-mask of one 8-row chunk. */
  function CompareChunk(op: FilterOp, data: seq<int32>, i: nat, threshold: int32): bv8
    requires i + 8 <= |data|
  {
    var v := Load32(data, i);
    var thr := Set32(threshold);
    MoveMaskPs(if op == LessThan then CmpGt32(thr, v) else CmpGt32(v, thr))
  }

  /** The mask of a chunk is the bitmap byte of its eight rows. */
  lemma CompareChunkPacks(op: FilterOp, data: seq<int32>, i: nat, threshold: int32)
    requires i + 8 <= |data|
    ensures CompareChunk(op, data, i, threshold) == PackByte(Decisions(op, threshold, data), i)
  {
    var p := Decisions(op, threshold, data);
    var v := Load32(data, i);
    var thr := Set32(threshold);
    var cmp := if op == LessThan then CmpGt32(thr, v) else CmpGt32(v, thr);
    var signs := seq(8, k requires 0 <= k < 8 => cmp[k] < 0);
    assert forall k :: 0 <= k < 8 ==> v[k] == data[i + k];
    assert signs[0..8] == p[i..i + 8];
    SameByte(signs, 0, p, i);
  }

  lemma SameByte(p: seq<bool>, o: nat, q: seq<bool>, u: nat)
    requires o + 8 <= |p| && u + 8 <= |q|
    requires p[o..o + 8] == q[u..u + 8]
    ensures PackByte(p, o) == PackByte(q, u)
  {
    forall k | 0 <= k < 8 ensures TestBit(PackByte(p, o), k) == q[u + k] {
      PackByteBit(p, o, k);
      assert p[o..o + 8][k] == q[u..u + 8][k];
    }
    PackByteUnique(PackByte(p, o), q, u);
  }

  method ClearBitmap(outBitmap: array<bv8>, bytes: nat)
    requires bytes <= outBitmap.Length
    modifies outBitmap
    ensures forall b :: 0 <= b < bytes ==> outBitmap[b] == 0
    ensures outBitmap[bytes..] == old(outBitmap[bytes..])
  {
    forall b | 0 <= b < bytes {
      outBitmap[b] := 0;
    }
  }

  /** Sets the bit of row i when the row passes. */
  method RecordRow(outBitmap: array<bv8>, i: nat, pass: bool, ghost p: seq<bool>)
    requires i < |p| && pass == p[i] && ByteCount(|p|) <= outBitmap.Length
    requires Marks(outBitmap[..ByteCount(|p|)], p, i)
    modifies outBitmap
    ensures Marks(outBitmap[..ByteCount(|p|)], p, i + 1)
    ensures outBitmap[ByteCount(|p|)..] == old(outBitmap[ByteCount(|p|)..])
  {
    ghost var before := outBitmap[..ByteCount(|p|)];
    MarksNext(before, p, i);
    if pass {
      ghost var byte := before[i / 8] | Single(i % 8);
      outBitmap[i / 8] := outBitmap[i / 8] | Single(i % 8);
      assert outBitmap[..ByteCount(|p|)] == before[i / 8 := byte];
    }
  }

  /** The row-at-a-time loop from row `from` on: all of the scalar kernel, the tail of the vector kernel. */
  method RowRegion(op: FilterOp, data: seq<int32>, from: nat, threshold: int32, outBitmap: array<bv8>, ghost p: seq<bool>)
    returns (setCount: nat)
    requires from <= |data| == |p| && ByteCount(|p|) <= outBitmap.Length
    requires forall i :: 0 <= i < |data| ==> p[i] == Passes(op, threshold, data[i])
    requires Marks(outBitmap[..ByteCount(|p|)], p, from)
    modifies outBitmap
    ensures Marks(outBitmap[..ByteCount(|p|)], p, |p|)
    ensures outBitmap[ByteCount(|p|)..] == old(outBitmap[ByteCount(|p|)..])
    ensures setCount == Ones(p[from..])
  {
    setCount := 0;
    for i := from to |data|
      invariant Marks(outBitmap[..ByteCount(|p|)], p, i)
      invariant outBitmap[ByteCount(|p|)..] == old(outBitmap[ByteCount(|p|)..])
      invariant setCount == Ones(p[from..i])
    {
      var pass := if op == LessThan then data[i] < threshold else data[i] > threshold;
      RecordRow(outBitmap, i, pass, p);
      OnesPush(p, from, i);
      if pass {
        setCount := setCount + 1;
      }
    }
    assert p[from..|data|] == p[from..];
  }

  method FilterScalar(op: FilterOp, data: seq<int32>, threshold: int32, outBitmap: array<bv8>)
    returns (setCount: nat)
    requires ByteCount(|data|) <= outBitmap.Length
    modifies outBitmap
    ensures outBitmap[..ByteCount(|data|)] == Pack(Decisions(op, threshold, data))
    ensures outBitmap[ByteCount(|data|)..] == old(outBitmap[ByteCount(|data|)..])
    ensures setCount == Ones(Decisions(op, threshold, data))
  {
    var bytes := ByteCount(|data|);
    ghost var p := Decisions(op, threshold, data);
    ClearBitmap(outBitmap, bytes);
    MarksNothing(outBitmap[..bytes], p);
    setCount := RowRegion(op, data, 0, threshold, outBitmap, p);
    MarksEverything(outBitmap[..bytes], p);
    assert p[0..] == p;
  }

  /** The first j bytes of the word are packed rows, the others are still clear. */
  ghost predicate WordHolds(bits: Word64, p: seq<bool>, i: nat, j: nat) {
    forall b :: 0 <= b < 8 ==> ByteOf(bits, b) == if b < j then PackByte(p, i + 8 * b) else 0
  }

  lemma ZeroWord(p: seq<bool>, i: nat)
    ensures WordHolds(ZERO_WORD, p, i, 0)
  {
    forall b | 0 <= b < 8 ensures ByteOf(ZERO_WORD, b) == 0 {
      ByteWord(0, b);
    }
  }

  lemma OrNext(bits: Word64, p: seq<bool>, i: nat, j: nat)
    requires j < 8 && WordHolds(bits, p, i, j)
    ensures WordHolds(bits.Or(ShiftLeft(FromByte(PackByte(p, i + 8 * j)), j)), p, i, j + 1)
  {
    hide Word64.Or, ByteOf, ShiftLeft, FromByte, PackByte;
    var mask := PackByte(p, i + 8 * j);
    forall b | 0 <= b < 8
      ensures ByteOf(bits.Or(ShiftLeft(FromByte(mask), j)), b) == if b < j + 1 then PackByte(p, i + 8 * b) else 0
    {
      OrShifted(bits, mask, j, b);
    }
  }

  /** The eight chunk masks of a 64-row block, shifted and or-ed into one word. */
  method CompareBlock(op: FilterOp, data: seq<int32>, i: nat, threshold: int32) returns (bits: Word64)
    requires i + 64 <= |data|
    ensures WordHolds(bits, Decisions(op, threshold, data), i, 8)
  {
    bits := ZERO_WORD;
    ZeroWord(Decisions(op, threshold, data), i);
    for j := 0 to 8
      invariant WordHolds(bits, Decisions(op, threshold, data), i, j)
    {
      hide *;
      var mask8 := CompareChunk(op, data, i + 8 * j, threshold);
      CompareChunkPacks(op, data, i + 8 * j, threshold);
      OrNext(bits, Decisions(op, threshold, data), i, j);
      bits := bits.Or(ShiftLeft(FromByte(mask8), j));
    }
  }

  /** Bytes before byte b are packed, the bytes from b on are still clear. */
  ghost predicate PackedTo(bm: seq<bv8>, p: seq<bool>, b: nat) {
    forall c :: 0 <= c < |bm| ==> bm[c] == if c < b then PackByte(p, 8 * c) else 0
  }

  /** The eight-byte store of a block's word. */
  method StoreWord(outBitmap: array<bv8>, b: nat, bits: Word64, ghost p: seq<bool>)
    requires b + 8 <= ByteCount(|p|) <= outBitmap.Length
    requires PackedTo(outBitmap[..ByteCount(|p|)], p, b) && WordHolds(bits, p, 8 * b, 8)
    modifies outBitmap
    ensures PackedTo(outBitmap[..ByteCount(|p|)], p, b + 8)
    ensures outBitmap[ByteCount(|p|)..] == old(outBitmap[ByteCount(|p|)..])
  {
    hide PackedTo, WordHolds, ByteOf;
    ghost var before := outBitmap[..ByteCount(|p|)];
    forall j | 0 <= j < 8 {
      outBitmap[b + j] := ByteOf(bits, j);
    }
    PackedBlock(before, outBitmap[..ByteCount(|p|)], p, b, bits);
  }

  lemma PackedBlock(before: seq<bv8>, after: seq<bv8>, p: seq<bool>, b: nat, bits: Word64)
    requires |after| == |before| && b + 8 <= |before| && PackedTo(before, p, b)
    requires WordHolds(bits, p, 8 * b, 8)
    requires forall c :: 0 <= c < |after| ==>
      after[c] == if b <= c < b + 8 then ByteOf(bits, c - b) else before[c]
    ensures PackedTo(after, p, b + 8)
  {
  }

  method BlockRegion(op: FilterOp, data: seq<int32>, threshold: int32, outBitmap: array<bv8>)
    returns (i: nat)
    requires ByteCount(|data|) <= outBitmap.Length
    requires PackedTo(outBitmap[..ByteCount(|data|)], Decisions(op, threshold, data), 0)
    modifies outBitmap
    ensures i <= |data| < i + 64 && i % 64 == 0
    ensures PackedTo(outBitmap[..ByteCount(|data|)], Decisions(op, threshold, data), i / 8)
    ensures outBitmap[ByteCount(|data|)..] == old(outBitmap[ByteCount(|data|)..])
  {
    var n, bytes := |data|, ByteCount(|data|);
    ghost var p := Decisions(op, threshold, data);
    i := 0;
    while i + 64 <= n
      invariant i <= n && i % 64 == 0
      invariant PackedTo(outBitmap[..bytes], p, i / 8)
      invariant outBitmap[bytes..] == old(outBitmap[bytes..])
    {
      hide *;
      var bits := CompareBlock(op, data, i, threshold);
      StoreWord(outBitmap, i / 8, bits, p);
      i := i + 64;
    }
  }

  method ByteRegion(op: FilterOp, data: seq<int32>, from: nat, threshold: int32, outBitmap: array<bv8>)
    returns (i: nat)
    requires from <= |data| && from % 8 == 0 && ByteCount(|data|) <= outBitmap.Length
    requires PackedTo(outBitmap[..ByteCount(|data|)], Decisions(op, threshold, data), from / 8)
    modifies outBitmap
    ensures i <= |data| < i + 8 && i % 8 == 0
    ensures PackedTo(outBitmap[..ByteCount(|data|)], Decisions(op, threshold, data), i / 8)
    ensures outBitmap[ByteCount(|data|)..] == old(outBitmap[ByteCount(|data|)..])
  {
    var n, bytes := |data|, ByteCount(|data|);
    ghost var p := Decisions(op, threshold, data);
    i := from;
    while i + 8 <= n
      invariant i <= n && i % 8 == 0
      invariant PackedTo(outBitmap[..bytes], p, i / 8)
      invariant outBitmap[bytes..] == old(outBitmap[bytes..])
    {
      var mask8 := CompareChunk(op, data, i, threshold);
      CompareChunkPacks(op, data, i, threshold);
      outBitmap[i / 8] := mask8;
      i := i + 8;
    }
  }

  method FilterAvx2(op: FilterOp, data: seq<int32>, threshold: int32, outBitmap: array<bv8>)
    returns (setCount: nat)
    requires ByteCount(|data|) <= outBitmap.Length
    modifies outBitmap
    ensures outBitmap[..ByteCount(|data|)] == Pack(Decisions(op, threshold, data))
    ensures outBitmap[ByteCount(|data|)..] == old(outBitmap[ByteCount(|data|)..])
    ensures setCount == Ones(Decisions(op, threshold, data))
  {
    var bytes := ByteCount(|data|);
    ghost var p := Decisions(op, threshold, data);
    ClearBitmap(outBitmap, bytes);
    var i := BlockRegion(op, data, threshold, outBitmap);
    i := ByteRegion(op, data, i, threshold, outBitmap);
    MarksBytes(outBitmap[..bytes], p, i);
    var _ := RowRegion(op, data, i, threshold, outBitmap, p);
    MarksEverything(outBitmap[..bytes], p);
    BitsOfPack(p);
    setCount := PopCountBitmap(outBitmap[..bytes], |data|);
  }
}
