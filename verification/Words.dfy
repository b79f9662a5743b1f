/** 64-bit registers: or, shifts by whole bytes, and the order in which a little-endian store writes their bytes. */
module Words {
  datatype Word64 = Word64(bits: bv64)
  {
    function Or(other: Word64): Word64 { Word64(bits | other.bits) }

    function And(other: Word64): Word64 { Word64(bits & other.bits) }

    function Up8(): Word64 { Word64(bits << 8) }

    function Down8(): Word64 { Word64(bits >> 8) }

    function LowByte(): bv8 { (bits & 0xFF) as bv8 }
  }

  function FromByte(low: bv8): Word64 { Word64(low as bv64) }

  /** w << (8 * j). */
  function ShiftLeft(w: Word64, j: nat): Word64 {
    if j == 0 then w else ShiftLeft(w, j - 1).Up8()
  }

  /** (w >> (8 * b)) & 0xFF: the byte that a little-endian store of w writes at address b. */
  function ByteOf(w: Word64, b: nat): bv8
    decreases b
  {
    if b == 0 then w.LowByte() else ByteOf(w.Down8(), b - 1)
  }

  lemma OrFacts(w: Word64, v: Word64)
    ensures w.Or(v).Down8() == w.Down8().Or(v.Down8())
    ensures w.Or(v).LowByte() == w.LowByte() | v.LowByte()
  {
  }

  lemma {:induction false} OrBytes(w: Word64, v: Word64, b: nat)
    ensures ByteOf(w.Or(v), b) == ByteOf(w, b) | ByteOf(v, b)
    decreases b
  {
    hide Word64.Or, Word64.Down8, Word64.LowByte;
    OrFacts(w, v);
    if b > 0 {
      OrBytes(w.Down8(), v.Down8(), b - 1);
    }
  }

  /** The low k bytes. */
  function LowBytes(k: nat): bv64 {
    if k == 0 then 0 else (LowBytes(k - 1) << 8) | 0xFF
  }

  lemma SevenBytes()
    ensures LowBytes(7) == 0xFF_FFFF_FFFF_FFFF
  {
  }

  lemma MaskFacts(w: Word64, k: nat)
    requires k > 0
    ensures w.And(Word64(LowBytes(k))).Down8() == w.Down8().And(Word64(LowBytes(k - 1)))
    ensures w.And(Word64(LowBytes(k))).LowByte() == w.LowByte()
  {
  }

  lemma {:induction false} MaskedByte(w: Word64, k: nat, b: nat)
    requires b < k
    ensures ByteOf(w.And(Word64(LowBytes(k))), b) == ByteOf(w, b)
    decreases b
  {
    hide Word64.And, Word64.Down8, Word64.LowByte, LowBytes;
    MaskFacts(w, k);
    if b > 0 {
      MaskedByte(w.Down8(), k - 1, b - 1);
    }
  }

  lemma UpFacts(w: Word64)
    ensures w.Up8().Down8() == w.And(Word64(0xFF_FFFF_FFFF_FFFF))
    ensures w.Up8().LowByte() == 0
  {
  }

  lemma ByteFacts(low: bv8)
    ensures FromByte(low).LowByte() == low && FromByte(low).Down8() == FromByte(0)
  {
  }

  lemma {:induction false} ByteWord(low: bv8, b: nat)
    ensures ByteOf(FromByte(low), b) == if b == 0 then low else 0
    decreases b
  {
    hide FromByte, Word64.Down8, Word64.LowByte;
    ByteFacts(low);
    if b > 0 {
      ByteWord(0, b - 1);
    }
  }

  /** A byte shifted to place j is stored at address j, between zeros. */
  lemma {:induction false} ShiftedByte(low: bv8, j: nat, b: nat)
    requires j < 8 && b < 8
    ensures ByteOf(ShiftLeft(FromByte(low), j), b) == if b == j then low else 0
  {
    hide Word64.Up8, Word64.And, Word64.Down8, Word64.LowByte, LowBytes, FromByte;
    if j == 0 {
      ByteWord(low, b);
    } else {
      var y := ShiftLeft(FromByte(low), j - 1);
      UpFacts(y);
      SevenBytes();
      if b > 0 {
        MaskedByte(y, 7, b - 1);
        ShiftedByte(low, j - 1, b - 1);
      }
    }
  }

  const ZERO_WORD := Word64(0)

  /** Or-ing a byte in at place j changes byte j of the stored word and no other. */
  lemma OrShifted(w: Word64, low: bv8, j: nat, b: nat)
    requires j < 8 && b < 8
    ensures ByteOf(w.Or(ShiftLeft(FromByte(low), j)), b) == ByteOf(w, b) | if b == j then low else 0
  {
    hide Word64.Or, ByteOf, ShiftLeft, FromByte;
    OrBytes(w, ShiftLeft(FromByte(low), j), b);
    ShiftedByte(low, j, b);
  }
}
