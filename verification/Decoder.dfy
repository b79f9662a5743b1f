/** The resumable run-length decoder, the column type, and the batches a scan cuts a column into. */
module Decoder {
  import opened Machine
  import opened Rows
  import opened Rle

  // ----- what a decoder can deliver

  /** The rows before the first zero-length run. */
  function LiveRows(values: seq<int32>, lengths: seq<uint32>): seq<int32>
    requires |values| == |lengths|
  {
    if values == [] || lengths[0] == 0 then []
    else Copies(values[0], lengths[0]) + LiveRows(values[1..], lengths[1..])
  }

  /** The batches cut from the rows to come; a broken stream loses its last, partial batch. */
  function Cuts(rows: seq<int32>, broken: bool): (r: seq<seq<int32>>)
    ensures forall b :: 0 <= b < |r| ==> |r[b]| <= BATCH_SIZE
  {
    if |rows| >= BATCH_SIZE then [rows[..BATCH_SIZE]] + Cuts(rows[BATCH_SIZE..], broken)
    else if broken || rows == [] then []
    else [rows]
  }

  function Flatten(batches: seq<seq<int32>>): seq<int32> {
    if batches == [] then [] else batches[0] + Flatten(batches[1..])
  }

  /** What repeated scanning hands out in total: a broken stream yields whole batches only. */
  function Delivered(rows: seq<int32>, broken: bool): seq<int32> {
    if broken then rows[..BATCH_SIZE * (|rows| / BATCH_SIZE)] else rows
  }

  lemma {:induction false} CutsDeliver(rows: seq<int32>, broken: bool)
    ensures Flatten(Cuts(rows, broken)) == Delivered(rows, broken)
    decreases |rows|
  {
    if |rows| >= BATCH_SIZE {
      var rest := rows[BATCH_SIZE..];
      CutsDeliver(rest, broken);
      assert |rest| / BATCH_SIZE == |rows| / BATCH_SIZE - 1;
      assert rows[..BATCH_SIZE] + Delivered(rest, broken) == Delivered(rows, broken);
    } else if !broken && rows != [] {
      assert [rows][1..] == [];
    }
  }

  /** Every batch is full, except a non-empty last one of a stream that ends regularly. */
  lemma {:induction false} CutsAreFull(rows: seq<int32>, broken: bool, i: nat)
    requires i < |Cuts(rows, broken)|
    ensures |Cuts(rows, broken)| == (|rows| + if broken then 0 else 4095) / 4096
    ensures |Cuts(rows, broken)[i]| ==
      if i < |rows| / 4096 then 4096 else |rows| % 4096
    ensures Cuts(rows, broken)[i] != []
    decreases |rows|
  {
    if |rows| >= BATCH_SIZE {
      var rest := rows[BATCH_SIZE..];
      if i > 0 {
        CutsAreFull(rest, broken, i - 1);
      } else if Cuts(rest, broken) != [] {
        CutsAreFull(rest, broken, 0);
      }
    }
  }

  // ----- when a scan agrees with full expansion

  predicate ZerosOnlyAtEnd(lengths: seq<uint32>) {
    forall i, j :: 0 <= i < j < |lengths| && lengths[i] == 0 ==> lengths[j] == 0
  }

  /** The live rows are a prefix of the expansion, and all of it exactly when empty runs come last. */
  lemma {:induction false} LiveRowsPrefix(values: seq<int32>, lengths: seq<uint32>)
    requires |values| == |lengths|
    ensures LiveRows(values, lengths) <= Expand(values, lengths)
    ensures 0 !in lengths ==> LiveRows(values, lengths) == Expand(values, lengths)
    ensures |LiveRows(values, lengths)| == |Expand(values, lengths)| <==> ZerosOnlyAtEnd(lengths)
  {
    if values != [] {
      var ls := lengths[1..];
      ExpandLength(values, lengths);
      assert lengths == [lengths[0]] + ls;
      if lengths[0] == 0 {
        NoRows(lengths);
        assert ZerosOnlyAtEnd(lengths) <==> forall j :: 0 < j < |lengths| ==> lengths[j] == 0;
      } else {
        LiveRowsPrefix(values[1..], ls);
        assert ZerosOnlyAtEnd(lengths) ==> ZerosOnlyAtEnd(ls) by {
          assert forall i :: 0 <= i < |ls| ==> ls[i] == lengths[i + 1];
        }
        assert ZerosOnlyAtEnd(ls) ==> ZerosOnlyAtEnd(lengths) by {
          assert forall i :: 0 < i < |lengths| ==> lengths[i] == ls[i - 1];
        }
      }
    }
  }

  lemma {:induction false} NoRows(lengths: seq<uint32>)
    ensures SumLengths(lengths) == 0 <==> forall j :: 0 <= j < |lengths| ==> lengths[j] == 0
  {
    if lengths != [] {
      NoRows(lengths[1..]);
      assert lengths == [lengths[0]] + lengths[1..];
      assert forall j :: 0 < j < |lengths| ==> lengths[j] == lengths[1..][j - 1];
    }
  }

  /** The rows repeated scanning of a run list hands out. */
  function Scanned(values: seq<int32>, lengths: seq<uint32>): seq<int32>
    requires |values| == |lengths|
  {
    Delivered(LiveRows(values, lengths), 0 in lengths)
  }

  /**
   Scanning a run list yields the same rows as materializing it exactly when no run is empty, or
   the empty runs come last and the row count is a multiple of the batch size.
   */
  lemma ScanIsTransparent(values: seq<int32>, lengths: seq<uint32>)
    requires |values| == |lengths|
    ensures Scanned(values, lengths) == Expand(values, lengths) <==>
            (0 !in lengths || (ZerosOnlyAtEnd(lengths) && SumLengths(lengths) % 4096 == 0))
  {
    var live, all := LiveRows(values, lengths), Expand(values, lengths);
    LiveRowsPrefix(values, lengths);
    ExpandLength(values, lengths);
    DeliveredIsAll(live, all, 0 in lengths);
  }

  lemma DeliveredIsAll(live: seq<int32>, all: seq<int32>, broken: bool)
    requires live <= all
    ensures broken ==> (Delivered(live, broken) == all <==> |live| == |all| && |all| % BATCH_SIZE == 0)
  {
    assert BATCH_SIZE * (|live| / BATCH_SIZE) == |live| - |live| % BATCH_SIZE;
  }

  // ----- the decoder

  class RleBatch {
    const buffer: array<int32>
    var size: nat

    ghost predicate Valid()
      reads this
    {
      buffer.Length == BATCH_SIZE && size <= BATCH_SIZE
    }

    ghost function Rows(): seq<int32>
      requires Valid()
      reads this, buffer
    {
      buffer[..size]
    }

    constructor ()
      ensures Valid() && size == 0 && fresh(buffer)
    {
      buffer := new int32[BATCH_SIZE];
      size := 0;
    }

    /** Appends `take` copies of v. */
    method Fill(v: int32, take: nat)
      requires Valid() && size + take <= BATCH_SIZE
      modifies this, buffer
      ensures Valid() && Rows() == old(Rows()) + Copies(v, take)
    {
      for k := 0 to take
        invariant size == old(size) && Rows() == old(Rows())
        invariant forall i :: size <= i < size + k ==> buffer[i] == v
      {
        buffer[size + k] := v;
      }
      size := size + take;
    }
  }

  class RleDecoder {
    const values: seq<int32>
    const lengths: seq<uint32>
    var runIdx: nat
    var remainingInRun: uint32
    var malformed: bool

    ghost predicate Valid()
      reads this
    {
      && |values| == |lengths|
      && runIdx <= |values|
      && (runIdx < |values| && !malformed ==> lengths[runIdx] != 0)
    }

    /** The rows still to be delivered before the stream ends or breaks. */
    ghost function Pending(): seq<int32>
      requires Valid()
      reads this
    {
      if malformed || runIdx == |values| then []
      else Copies(values[runIdx], remainingInRun) + LiveRows(values[runIdx + 1..], lengths[runIdx + 1..])
    }

    /** A zero-length run lies ahead and has not been reached yet. */
    ghost predicate Broken()
      requires Valid()
      reads this
    {
      !malformed && runIdx < |values| && 0 in lengths[runIdx + 1..]
    }

    constructor (values: seq<int32>, lengths: seq<uint32>)
      requires |values| == |lengths|
      ensures this.values == values && this.lengths == lengths
      ensures Valid() && Pending() == LiveRows(values, lengths)
      ensures malformed == (lengths != [] && lengths[0] == 0)
      ensures Broken() == (!malformed && 0 in lengths)
    {
      this.values, this.lengths := values, lengths;
      runIdx, malformed := 0, false;
      remainingInRun := 0;
      if |values| > 0 {
        remainingInRun := lengths[0];
        if lengths[0] == 0 {
          malformed := true;
        }
      }
      new;
      assert lengths != [] ==> lengths == [lengths[0]] + lengths[1..];
    }

    /** Moves on to the next run once the current one is used up. */
    method NextRun() returns (more: bool)
      requires Valid() && !malformed && runIdx < |values| && remainingInRun == 0
      modifies this
      ensures Valid()
      ensures more ==> (runIdx < |values| && remainingInRun > 0 && runIdx == old(runIdx) + 1
                        && Pending() == old(Pending()) && Broken() == old(Broken()) && !malformed)
      ensures !more ==> (Pending() == old(Pending()) == [] && malformed == old(Broken()) && !Broken())
    {
      ghost var vs, ls := values[runIdx + 1..], lengths[runIdx + 1..];
      assert Copies(values[runIdx], 0) + LiveRows(vs, ls) == LiveRows(vs, ls);
      runIdx := runIdx + 1;
      if runIdx >= |values| {
        return false;
      }
      assert vs[1..] == values[runIdx + 1..] && ls[1..] == lengths[runIdx + 1..];
      assert ls == [lengths[runIdx]] + ls[1..];
      remainingInRun := lengths[runIdx];
      if remainingInRun == 0 {
        malformed := true;
        return false;
      }
      return true;
    }

    /** Copies as much of the current run as fits into the batch. */
    method Take(out: RleBatch)
      requires Valid() && out.Valid() && !malformed && runIdx < |values|
      requires remainingInRun > 0 && out.size < BATCH_SIZE
      modifies this, out, out.buffer
      ensures Valid() && out.Valid() && !malformed && runIdx == old(runIdx)
      ensures out.size > old(out.size)
      ensures out.Rows() + Pending() == old(out.Rows() + Pending())
      ensures Broken() == old(Broken())
    {
      var slack := BATCH_SIZE - out.size;
      var take := if remainingInRun < slack then remainingInRun else slack;
      ghost var rest := LiveRows(values[runIdx + 1..], lengths[runIdx + 1..]);
      CopiesSplit(values[runIdx], take, remainingInRun - take, rest);
      out.Fill(values[runIdx], take);
      remainingInRun := remainingInRun - take;
    }

    method NextBatch(out: RleBatch) returns (ok: bool)
      requires Valid() && out.Valid()
      modifies this, out, out.buffer
      ensures Valid() && out.Valid()
      ensures old(malformed) ==> (!ok && out.size == 0 && malformed)
      ensures !old(malformed) && |old(Pending())| >= BATCH_SIZE ==>
        (ok && out.Rows() == old(Pending())[..BATCH_SIZE] && Pending() == old(Pending())[BATCH_SIZE..]
         && Broken() == old(Broken()) && !malformed)
      ensures !old(malformed) && |old(Pending())| < BATCH_SIZE ==>
        (ok == !old(Broken()) && out.Rows() == old(Pending()) && Pending() == []
         && malformed == old(Broken()) && !Broken())
    {
      out.size := 0;
      if malformed {
        return false;
      }
      while out.size < BATCH_SIZE
        invariant Valid() && out.Valid() && !malformed
        invariant out.Rows() + Pending() == old(Pending())
        invariant Broken() == old(Broken())
        decreases |values| - runIdx, BATCH_SIZE - out.size
      {
        if runIdx >= |values| {
          break;
        }
        if remainingInRun == 0 {
          var more := NextRun();
          if !more {
            return !malformed;
          }
        }
        Take(out);
      }
      return true;
    }
  }

  lemma CopiesSplit(v: int32, a: nat, b: nat, rest: seq<int32>)
    ensures Copies(v, a + b) + rest == Copies(v, a) + (Copies(v, b) + rest)
  {
  }

  // ----- columns

  /** A column is either a flat buffer or parallel arrays of run values and run lengths. */
  datatype Column = Raw(data: array<int32>) | Encoded(values: seq<int32>, lengths: seq<uint32>)
  {
    ghost predicate Valid() {
      Encoded? ==> |values| == |lengths|
    }

    ghost function Contents(): seq<int32>
      requires Valid()
      reads if Raw? then {data} else {}
    {
      match this
      case Raw(data) => data[..]
      case Encoded(values, lengths) => Expand(values, lengths)
    }

    method Materialize() returns (out: seq<int32>)
      requires Valid()
      ensures out == Contents()
    {
      if Raw? {
        return data[..];
      }
      out := [];
      for i := 0 to |values|
        invariant out + Expand(values[i..], lengths[i..]) == Expand(values, lengths)
      {
        ghost var rest := Expand(values[i..][1..], lengths[i..][1..]);
        ghost var before := out;
        assert values[i..][1..] == values[i + 1..] && lengths[i..][1..] == lengths[i + 1..];
        for k := 0 to lengths[i]
          invariant out == before + Copies(values[i], k)
        {
          out := out + [values[i]];
          CopiesPush(values[i], k);
        }
        assert before + (Copies(values[i], lengths[i]) + rest) == out + rest;
      }
    }
  }

  method EncodeColumn(data: seq<int32>) returns (column: Column)
    ensures column.Encoded? && Canonical(column.values, column.lengths)
    ensures Expand(column.values, column.lengths) == data
  {
    var values, lengths := RleEncode(data);
    column := Encoded(values, lengths);
  }
}
