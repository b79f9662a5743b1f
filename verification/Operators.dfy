/**
 The pull-based operators.  An operator is specified by the list of batches it still has to
 deliver; a batch itself is only a pointer, which in run-length mode always names the one scratch
 buffer that the next pull overwrites.
 */
module Operators {
  import opened Machine
  import opened Bitmap
  import opened Rows
  import opened Decoder
  import FilterKernels
  import SumKernels

  /** The kernel family chosen at run time. */
  datatype SimdPath = Scalar | Avx2

  /** A slice of a buffer owned by somebody else, with an optional selection bitmap. */
  datatype Batch = Batch(data: array<int32>, offset: nat, size: nat, selection: Option<seq<bv8>>)
  {
    ghost predicate Valid() {
      size <= BATCH_SIZE && offset + size <= data.Length && SumKernels.Covers(selection, size)
    }

    function Rows(): seq<int32>
      requires Valid()
      reads data
    {
      data[offset..offset + size]
    }

    ghost function Value(): BatchView
      requires Valid()
      reads data
    {
      View(Rows(), SumKernels.Keep(selection, size))
    }
  }

  /** The value of a batch at the moment it is delivered. */
  datatype View = View(rows: seq<int32>, keep: seq<bool>)

  type BatchView = v: View | |v.rows| == |v.keep| <= BATCH_SIZE witness View([], [])

  /** The rows a list of batches selects, in order. */
  function SelectedRows(batches: seq<BatchView>): seq<int32> {
    if batches == [] then []
    else Kept(batches[0].rows, batches[0].keep) + SelectedRows(batches[1..])
  }

  function RowTotal(batches: seq<BatchView>): nat {
    if batches == [] then 0 else |batches[0].rows| + RowTotal(batches[1..])
  }

  type Slice = s: seq<int32> | |s| <= BATCH_SIZE

  function Unfiltered(batches: seq<Slice>): seq<BatchView> {
    if batches == [] then []
    else [View(batches[0], All(|batches[0]|))] + Unfiltered(batches[1..])
  }

  /** One pull takes the first cut off the rows to come; a broken stream yields whole batches only. */
  lemma NextCut(rows: seq<int32>, broken: bool)
    ensures var n := if |rows| < BATCH_SIZE then |rows| else BATCH_SIZE;
            Unfiltered(Cuts(rows, broken)) ==
            if n == 0 || (broken && n < BATCH_SIZE) then []
            else [View(rows[..n], All(n))] + Unfiltered(Cuts(rows[n..], broken))
  {
    if |rows| < BATCH_SIZE {
      assert [rows][1..] == [] && rows[..|rows|] == rows;
    } else {
      assert Cuts(rows, broken)[1..] == Cuts(rows[BATCH_SIZE..], broken);
    }
  }

  /** A filter keeps the rows of each batch and replaces its decisions. */
  function Filtered(op: FilterOp, threshold: int32, batches: seq<BatchView>): seq<BatchView> {
    if batches == [] then []
    else [View(batches[0].rows, Decisions(op, threshold, batches[0].rows))]
         + Filtered(op, threshold, batches[1..])
  }

  // ----- scan

  /** Scans a flat buffer without copying, or decodes runs into the scratch buffer. */
  class Int32ColumnScan {
    const rleMode: bool
    const rawData: array<int32>
    const rawSize: nat
    var cursor: nat
    const decoder: RleDecoder?
    const scratch: RleBatch

    /** Objects a pull may change, and objects it only reads. */
    ghost const Owned: set<object>
    ghost const Shared: set<object>

    ghost predicate Valid()
      reads this, Owned
    {
      && Owned == {this, scratch, scratch.buffer} + (if rleMode then {decoder} else {})
      && Shared == {rawData}
      && rawData !in Owned
      && rawSize <= rawData.Length && cursor <= rawSize
      && (rleMode ==> decoder != null && decoder.Valid())
      && scratch.Valid()
    }

    /** The rows still to be scanned, and whether the run list breaks before it ends. */
    ghost function Rest(): seq<int32>
      requires Valid()
      reads this, Owned, Shared
    {
      if rleMode then decoder.Pending() else rawData[cursor..rawSize]
    }

    ghost predicate Broken()
      requires Valid()
      reads this, Owned, Shared
    {
      rleMode && (decoder.malformed || decoder.Broken())
    }

    ghost function Upcoming(): seq<BatchView>
      requires Valid()
      reads this, Owned, Shared
    {
      Unfiltered(Cuts(Rest(), Broken()))
    }

    constructor Raw(data: array<int32>, n: nat)
      requires n <= data.Length
      ensures Valid() && fresh(Owned) && Shared == {data}
      ensures !rleMode && Rest() == data[..n] && !Broken()
    {
      var s := new RleBatch();
      rleMode, rawData, rawSize, cursor := false, data, n, 0;
      decoder, scratch := null, s;
      Owned, Shared := {this, s, s.buffer}, {data};
    }

    constructor Rle(values: seq<int32>, lengths: seq<uint32>)
      requires |values| == |lengths|
      ensures Valid() && fresh(Owned) && fresh(Shared)
      ensures rleMode && Rest() == LiveRows(values, lengths) && Broken() == (0 in lengths)
    {
      var d := new RleDecoder(values, lengths);
      var s := new RleBatch();
      var none := new int32[0];
      rleMode, rawData, rawSize, cursor := true, none, 0, 0;
      decoder, scratch := d, s;
      Owned, Shared := {this, d, s, s.buffer}, {none};
    }

    method Next() returns (b: Option<Batch>)
      requires Valid()
      modifies Owned
      ensures Valid()
      ensures b.None? <==> old(Upcoming()) == []
      ensures b.None? ==> Upcoming() == []
      ensures b.Some? ==> b.value.Valid() && b.value.Value() == old(Upcoming())[0]
      ensures b.Some? ==> Upcoming() == old(Upcoming())[1..]
      ensures b.Some? ==> b.value.data in Owned + Shared
      ensures Broken() == old(Broken())
      ensures b.None? && Broken() ==> decoder.malformed
      ensures rleMode && b.Some? ==> b.value.data == scratch.buffer && b.value.offset == 0
    {
      hide Cuts, Unfiltered;
      NextCut(Rest(), Broken());
      NextCut([], Broken());
      if rleMode {
        var ok := decoder.NextBatch(scratch);
        if !ok {
          assert Rest() == [];
          return None;
        }
        if scratch.size == 0 {
          assert Rest() == [];
          return None;
        }
        assert Rest() == old(Rest())[scratch.size..];
        return Some(Batch(scratch.buffer, 0, scratch.size, None));
      }
      if cursor >= rawSize {
        assert Rest() == [];
        return None;
      }
      var remaining := rawSize - cursor;
      var n := if remaining < BATCH_SIZE then remaining else BATCH_SIZE;
      b := Some(Batch(rawData, cursor, n, None));
      cursor := cursor + n;
    }
  }

  // ----- any other source of batches

  /** The values of a list of batches, as they are now. */
  ghost function Values(batches: seq<Batch>): (views: seq<BatchView>)
    requires forall b :: b in batches ==> b.Valid()
    reads set b | b in batches :: b.data
    ensures |views| == |batches|
  {
    if batches == [] then [] else [batches[0].Value()] + Values(batches[1..])
  }

  /** Delivers an arbitrary list of batches: of any size, empty ones included, with any selection. */
  class BatchList {
    const batches: seq<Batch>
    var cursor: nat

    ghost const Owned: set<object>
    ghost const Shared: set<object>

    ghost predicate Valid()
      reads this
      ensures Valid() ==> this in Owned && Owned !! Shared
    {
      && Owned == {this} && this !in Shared
      && cursor <= |batches|
      && forall b :: b in batches ==> b.Valid() && b.data in Shared
    }

    ghost function Upcoming(): seq<BatchView>
      requires Valid()
      reads this, Shared
    {
      Values(batches[cursor..])
    }

    constructor (batches: seq<Batch>)
      requires forall b :: b in batches ==> b.Valid()
      ensures Valid() && fresh(Owned) && this.batches == batches && cursor == 0
      ensures Shared == set b | b in batches :: b.data
      ensures Upcoming() == Values(batches)
    {
      this.batches, cursor := batches, 0;
      Owned, Shared := {this}, set b | b in batches :: b.data;
      new;
      assert batches[0..] == batches;
    }

    method Next() returns (b: Option<Batch>)
      requires Valid()
      modifies this
      ensures Valid()
      ensures b.None? <==> old(Upcoming()) == []
      ensures b.None? ==> Upcoming() == []
      ensures b.Some? ==> b.value.Valid() && b.value.Value() == old(Upcoming())[0]
      ensures b.Some? ==> Upcoming() == old(Upcoming())[1..]
      ensures b.Some? ==> b.value.data in Shared
    {
      if cursor == |batches| {
        return None;
      }
      assert batches[cursor..][1..] == batches[cursor + 1..];
      b := Some(batches[cursor]);
      cursor := cursor + 1;
    }
  }

  // ----- the operator interface

  /** The operators that produce batches, called through one interface. */
  datatype Operator = Scan(scan: Int32ColumnScan) | Filter(filter: Int32Filter) | Listed(list: BatchList)
  {
    ghost function Owned(): set<object> {
      match this
      case Scan(s) => s.Owned
      case Filter(f) => f.Owned
      case Listed(l) => l.Owned
    }

    ghost function Shared(): set<object> {
      match this
      case Scan(s) => s.Shared
      case Filter(f) => f.Shared
      case Listed(l) => l.Shared
    }

    ghost function Root(): object {
      match this
      case Scan(s) => s
      case Filter(f) => f
      case Listed(l) => l
    }

    ghost function Depth(): nat {
      match this
      case Scan(s) => 0
      case Filter(f) => f.depth
      case Listed(l) => 0
    }

    ghost predicate Valid()
      reads Root(), Owned(), Shared()
      ensures Valid() ==> Root() in Owned() && Owned() !! Shared()
      decreases Depth(), 1
    {
      match this
      case Scan(s) => s.Valid()
      case Filter(f) => f.Valid()
      case Listed(l) => l.Valid()
    }

    ghost function Upcoming(): seq<BatchView>
      requires Valid()
      reads Owned(), Shared()
      decreases Depth(), 1
    {
      match this
      case Scan(s) => s.Upcoming()
      case Filter(f) => f.Upcoming()
      case Listed(l) => l.Upcoming()
    }

    method Next(path: SimdPath) returns (b: Option<Batch>)
      requires Valid()
      modifies Owned()
      ensures Valid()
      ensures b.None? <==> old(Upcoming()) == []
      ensures b.None? ==> Upcoming() == []
      ensures b.Some? ==> b.value.Valid() && b.value.Value() == old(Upcoming())[0]
      ensures b.Some? ==> Upcoming() == old(Upcoming())[1..]
      ensures b.Some? ==> b.value.data in Owned() + Shared()
      ensures Filter? ==> filter.rowsSeen == old(filter.rowsSeen) + if b.Some? then b.value.size else 0
      ensures Filter? ==>
        (filter.rowsPassed == old(filter.rowsPassed) + if b.Some? then Ones(b.value.Value().keep) else 0)
      decreases Depth(), 1
    {
      match this {
        case Scan(s) => b := s.Next();
        case Filter(f) => b := f.Next(path);
        case Listed(l) => b := l.Next();
      }
    }
  }

  // ----- filter

  /** Marks the rows that pass; the batch itself is forwarded, not copied. */
  class Int32Filter {
    const child: Operator
    const op: FilterOp
    const threshold: int32
    var rowsPassed: nat
    var rowsSeen: nat

    ghost const Owned: set<object>
    ghost const Shared: set<object>
    ghost const depth: nat

    ghost predicate Valid()
      reads this, Owned, Shared
      ensures Valid() ==> this in Owned && Owned !! Shared
      decreases depth, 0
    {
      && child.Depth() < depth
      && Owned == {this} + child.Owned() && Shared == child.Shared()
      && child.Root() in Owned
      && this !in child.Owned() + Shared
      && child.Valid()
    }

    ghost function Upcoming(): seq<BatchView>
      requires Valid()
      reads this, Owned, Shared
      decreases depth, 0
    {
      Filtered(op, threshold, child.Upcoming())
    }

    constructor (child: Operator, op: FilterOp, threshold: int32)
      requires child.Valid()
      ensures Valid() && this.child == child && this.op == op && this.threshold == threshold
      ensures Owned == {this} + child.Owned() && Shared == child.Shared()
      ensures rowsPassed == 0 && rowsSeen == 0
      ensures Upcoming() == Filtered(op, threshold, child.Upcoming())
    {
      this.child, this.op, this.threshold := child, op, threshold;
      rowsPassed, rowsSeen := 0, 0;
      Owned, Shared, depth := {this} + child.Owned(), child.Shared(), child.Depth() + 1;
    }

    method Next(path: SimdPath) returns (b: Option<Batch>)
      requires Valid()
      modifies Owned
      ensures Valid()
      ensures b.None? <==> old(Upcoming()) == []
      ensures b.None? ==> Upcoming() == []
      ensures b.Some? ==> b.value.Valid() && b.value.Value() == old(Upcoming())[0]
      ensures b.Some? ==> Upcoming() == old(Upcoming())[1..]
      ensures b.Some? ==> b.value.data in Owned + Shared
      ensures rowsSeen == old(rowsSeen) + if b.Some? then b.value.size else 0
      ensures rowsPassed == old(rowsPassed) + if b.Some? then Ones(b.value.Value().keep) else 0
      decreases depth, 0
    {
      hide Operator.Owned, Operator.Shared, Operator.Root, Operator.Depth, Operator.Valid, Operator.Upcoming;
      hide Decisions, Ones, SumKernels.Keep;
      var input := child.Next(path);
      if input == None {
        return None;
      }
      var marked := Mark(input.value, path);
      b := Some(marked);
    }

    /** Forwards the data pointer with a bitmap of its own and counts the rows. */
    method Mark(input: Batch, path: SimdPath) returns (marked: Batch)
      requires input.Valid()
      modifies this`rowsSeen, this`rowsPassed
      ensures marked.Valid() && marked.data == input.data && marked.size == input.size
      ensures marked.Value() == View(input.Rows(), Decisions(op, threshold, input.Rows()))
      ensures rowsSeen == old(rowsSeen) + input.size
      ensures rowsPassed == old(rowsPassed) + Ones(marked.Value().keep)
    {
      var rows := input.Rows();
      var selection, passed := Select(rows, path);
      rowsSeen := rowsSeen + input.size;
      rowsPassed := rowsPassed + passed;
      marked := input.(selection := Some(selection));
      assert marked.Rows() == rows;
    }

    /** Runs the kernel the SIMD path asks for on a fresh bitmap. */
    method Select(rows: seq<int32>, path: SimdPath) returns (selection: seq<bv8>, passed: nat)
      ensures ByteCount(|rows|) <= |selection|
      ensures Bits(selection, |rows|) == Decisions(op, threshold, rows)
      ensures passed == Ones(Decisions(op, threshold, rows))
    {
      var bitmap := new bv8[ByteCount(|rows|)](i => 0);
      if path == Avx2 {
        passed := FilterKernels.FilterAvx2(op, rows, threshold, bitmap);
      } else {
        passed := FilterKernels.FilterScalar(op, rows, threshold, bitmap);
      }
      selection := bitmap[..];
      assert selection == bitmap[..ByteCount(|rows|)];
      BitsOfPack(Decisions(op, threshold, rows));
    }
  }
}
