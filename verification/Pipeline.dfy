/** The consumers of batches, and the two ways to run a whole query. */
module Pipeline {
  import opened Machine
  import opened Rows
  import opened Rle
  import opened Decoder
  import opened Operators
  import SumKernels

  // ----- folding a batch is folding its rows

  /** Fold over a concatenation, in terms of the parts: what a consumer may do batch by batch. */
  lemma FoldConcat(kind: AggregateKind, a: seq<int32>, b: seq<int32>)
    requires SumFits(kind, a + b)
    ensures b == [] ==> Fold(kind, a + b) == Fold(kind, a)
    ensures kind in {Sum, Avg} ==> Fold(kind, a + b).sum == Fold(kind, a).sum + Total(b)
    ensures kind in {Sum, Avg, Count} ==> Fold(kind, a + b).count == Fold(kind, a).count + |b|
  {
    TotalConcat(a, b);
    if b == [] {
      assert a + b == a;
    }
  }

  lemma FoldExtremes(a: seq<int32>, b: seq<int32>)
    requires b != []
    ensures Fold(Min, a + b) == Fold(Min, a).(
      min := if a == [] || Least(b) < Fold(Min, a).min then Least(b) else Fold(Min, a).min, empty := false)
    ensures Fold(Max, a + b) == Fold(Max, a).(
      max := if a == [] || Greatest(b) > Fold(Max, a).max then Greatest(b) else Fold(Max, a).max, empty := false)
  {
    if a == [] {
      assert a + b == b;
    } else {
      ExtremesConcat(a, b);
    }
  }

  /** The rows a batch selects. */
  ghost function KeptOf(b: Batch): seq<int32>
    requires b.Valid()
    reads b.data
  {
    Kept(b.Rows(), SumKernels.Keep(b.selection, b.size))
  }

  method SumBatch(b: Batch, path: SimdPath) returns (s: int64)
    requires b.Valid()
    ensures s == Total(KeptOf(b))
  {
    if path == Avx2 {
      s := SumKernels.SumAvx2(b.Rows(), b.selection);
    } else {
      s := SumKernels.SumScalar(b.Rows(), b.selection);
    }
  }

  method CountBatch(b: Batch) returns (c: nat)
    requires b.Valid()
    ensures c == |KeptOf(b)|
  {
    c := SumKernels.CountScalar(b.size, b.selection);
  }

  /** The Sum and Avg branch of the aggregate loop. */
  method AbsorbSum(r: AggregateResult, b: Batch, path: SimdPath, ghost done: seq<int32>)
    returns (next: AggregateResult)
    requires b.Valid() && r.kind in {Sum, Avg}
    requires SumFits(r.kind, done + KeptOf(b)) && r == Fold(r.kind, done)
    ensures next == Fold(r.kind, done + KeptOf(b))
  {
    FoldConcat(r.kind, done, KeptOf(b));
    var s := SumBatch(b, path);
    var c := CountBatch(b);
    next := r.(sum := r.sum + s, count := r.count + c);
    if next.count > 0 {
      next := next.(empty := false);
    }
  }

  /** The Count branch. */
  method AbsorbCount(r: AggregateResult, b: Batch, ghost done: seq<int32>) returns (next: AggregateResult)
    requires b.Valid() && r.kind == Count && r == Fold(Count, done)
    ensures next == Fold(Count, done + KeptOf(b))
  {
    FoldConcat(Count, done, KeptOf(b));
    var c := CountBatch(b);
    next := r.(count := r.count + c);
    if next.count > 0 {
      next := next.(empty := false);
    }
  }

  /** The Min branch. */
  method AbsorbMin(r: AggregateResult, b: Batch, ghost done: seq<int32>) returns (next: AggregateResult)
    requires b.Valid() && r.kind == Min && r == Fold(Min, done)
    ensures next == Fold(Min, done + KeptOf(b))
  {
    hide Fold, Kept, Least, Greatest, Total;
    ghost var kept := KeptOf(b);
    if kept == [] {
      assert done + kept == done;
    } else {
      FoldExtremes(done, kept);
    }
    next := r;
    var m, empty := SumKernels.MinScalar(b.Rows(), b.selection);
    if !empty {
      if next.empty {
        next := next.(min := m, empty := false);
      } else if m < next.min {
        next := next.(min := m);
      }
    }
  }

  /** The Max branch. */
  method AbsorbMax(r: AggregateResult, b: Batch, ghost done: seq<int32>) returns (next: AggregateResult)
    requires b.Valid() && r.kind == Max && r == Fold(Max, done)
    ensures next == Fold(Max, done + KeptOf(b))
  {
    hide Fold, Kept, Least, Greatest, Total;
    ghost var kept := KeptOf(b);
    if kept == [] {
      assert done + kept == done;
    } else {
      FoldExtremes(done, kept);
    }
    next := r;
    var m, empty := SumKernels.MaxScalar(b.Rows(), b.selection);
    if !empty {
      if next.empty {
        next := next.(max := m, empty := false);
      } else if m > next.max {
        next := next.(max := m);
      }
    }
  }

  /** One iteration of the aggregate loop, whatever the batch and however much was folded before. */
  method Absorb(r: AggregateResult, b: Batch, path: SimdPath, ghost done: seq<int32>)
    returns (next: AggregateResult)
    requires b.Valid()
    requires SumFits(r.kind, done + KeptOf(b)) && r == Fold(r.kind, done)
    ensures next == Fold(r.kind, done + KeptOf(b))
  {
    match r.kind {
      case Sum | Avg => next := AbsorbSum(r, b, path, done);
      case Count => next := AbsorbCount(r, b, done);
      case Min => next := AbsorbMin(r, b, done);
      case Max => next := AbsorbMax(r, b, done);
    }
  }

  // ----- consumers

  /** Everything a child is going to deliver, and its row counters, at one moment. */
  datatype Ledger = Ledger(selected: seq<int32>, rows: nat, seen: nat, passed: nat)

  ghost function LedgerOf(child: Operator): Ledger
    requires child.Valid()
    reads child.Root(), child.Owned(), child.Shared()
  {
    Ledger(SelectedRows(child.Upcoming()), RowTotal(child.Upcoming()),
           if child.Filter? then child.filter.rowsSeen else 0,
           if child.Filter? then child.filter.rowsPassed else 0)
  }

  /** Since `start` a consumer has taken the selected rows `done` out of `seen` rows, and the rest is still to come. */
  ghost predicate Progress(child: Operator, done: seq<int32>, seen: nat, start: Ledger)
    reads child.Root(), child.Owned(), child.Shared()
  {
    && child.Valid()
    && done + LedgerOf(child).selected == start.selected
    && seen + LedgerOf(child).rows == start.rows
    && (child.Filter? ==> child.filter.rowsSeen == start.seen + seen)
    && (child.Filter? ==> child.filter.rowsPassed == start.passed + |done|)
  }

  /** The child is drained and its counters account for every row. */
  ghost predicate Drained(child: Operator, start: Ledger)
    reads child.Root(), child.Owned(), child.Shared()
  {
    && child.Valid() && child.Upcoming() == []
    && (child.Filter? ==> child.filter.rowsSeen == start.seen + start.rows)
    && (child.Filter? ==> child.filter.rowsPassed == start.passed + |start.selected|)
  }

  /** One pull: the batch that arrives moves from the rows to come to the rows done. */
  method Pull(child: Operator, path: SimdPath, ghost done: seq<int32>, ghost seen: nat, ghost start: Ledger)
    returns (b: Option<Batch>)
    requires Progress(child, done, seen, start)
    modifies child.Owned()
    ensures child.Valid()
    ensures b.None? ==> Drained(child, start) && done == start.selected
    ensures b.Some? ==> b.value.Valid() && |child.Upcoming()| == |old(child.Upcoming())| - 1
    ensures b.Some? ==> Progress(child, done + KeptOf(b.value), seen + b.value.size, start)
    ensures b.Some? ==> |done + KeptOf(b.value)| <= |start.selected|
  {
    TakeBatch(done, child.Upcoming());
    b := child.Next(path);
  }

  lemma TakeBatch(done: seq<int32>, upcoming: seq<BatchView>)
    ensures upcoming != [] ==>
      done + SelectedRows(upcoming) == done + Kept(upcoming[0].rows, upcoming[0].keep) + SelectedRows(upcoming[1..])
    ensures upcoming != [] ==> RowTotal(upcoming) == |upcoming[0].rows| + RowTotal(upcoming[1..])
  {
  }

  /** Pulls until the child is exhausted and folds every batch as it arrives. */
  class Int32Aggregate {
    const child: Operator
    const kind: AggregateKind

    constructor (child: Operator, kind: AggregateKind)
      ensures this.child == child && this.kind == kind
    {
      this.child, this.kind := child, kind;
    }

    /** One round of the loop: pull a batch, and fold it in unless the child is exhausted. */
    method FoldNext(r: AggregateResult, path: SimdPath, ghost done: seq<int32>, ghost seen: nat, ghost start: Ledger)
      returns (more: bool, next: AggregateResult, ghost done': seq<int32>, ghost seen': nat)
      requires Progress(child, done, seen, start) && |done| <= |start.selected|
      requires SumFits(r.kind, start.selected) && r == Fold(r.kind, done)
      modifies child.Owned()
      ensures !more ==> Drained(child, start) && done' == start.selected
      ensures more ==> Progress(child, done', seen', start) && |child.Upcoming()| == |old(child.Upcoming())| - 1
      ensures |done'| <= |start.selected| && next == Fold(r.kind, done')
    {
      hide Fold, Kept, SelectedRows, RowTotal;
      hide Operator.Depth, Operator.Valid, Operator.Upcoming;
      next, done', seen' := r, done, seen;
      var input := Pull(child, path, done, seen, start);
      if input == None {
        return false, r, done, seen;
      }
      next := Absorb(r, input.value, path, done);
      return true, next, done + KeptOf(input.value), seen + input.value.size;
    }

    method Run(path: SimdPath) returns (r: AggregateResult)
      requires child.Valid() && this !in child.Owned()
      requires SumFits(kind, LedgerOf(child).selected)
      modifies child.Owned()
      ensures Drained(child, old(LedgerOf(child)))
      ensures r == Fold(kind, old(LedgerOf(child)).selected)
    {
      ghost var start := LedgerOf(child);
      r := Nothing(kind);
      ghost var done: seq<int32>, seen: nat := [], 0;
      while true
        invariant Progress(child, done, seen, start) && |done| <= |start.selected|
        invariant r == Fold(kind, done)
        decreases |child.Upcoming()|
      {
        var more;
        more, r, done, seen := FoldNext(r, path, done, seen, start);
        if !more {
          break;
        }
      }
    }
  }

  /** Pulls until the child is exhausted and copies every selected row. */
  class Int32Sink {
    const child: Operator

    constructor (child: Operator)
      ensures this.child == child
    {
      this.child := child;
    }

    method Collect(path: SimdPath) returns (out: seq<int32>)
      requires child.Valid() && this !in child.Owned()
      modifies child.Owned()
      ensures Drained(child, old(LedgerOf(child)))
      ensures out == old(LedgerOf(child)).selected
    {
      hide Kept, SelectedRows, RowTotal;
      hide Operator.Depth, Operator.Valid, Operator.Upcoming;
      ghost var start := LedgerOf(child);
      out := [];
      ghost var seen: nat := 0;
      while true
        invariant Progress(child, out, seen, start)
        decreases |child.Upcoming()|
      {
        var input := Pull(child, path, out, seen, start);
        if input == None {
          break;
        }
        var kept := CopySelected(input.value);
        out, seen := out + kept, seen + input.value.size;
      }
    }
  }

  /** The rows of one batch whose selection bit is set; all of them without a bitmap. */
  method CopySelected(b: Batch) returns (out: seq<int32>)
    requires b.Valid()
    ensures out == KeptOf(b)
  {
    ghost var keep := SumKernels.Keep(b.selection, b.size);
    var rows := b.Rows();
    if b.selection == None {
      KeptAll(rows);
      return rows;
    }
    out := [];
    for i := 0 to b.size
      invariant out == SumKernels.KeptTo(rows, keep, i)
    {
      SumKernels.KeptToNext(rows, keep, i);
      if SumKernels.KeepRow(b.selection, b.size, i) {
        out := out + [rows[i]];
      }
    }
    SumKernels.KeptToEnd(rows, keep);
  }

  // ----- any child at all

  /** The rows a list of batches selects, in order. */
  ghost function KeptOfAll(batches: seq<Batch>): seq<int32>
    requires forall b :: b in batches ==> b.Valid()
    reads set b | b in batches :: b.data
  {
    if batches == [] then [] else KeptOf(batches[0]) + KeptOfAll(batches[1..])
  }

  lemma {:induction false} ValuesSelect(batches: seq<Batch>)
    requires forall b :: b in batches ==> b.Valid()
    ensures SelectedRows(Values(batches)) == KeptOfAll(batches)
  {
    if batches != [] {
      ValuesSelect(batches[1..]);
      assert Values(batches)[1..] == Values(batches[1..]);
    }
  }

  /** A child that delivers just these batches has just their selected rows to come. */
  method ListOf(batches: seq<Batch>) returns (list: BatchList)
    requires forall b :: b in batches ==> b.Valid()
    ensures fresh(list) && fresh(list.Owned) && list.Valid()
    ensures LedgerOf(Listed(list)).selected == KeptOfAll(batches)
  {
    ValuesSelect(batches);
    list := new BatchList(batches);
  }

  method AggregateList(list: BatchList, kind: AggregateKind, path: SimdPath, ghost selected: seq<int32>)
    returns (r: AggregateResult)
    requires list.Valid() && LedgerOf(Listed(list)).selected == selected && SumFits(kind, selected)
    modifies list.Owned
    ensures r == Fold(kind, selected)
  {
    hide Fold, Kept, SelectedRows, RowTotal;
    var agg := new Int32Aggregate(Listed(list), kind);
    r := agg.Run(path);
  }

  /** Whatever batches a child delivers, the aggregate is the fold of the rows they select. */
  method AggregateBatches(batches: seq<Batch>, kind: AggregateKind, path: SimdPath) returns (r: AggregateResult)
    requires forall b :: b in batches ==> b.Valid()
    requires SumFits(kind, KeptOfAll(batches))
    ensures r == Fold(kind, KeptOfAll(batches))
    ensures r.empty <==> KeptOfAll(batches) == []
  {
    hide KeptOfAll, Fold, SumFits;
    var list := ListOf(batches);
    r := AggregateList(list, kind, path, KeptOfAll(batches));
  }

  /** Two children that select the same rows get the same result, however each of them cuts its batches. */
  method SameRowsSameResult(a: seq<Batch>, b: seq<Batch>, kind: AggregateKind, pathA: SimdPath, pathB: SimdPath)
    returns (r: AggregateResult, s: AggregateResult)
    requires forall x :: x in a + b ==> x.Valid()
    requires KeptOfAll(a) == KeptOfAll(b) && SumFits(kind, KeptOfAll(a))
    ensures r == s == Fold(kind, KeptOfAll(a))
  {
    r := AggregateBatches(a, kind, pathA);
    s := AggregateBatches(b, kind, pathB);
  }

  /** The sink copies the rows any list of batches selects, in order. */
  method CollectBatches(batches: seq<Batch>, path: SimdPath) returns (out: seq<int32>)
    requires forall b :: b in batches ==> b.Valid()
    ensures out == KeptOfAll(batches)
  {
    hide KeptOfAll;
    var list := ListOf(batches);
    out := CollectList(list, path, KeptOfAll(batches));
  }

  method CollectList(list: BatchList, path: SimdPath, ghost selected: seq<int32>) returns (out: seq<int32>)
    requires list.Valid() && LedgerOf(Listed(list)).selected == selected
    modifies list.Owned
    ensures out == selected
  {
    var sink := new Int32Sink(Listed(list));
    out := sink.Collect(path);
  }

  // ----- cutting into batches does not matter

  /** However rows are cut into batches, a filter selects the passing rows of their concatenation. */
  lemma {:induction false} BatchingIsIrrelevant(op: FilterOp, threshold: int32, batches: seq<Slice>)
    ensures SelectedRows(Filtered(op, threshold, Unfiltered(batches))) == Selected(op, threshold, Flatten(batches))
    ensures RowTotal(Filtered(op, threshold, Unfiltered(batches))) == |Flatten(batches)|
    ensures SelectedRows(Unfiltered(batches)) == Flatten(batches)
  {
    if batches != [] {
      BatchingIsIrrelevant(op, threshold, batches[1..]);
      SelectedConcat(op, threshold, batches[0], Flatten(batches[1..]));
      KeptAll(batches[0]);
      var views := Unfiltered(batches);
      assert views[1..] == Unfiltered(batches[1..]);
      assert Filtered(op, threshold, views)[1..] == Filtered(op, threshold, views[1..]);
    }
  }

  /** A filter on top of another one forgets what the inner one decided. */
  lemma {:induction false} OuterFilterWins(op: FilterOp, threshold: int32,
      inner: FilterOp, innerThreshold: int32, batches: seq<BatchView>)
    ensures Filtered(op, threshold, Filtered(inner, innerThreshold, batches)) == Filtered(op, threshold, batches)
  {
    if batches != [] {
      OuterFilterWins(op, threshold, inner, innerThreshold, batches[1..]);
      assert Filtered(inner, innerThreshold, batches)[1..] == Filtered(inner, innerThreshold, batches[1..]);
    }
  }

  /** No row passes the outer filter, or it asks the same question at least as strictly. */
  predicate AtLeastAsStrict(op: FilterOp, threshold: int32, inner: FilterOp, innerThreshold: int32) {
    match op
    case LessThan => threshold == -0x8000_0000 || (inner == LessThan && threshold <= innerThreshold)
    case GreaterThan => threshold == 0x7FFF_FFFF || (inner == GreaterThan && threshold >= innerThreshold)
  }

  /** On every unfiltered list of batches, the stack selects the rows that pass both filters. */
  ghost predicate FiltersConjoin(op: FilterOp, threshold: int32, inner: FilterOp, innerThreshold: int32) {
    forall batches: seq<Slice> ::
      SelectedRows(Filtered(op, threshold, Filtered(inner, innerThreshold, Unfiltered(batches)))) ==
      Selected(op, threshold, Selected(inner, innerThreshold, Flatten(batches)))
  }

  /**
   Because the inner decisions are forgotten, stacking two filters selects the rows that pass both,
   however they are batched, exactly when the outer filter is at least as strict as the inner one.
   */
  lemma StackingConjoins(op: FilterOp, threshold: int32, inner: FilterOp, innerThreshold: int32)
    ensures FiltersConjoin(op, threshold, inner, innerThreshold) <==>
            AtLeastAsStrict(op, threshold, inner, innerThreshold)
  {
    if AtLeastAsStrict(op, threshold, inner, innerThreshold) {
      hide Filtered, Unfiltered, SelectedRows, Selected, Flatten;
      forall batches: seq<Slice>
        ensures SelectedRows(Filtered(op, threshold, Filtered(inner, innerThreshold, Unfiltered(batches)))) ==
                Selected(op, threshold, Selected(inner, innerThreshold, Flatten(batches)))
      {
        StackSelects(op, threshold, inner, innerThreshold, batches);
        StrictFilterAbsorbs(op, threshold, inner, innerThreshold, Flatten(batches));
      }
    } else {
      StackPassesTooMuch(op, threshold, inner, innerThreshold);
    }
  }

  /** Otherwise some row passes the outer filter only, and the stack selects it. */
  lemma StackPassesTooMuch(op: FilterOp, threshold: int32, inner: FilterOp, innerThreshold: int32)
    requires !AtLeastAsStrict(op, threshold, inner, innerThreshold)
    ensures !FiltersConjoin(op, threshold, inner, innerThreshold)
  {
    var v: int32 :=
      if op == inner then (if op == LessThan then threshold - 1 else threshold + 1)
      else if op == LessThan then -0x8000_0000 else 0x7FFF_FFFF;
    var one: seq<Slice> := [[v]];
    assert Flatten(one) == [v];
    SelectedSingle(op, threshold, v);
    SelectedSingle(inner, innerThreshold, v);
    assert Selected(op, threshold, []) == [];
    hide Filtered, Unfiltered, SelectedRows, Selected, Flatten;
    StackSelects(op, threshold, inner, innerThreshold, one);
  }

  /** What a stack selects is what its outer filter selects. */
  lemma StackSelects(op: FilterOp, threshold: int32, inner: FilterOp, innerThreshold: int32, batches: seq<Slice>)
    ensures SelectedRows(Filtered(op, threshold, Filtered(inner, innerThreshold, Unfiltered(batches)))) ==
            Selected(op, threshold, Flatten(batches))
    ensures RowTotal(Filtered(op, threshold, Filtered(inner, innerThreshold, Unfiltered(batches)))) == |Flatten(batches)|
  {
    OuterFilterWins(op, threshold, inner, innerThreshold, Unfiltered(batches));
    BatchingIsIrrelevant(op, threshold, batches);
  }

  lemma SelectedSingle(op: FilterOp, threshold: int32, v: int32)
    ensures Selected(op, threshold, [v]) == if Passes(op, threshold, v) then [v] else []
  {
    assert [v][..0] == [];
  }

  lemma {:induction false} StrictFilterAbsorbs(op: FilterOp, threshold: int32,
      inner: FilterOp, innerThreshold: int32, rows: seq<int32>)
    requires AtLeastAsStrict(op, threshold, inner, innerThreshold)
    ensures Selected(op, threshold, rows) == Selected(op, threshold, Selected(inner, innerThreshold, rows))
  {
    if rows != [] {
      var n := |rows| - 1;
      var front, last := rows[..n], [rows[n]];
      StrictFilterAbsorbs(op, threshold, inner, innerThreshold, front);
      assert rows == front + last;
      SelectedConcat(op, threshold, front, last);
      SelectedConcat(inner, innerThreshold, front, last);
      SelectedConcat(op, threshold, Selected(inner, innerThreshold, front), Selected(inner, innerThreshold, last));
      SelectedSingle(op, threshold, rows[n]);
      SelectedSingle(inner, innerThreshold, rows[n]);
    }
  }

  // ----- whole queries

  datatype PipelineSpec = PipelineSpec(filterOp: FilterOp, threshold: int32, agg: AggregateKind)

  /** What a query over these rows must answer. */
  function Answer(spec: PipelineSpec, rows: seq<int32>): AggregateResult
    requires SumFits(spec.agg, Selected(spec.filterOp, spec.threshold, rows))
  {
    Fold(spec.agg, Selected(spec.filterOp, spec.threshold, rows))
  }

  /** A filter over a scan selects the passing rows among those the scan delivers. */
  method FilterOver(scan: Int32ColumnScan, op: FilterOp, threshold: int32, ghost rows: seq<int32>)
    returns (filter: Int32Filter)
    requires scan.Valid() && rows == Delivered(scan.Rest(), scan.Broken())
    ensures fresh(filter) && filter.Valid() && filter.Owned == {filter} + scan.Owned
    ensures LedgerOf(Filter(filter)) == Ledger(Selected(op, threshold, rows), |rows|, 0, 0)
  {
    CutsDeliver(scan.Rest(), scan.Broken());
    BatchingIsIrrelevant(op, threshold, Cuts(scan.Rest(), scan.Broken()));
    filter := new Int32Filter(Scan(scan), op, threshold);
  }

  method RunPipeline(scan: Int32ColumnScan, spec: PipelineSpec, path: SimdPath, ghost rows: seq<int32>)
    returns (r: AggregateResult)
    requires scan.Valid() && rows == Delivered(scan.Rest(), scan.Broken())
    requires SumFits(spec.agg, Selected(spec.filterOp, spec.threshold, rows))
    modifies scan.Owned
    ensures r == Answer(spec, rows)
  {
    var filter := FilterOver(scan, spec.filterOp, spec.threshold, rows);
    var agg := new Int32Aggregate(Filter(filter), spec.agg);
    r := agg.Run(path);
  }

  method RunRaw(data: array<int32>, n: nat, spec: PipelineSpec, path: SimdPath) returns (r: AggregateResult)
    requires n <= data.Length
    requires SumFits(spec.agg, Selected(spec.filterOp, spec.threshold, data[..n]))
    ensures r == Answer(spec, data[..n])
  {
    var scan := new Int32ColumnScan.Raw(data, n);
    r := RunPipeline(scan, spec, path, data[..n]);
  }

  method RunColumn(col: Column, spec: PipelineSpec, path: SimdPath) returns (r: AggregateResult)
    requires col.Valid()
    requires SumFits(spec.agg, Selected(spec.filterOp, spec.threshold, ScannedRows(col)))
    ensures r == Answer(spec, ScannedRows(col))
  {
    if col.Encoded? {
      var scan := new Int32ColumnScan.Rle(col.values, col.lengths);
      r := RunPipeline(scan, spec, path, ScannedRows(col));
    } else {
      var scan := new Int32ColumnScan.Raw(col.data, col.data.Length);
      r := RunPipeline(scan, spec, path, ScannedRows(col));
    }
  }

  ghost function ScannedRows(col: Column): seq<int32>
    requires col.Valid()
    reads if col.Raw? then {col.data} else {}
  {
    match col
    case Raw(data) => data[..]
    case Encoded(values, lengths) => Scanned(values, lengths)
  }

  /** Encoding a column changes no answer. */
  lemma EncodingIsInvisible(values: seq<int32>, lengths: seq<uint32>, data: seq<int32>)
    requires Canonical(values, lengths) && Expand(values, lengths) == data
    ensures Scanned(values, lengths) == data
  {
    ScanIsTransparent(values, lengths);
  }

  /** The raw buffer and its encoding give the same answer, whichever kernels either run uses. */
  method RleAndRawAgree(data: array<int32>, spec: PipelineSpec, rawPath: SimdPath, encodedPath: SimdPath)
    returns (raw: AggregateResult, encoded: AggregateResult)
    requires SumFits(spec.agg, Selected(spec.filterOp, spec.threshold, data[..]))
    ensures raw == encoded == Answer(spec, data[..])
  {
    assert data[..data.Length] == data[..];
    raw := RunRaw(data, data.Length, spec, rawPath);
    var column := EncodeColumn(data[..]);
    EncodingIsInvisible(column.values, column.lengths, data[..]);
    encoded := RunColumn(column, spec, encodedPath);
  }

  /** Draining a filter through a sink: the counters account for every row scanned and every row kept. */
  method CollectFiltered(scan: Int32ColumnScan, op: FilterOp, threshold: int32, path: SimdPath, ghost rows: seq<int32>)
    returns (out: seq<int32>, seen: nat, passed: nat)
    requires scan.Valid() && rows == Delivered(scan.Rest(), scan.Broken())
    modifies scan.Owned
    ensures out == Selected(op, threshold, rows)
    ensures seen == |rows| && passed == |out|
  {
    var filter := FilterOver(scan, op, threshold, rows);
    var sink := new Int32Sink(Filter(filter));
    out := sink.Collect(path);
    seen, passed := filter.rowsSeen, filter.rowsPassed;
  }

  /** A filter over a filter over a scan selects the rows that pass the outer one. */
  method StackOver(scan: Int32ColumnScan, op: FilterOp, threshold: int32,
      inner: FilterOp, innerThreshold: int32, ghost rows: seq<int32>) returns (stack: Int32Filter)
    requires scan.Valid() && rows == Delivered(scan.Rest(), scan.Broken())
    ensures fresh(stack) && stack.Valid() && fresh(stack.Owned - scan.Owned)
    ensures LedgerOf(Filter(stack)) == Ledger(Selected(op, threshold, rows), |rows|, 0, 0)
  {
    hide Filtered, Unfiltered, Cuts, SelectedRows, RowTotal;
    CutsDeliver(scan.Rest(), scan.Broken());
    StackSelects(op, threshold, inner, innerThreshold, Cuts(scan.Rest(), scan.Broken()));
    var below := new Int32Filter(Scan(scan), inner, innerThreshold);
    stack := new Int32Filter(Filter(below), op, threshold);
  }

  /** Draining the stack collects a conjunction when the outer filter is at least as strict. */
  method CollectStacked(scan: Int32ColumnScan, op: FilterOp, threshold: int32,
      inner: FilterOp, innerThreshold: int32, path: SimdPath, ghost rows: seq<int32>)
    returns (out: seq<int32>)
    requires scan.Valid() && rows == Delivered(scan.Rest(), scan.Broken())
    modifies scan.Owned
    ensures out == Selected(op, threshold, rows)
    ensures AtLeastAsStrict(op, threshold, inner, innerThreshold) ==>
      out == Selected(op, threshold, Selected(inner, innerThreshold, rows))
  {
    hide Selected, AtLeastAsStrict;
    if AtLeastAsStrict(op, threshold, inner, innerThreshold) {
      StrictFilterAbsorbs(op, threshold, inner, innerThreshold, rows);
    }
    var stack := StackOver(scan, op, threshold, inner, innerThreshold, rows);
    var sink := new Int32Sink(Filter(stack));
    out := sink.Collect(path);
  }

  /** Both pulls of an encoded scan name the scratch buffer, and the second one overwrites the first batch. */
  method PullTwice(scan: Int32ColumnScan) returns (first: Batch, second: Batch)
    requires scan.Valid() && scan.rleMode && |scan.Upcoming()| >= 2
    modifies scan.Owned
    ensures first.data == second.data && first.offset == second.offset
    ensures second.Valid() && second.Rows() == old(scan.Upcoming())[1].rows
  {
    var a := scan.Next();
    var b := scan.Next();
    first, second := a.value, b.value;
  }
}
