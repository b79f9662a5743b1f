/**
 The row-at-a-time meaning of a query: keep the rows that pass a predicate and fold them
 one by one.  Batches, bitmaps, lanes and runs do not occur here.
 */
module Rows {
  import opened Machine
  import opened Bitmap

  datatype FilterOp = LessThan | GreaterThan

  datatype AggregateKind = Sum | Count | Min | Max | Avg

  datatype AggregateResult = AggregateResult(
    kind: AggregateKind,
    sum: int64,
    count: nat,
    min: int32,
    max: int32,
    empty: bool)

  predicate Passes(op: FilterOp, threshold: int32, v: int32) {
    match op
    case LessThan => v < threshold
    case GreaterThan => v > threshold
  }

  function Decisions(op: FilterOp, threshold: int32, rows: seq<int32>): seq<bool> {
    seq(|rows|, i requires 0 <= i < |rows| => Passes(op, threshold, rows[i]))
  }

  /** The rows whose decision is true, in order. */
  function Kept<T>(rows: seq<T>, keep: seq<bool>): (r: seq<T>)
    requires |rows| == |keep|
    ensures |r| == Ones(keep)
  {
    if rows == [] then []
    else
      var n := |rows| - 1;
      Kept(rows[..n], keep[..n]) + if keep[n] then [rows[n]] else []
  }

  function Selected(op: FilterOp, threshold: int32, rows: seq<int32>): seq<int32> {
    Kept(rows, Decisions(op, threshold, rows))
  }

  /** The decisions of a batch without selection bitmap. */
  function All(n: nat): seq<bool> { seq(n, i => true) }

  function Total(rows: seq<int32>): int {
    if rows == [] then 0 else Total(rows[..|rows| - 1]) + rows[|rows| - 1]
  }

  function Least(rows: seq<int32>): int32
    requires rows != []
  {
    var n := |rows| - 1;
    if n == 0 || rows[n] < Least(rows[..n]) then rows[n] else Least(rows[..n])
  }

  function Greatest(rows: seq<int32>): int32
    requires rows != []
  {
    var n := |rows| - 1;
    if n == 0 || rows[n] > Greatest(rows[..n]) then rows[n] else Greatest(rows[..n])
  }

  predicate SumFits(kind: AggregateKind, rows: seq<int32>) {
    kind in {Sum, Avg} ==> |rows| <= MAX_ROWS
  }

  /** Folding one selected row into a result. */
  function Step(r: AggregateResult, v: int32): AggregateResult
    requires r.kind in {Sum, Avg} ==> -0x8000_0000_0000_0000 <= r.sum + v < 0x8000_0000_0000_0000
  {
    match r.kind
    case Sum => r.(sum := r.sum + v, count := r.count + 1, empty := false)
    case Avg => r.(sum := r.sum + v, count := r.count + 1, empty := false)
    case Count => r.(count := r.count + 1, empty := false)
    case Min => if r.empty || v < r.min then r.(min := v, empty := false) else r
    case Max => if r.empty || v > r.max then r.(max := v, empty := false) else r
  }

  function Nothing(kind: AggregateKind): AggregateResult {
    AggregateResult(kind, 0, 0, 0, 0, true)
  }

  /** The single fold every pipeline has to reproduce. */
  function Fold(kind: AggregateKind, rows: seq<int32>): (r: AggregateResult)
    requires SumFits(kind, rows)
    ensures r.kind == kind && r.empty == (rows == [])
    ensures kind in {Sum, Avg} ==> r.sum == Total(rows)
    ensures kind in {Sum, Avg} ==> -0x8000_0000 * |rows| <= r.sum <= 0x7FFF_FFFF * |rows|
    ensures kind in {Sum, Avg, Count} ==> r.count == |rows|
    ensures kind == Min && rows != [] ==> r.min == Least(rows)
    ensures kind == Max && rows != [] ==> r.max == Greatest(rows)
    ensures kind !in {Sum, Avg} ==> r.sum == 0
    ensures kind in {Min, Max} ==> r.count == 0
    ensures kind != Min || rows == [] ==> r.min == 0
    ensures kind != Max || rows == [] ==> r.max == 0
  {
    if rows == [] then Nothing(kind)
    else Step(Fold(kind, rows[..|rows| - 1]), rows[|rows| - 1])
  }

  // ----- concatenation

  lemma {:induction false} KeptConcat<T>(a: seq<T>, ka: seq<bool>, b: seq<T>, kb: seq<bool>)
    requires |a| == |ka| && |b| == |kb|
    ensures Kept(a + b, ka + kb) == Kept(a, ka) + Kept(b, kb)
    decreases |b|
  {
    if b == [] {
      assert a + b == a && ka + kb == ka;
    } else {
      hide Kept, Ones;
      var n := |b| - 1;
      KeptConcat(a, ka, b[..n], kb[..n]);
      DropLast(a, b);
      DropLast(ka, kb);
      KeptUnfolds(a + b, ka + kb);
      KeptUnfolds(b, kb);
    }
  }

  lemma DropLast<T>(a: seq<T>, b: seq<T>)
    requires b != []
    ensures (a + b)[..|a + b| - 1] == a + b[..|b| - 1] && (a + b)[|a + b| - 1] == b[|b| - 1]
  {
  }

  lemma KeptUnfolds<T>(rows: seq<T>, keep: seq<bool>)
    requires |rows| == |keep| > 0
    ensures var n := |rows| - 1;
            Kept(rows, keep) == Kept(rows[..n], keep[..n]) + if keep[n] then [rows[n]] else []
  {
  }

  lemma {:induction false} KeptAll<T>(rows: seq<T>)
    ensures Kept(rows, All(|rows|)) == rows
  {
    if rows != [] {
      var n := |rows| - 1;
      KeptAll(rows[..n]);
      assert All(|rows|)[..n] == All(n);
    }
  }

  lemma SelectedConcat(op: FilterOp, threshold: int32, a: seq<int32>, b: seq<int32>)
    ensures Selected(op, threshold, a + b) == Selected(op, threshold, a) + Selected(op, threshold, b)
  {
    assert Decisions(op, threshold, a + b) == Decisions(op, threshold, a) + Decisions(op, threshold, b);
    KeptConcat(a, Decisions(op, threshold, a), b, Decisions(op, threshold, b));
  }

  lemma {:induction false} TotalConcat(a: seq<int32>, b: seq<int32>)
    ensures Total(a + b) == Total(a) + Total(b)
    decreases |b|
  {
    if b == [] {
      assert a + b == a;
    } else {
      TotalConcat(a, b[..|b| - 1]);
      assert (a + b)[..|a + b| - 1] == a + b[..|b| - 1];
    }
  }

  /** What one more row does to the sum and the extremes. */
  lemma RowsPush(rows: seq<int32>, v: int32)
    ensures Total(rows + [v]) == Total(rows) + v
    ensures Least(rows + [v]) == if rows == [] || v < Least(rows) then v else Least(rows)
    ensures Greatest(rows + [v]) == if rows == [] || v > Greatest(rows) then v else Greatest(rows)
  {
    var r := rows + [v];
    assert r[..|rows|] == rows && r[|rows|] == v;
  }

  // ----- what the extremes mean

  /** Least is a row of the input below which no row lies; Greatest is its mirror image. */
  lemma {:induction false} ExtremesAreRows(rows: seq<int32>)
    requires rows != []
    ensures Least(rows) in rows && Greatest(rows) in rows
    ensures forall i :: 0 <= i < |rows| ==> Least(rows) <= rows[i] <= Greatest(rows)
  {
    if |rows| > 1 {
      ExtremesAreRows(rows[..|rows| - 1]);
      assert forall i :: 0 <= i < |rows| - 1 ==> rows[i] == rows[..|rows| - 1][i];
    }
  }

  lemma ExtremesConcat(a: seq<int32>, b: seq<int32>)
    requires a != [] && b != []
    ensures Least(a + b) == if Least(b) < Least(a) then Least(b) else Least(a)
    ensures Greatest(a + b) == if Greatest(b) > Greatest(a) then Greatest(b) else Greatest(a)
  {
    ExtremesAreRows(a);
    ExtremesAreRows(b);
    ExtremesAreRows(a + b);
    SameExtremes(a, b);
  }

  lemma SameExtremes(a: seq<int32>, b: seq<int32>)
    requires a != [] && b != []
    requires Least(a) in a && Least(b) in b && Least(a + b) in a + b
    requires Greatest(a) in a && Greatest(b) in b && Greatest(a + b) in a + b
    requires forall i :: 0 <= i < |a| ==> Least(a) <= a[i] <= Greatest(a)
    requires forall i :: 0 <= i < |b| ==> Least(b) <= b[i] <= Greatest(b)
    requires forall i :: 0 <= i < |a + b| ==> Least(a + b) <= (a + b)[i] <= Greatest(a + b)
    ensures Least(a + b) == if Least(b) < Least(a) then Least(b) else Least(a)
    ensures Greatest(a + b) == if Greatest(b) > Greatest(a) then Greatest(b) else Greatest(a)
  {
    assert Least(a) in a + b && Least(b) in a + b;
    assert Greatest(a) in a + b && Greatest(b) in a + b;
  }

  // ----- the int64 bound

  function Copies(v: int32, n: nat): seq<int32> { seq(n, i => v) }

  lemma {:induction false} TotalOfCopies(v: int32, n: nat)
    ensures Total(Copies(v, n)) == v * n
  {
    if n > 0 {
      TotalOfCopies(v, n - 1);
      assert Copies(v, n)[..n - 1] == Copies(v, n - 1);
      assert v * n == v * (n - 1) + v;
    }
  }

  lemma {:induction false} TotalBounds(rows: seq<int32>)
    ensures -0x8000_0000 * |rows| <= Total(rows) <= 0x7FFF_FFFF * |rows|
  {
    if rows != [] {
      TotalBounds(rows[..|rows| - 1]);
    }
  }

  /**
   MAX_ROWS is tight: up to MAX_ROWS rows the sum of every prefix is an int64, MAX_ROWS rows of
   the smallest int32 reach the smallest int64 exactly, and one more such row leaves the range.
   */
  lemma MaxRowsIsTight(rows: seq<int32>, i: nat)
    requires i <= |rows| <= MAX_ROWS
    ensures -0x8000_0000_0000_0000 <= Total(rows[..i]) < 0x8000_0000_0000_0000
    ensures Total(Copies(-0x8000_0000, MAX_ROWS)) == -0x8000_0000_0000_0000
    ensures Total(Copies(-0x8000_0000, MAX_ROWS + 1)) < -0x8000_0000_0000_0000
  {
    TotalBounds(rows[..i]);
    TotalOfCopies(-0x8000_0000, MAX_ROWS);
    TotalOfCopies(-0x8000_0000, MAX_ROWS + 1);
  }
}
