/**
 The SQL executor and the vectorised pipeline answer the queries both can express with the same
 integers, as long as double arithmetic is exact on the integers involved.
 */
module CrossEngine {
  import opened Machine
  import Rows
  import P = SqlParser
  import opened SqlExec
  import opened SqlRun
  import Operators
  import Pipeline
  import SqlLexer
  import SqlPrinter
  import opened SqlMeaning
  import opened Binary64

  /** With this many int32 rows every partial sum stays within EXACT. */
  const EXACT_ROWS: nat := 0x40_0000

  function CmpOf(op: Rows.FilterOp): P.CmpOp {
    match op
    case LessThan => P.Lt
    case GreaterThan => P.Gt
  }

  function AggOf(kind: Rows.AggregateKind): P.AggKind {
    match kind
    case Sum => P.Sum
    case Count => P.Count
    case Min => P.Min
    case Max => P.Max
    case Avg => P.Avg
  }

  /** SELECT agg(col) FROM t WHERE col op threshold. */
  function ScanQuery<D>(kind: Rows.AggregateKind, col: string, op: Rows.FilterOp, threshold: int32, alias: string): P.Query<D> {
    P.Query([P.Projection(col, AggOf(kind), alias)], "t", Some(P.Where(col, CmpOf(op), P.IntLit(threshold))), "")
  }

  /** The field of a pipeline result the aggregate asks for, as a result cell. */
  function FieldOf<D>(fp: Arith<D>, r: Rows.AggregateResult): Cell<D> {
    match r.kind
    case Sum => IntCell(r.sum)
    case Count => IntCell(r.count)
    case Min => IntCell(r.min)
    case Max => IntCell(r.max)
    case Avg => DoubleCell(if r.count == 0 then fp.ofInt(0) else fp.div(fp.ofInt(r.sum), fp.ofInt(r.count)))
  }

  /** The values at the listed rows. */
  function ValuesAt(data: seq<int32>, rows: seq<nat>): (vs: seq<int32>)
    requires InRange(rows, |data|)
    ensures |vs| == |rows|
  {
    if rows == [] then []
    else ValuesAt(data, rows[..|rows| - 1]) + [data[rows[|rows| - 1]]]
  }

  lemma ValuesPush(data: seq<int32>, rows: seq<nat>, i: nat)
    requires InRange(rows, |data|) && i < |data|
    ensures ValuesAt(data, rows + [i]) == ValuesAt(data, rows) + [data[i]]
  {
    assert (rows + [i])[..|rows|] == rows;
  }

  /** The rows WHERE keeps are the rows the filter kernel keeps. */
  lemma SameSelection<D>(fp: Arith<D>, data: seq<int32>, op: Rows.FilterOp, threshold: int32)
    requires ExactOnIntegers(fp)
    ensures var w := Some(Filter(Int32s(data), CmpOf(op), P.IntLit(threshold)));
            ValuesAt(data, Matching(fp, w, |data|, |data|)) == Rows.Selected(op, threshold, data)
  {
    var w := Some(Filter(Int32s(data), CmpOf(op), P.IntLit(threshold)));
    forall i | 0 <= i < |data| ensures Keeps(fp, w, i) == Rows.Passes(op, threshold, data[i]) {
      SameTest(fp, data, op, threshold, i);
    }
    SameTestsSelectAlike(fp, w, data, op, threshold, |data|);
    assert data[..|data|] == data;
  }

  lemma {:induction false} SameTestsSelectAlike<D>(fp: Arith<D>, w: Option<Filter<D>>, data: seq<int32>,
      op: Rows.FilterOp, threshold: int32, i: nat)
    requires i <= |data| && FilterFits(w, |data|) && !FilterThrows(w, |data|)
    requires forall j :: 0 <= j < |data| ==> Keeps(fp, w, j) == Rows.Passes(op, threshold, data[j])
    ensures ValuesAt(data, Matching(fp, w, |data|, i)) == Rows.Selected(op, threshold, data[..i])
  {
    if i > 0 {
      SameTestsSelectAlike(fp, w, data, op, threshold, i - 1);
      ValuesPush(data, Matching(fp, w, |data|, i - 1), i - 1);
      SelectedPush(op, threshold, data, i - 1);
    } else {
      assert data[..0] == [];
    }
  }

  lemma SameTest<D>(fp: Arith<D>, data: seq<int32>, op: Rows.FilterOp, threshold: int32, i: nat)
    requires ExactOnIntegers(fp) && i < |data|
    ensures Keeps(fp, Some(Filter(Int32s(data), CmpOf(op), P.IntLit(threshold))), i) == Rows.Passes(op, threshold, data[i])
  {
    assert InExactRange(data[i]) && InExactRange(threshold);
  }

  lemma SelectedPush(op: Rows.FilterOp, threshold: int32, data: seq<int32>, i: nat)
    requires i < |data|
    ensures Rows.Passes(op, threshold, data[i]) ==>
      Rows.Selected(op, threshold, data[..i + 1]) == Rows.Selected(op, threshold, data[..i]) + [data[i]]
    ensures !Rows.Passes(op, threshold, data[i]) ==>
      Rows.Selected(op, threshold, data[..i + 1]) == Rows.Selected(op, threshold, data[..i])
  {
    var v := data[i];
    assert data[..i + 1] == data[..i] + [v];
    Rows.SelectedConcat(op, threshold, data[..i], [v]);
    assert [v][..0] == [];
  }

  // ----- the aggregate states hold integers

  ghost predicate Holds<D>(fp: Arith<D>, kind: Rows.AggregateKind, s: AggState<D>, vs: seq<int32>) {
    && !s.sourceIsDouble
    && s.count == |vs|
    && (kind in {Rows.Sum, Rows.Avg} ==> s.sum == fp.ofInt(Rows.Total(vs)))
    && (kind == Rows.Min ==> s.seen == (vs != []) && s.min == fp.ofInt(if vs == [] then 0 else Rows.Least(vs)))
    && (kind == Rows.Max ==> s.seen == (vs != []) && s.max == fp.ofInt(if vs == [] then 0 else Rows.Greatest(vs)))
  }

  lemma StateStep<D>(fp: Arith<D>, kind: Rows.AggregateKind, s: AggState<D>, vs: seq<int32>, data: seq<int32>, i: nat)
    requires ExactOnIntegers(fp) && Holds(fp, kind, s, vs) && i < |data|
    requires kind in {Rows.Sum, Rows.Avg} ==> |vs| < EXACT_ROWS
    ensures Holds(fp, kind, FoldRow(fp, AggOf(kind), s, Int32s(data), i), vs + [data[i]])
  {
    hide ExactOnIntegers, Rows.Total, Rows.Least, Rows.Greatest;
    var v := data[i];
    Rows.RowsPush(vs, v);
    RangesAreExact(vs, v);
    match kind
    case Sum | Avg => SumStep(fp, s, vs, v);
    case Min | Max => ExtremeStep(fp, vs, v);
    case Count =>
  }

  lemma RangesAreExact(vs: seq<int32>, v: int32)
    ensures InExactRange(v) && (vs != [] ==> InExactRange(Rows.Least(vs)) && InExactRange(Rows.Greatest(vs)))
  {
  }

  lemma SumStep<D>(fp: Arith<D>, s: AggState<D>, vs: seq<int32>, v: int32)
    requires ExactOnIntegers(fp) && s.sum == fp.ofInt(Rows.Total(vs)) && |vs| < EXACT_ROWS
    ensures fp.add(s.sum, fp.ofInt(v)) == fp.ofInt(Rows.Total(vs) + v)
  {
    Rows.TotalBounds(vs);
    assert InExactRange(v) && InExactRange(Rows.Total(vs)) && InExactRange(Rows.Total(vs) + v);
  }

  lemma ExtremeStep<D>(fp: Arith<D>, vs: seq<int32>, v: int32)
    requires ExactOnIntegers(fp)
    ensures vs != [] ==> fp.lt(fp.ofInt(v), fp.ofInt(Rows.Least(vs))) == (v < Rows.Least(vs))
    ensures vs != [] ==> fp.lt(fp.ofInt(Rows.Greatest(vs)), fp.ofInt(v)) == (Rows.Greatest(vs) < v)
  {
    RangesAreExact(vs, v);
  }

  lemma InitHolds<D>(fp: Arith<D>, kind: Rows.AggregateKind)
    ensures Holds(fp, kind, InitState(fp), [])
  {
  }

  lemma {:induction false} StateHolds<D>(fp: Arith<D>, kind: Rows.AggregateKind, data: seq<int32>, rows: seq<nat>)
    requires ExactOnIntegers(fp) && InRange(rows, |data|)
    requires kind in {Rows.Sum, Rows.Avg} ==> |rows| <= EXACT_ROWS
    ensures Holds(fp, kind, FoldRows(fp, AggOf(kind), Int32s(data), rows), ValuesAt(data, rows))
  {
    hide ExactOnIntegers, Holds, FoldRow, AggOf;
    if rows == [] {
      InitHolds(fp, kind);
    } else {
      var n := |rows| - 1;
      StateHolds(fp, kind, data, rows[..n]);
      StateStep(fp, kind, FoldRows(fp, AggOf(kind), Int32s(data), rows[..n]), ValuesAt(data, rows[..n]), data, rows[n]);
    }
  }

  lemma FinalizedIsField<D>(fp: Arith<D>, kind: Rows.AggregateKind, s: AggState<D>, vs: seq<int32>)
    requires ExactOnIntegers(fp) && Holds(fp, kind, s, vs)
    requires kind in {Rows.Sum, Rows.Avg} ==> |vs| <= EXACT_ROWS
    ensures Finalize(fp, AggOf(kind), s) == FieldOf(fp, Rows.Fold(kind, vs))
  {
    hide ExactOnIntegers, Rows.Total, Rows.Least, Rows.Greatest;
    match kind
    case Sum | Avg => Rows.TotalBounds(vs); ReadsBack(fp, Rows.Total(vs));
    case Min => ReadsBack(fp, if vs == [] then 0 else Rows.Least(vs));
    case Max => ReadsBack(fp, if vs == [] then 0 else Rows.Greatest(vs));
    case Count =>
  }

  lemma ReadsBack<D>(fp: Arith<D>, x: int)
    requires ExactOnIntegers(fp) && InExactRange(x)
    ensures fp.toInt(fp.ofInt(x)) == x
  {
  }

  /**
   The two engines agree: on an int32 column, SELECT agg(c) FROM t WHERE c op threshold returns the
   field of the pipeline's answer, including the 0 both report when no row passes.
   */
  lemma EnginesAgree<D>(fp: Arith<D>, table: CsvTable<D>, col: string, data: seq<int32>,
      kind: Rows.AggregateKind, op: Rows.FilterOp, threshold: int32, alias: string)
    requires ExactOnIntegers(fp) && table.Valid()
    requires table.Find(col) == Some(CsvColumn(col, Int32s(data)))
    requires kind in {Rows.Sum, Rows.Avg} ==> |Rows.Selected(op, threshold, data)| <= EXACT_ROWS
    ensures Answer(fp, ScanQuery(kind, col, op, threshold, alias), table) ==
            Some(ResultSet([alias], [[FieldOf(fp, Rows.Fold(kind, Rows.Selected(op, threshold, data)))]]))
  {
    var q: P.Query<D> := ScanQuery(kind, col, op, threshold, alias);
    var w := Some(Filter(Int32s(data), CmpOf(op), P.IntLit(threshold)));
    var rows := Matching(fp, w, |data|, |data|);
    SameSelection(fp, data, op, threshold);
    StateHolds(fp, kind, data, rows);
    FinalizedIsField(fp, kind, FoldRows(fp, AggOf(kind), Int32s(data), rows), ValuesAt(data, rows));
    ScanPlan(fp, table, col, data, kind, op, threshold, alias);
  }

  lemma ScanPlan<D>(fp: Arith<D>, table: CsvTable<D>, col: string, data: seq<int32>,
      kind: Rows.AggregateKind, op: Rows.FilterOp, threshold: int32, alias: string)
    requires table.Valid() && table.Find(col) == Some(CsvColumn(col, Int32s(data)))
    ensures var w := Some(Filter(Int32s(data), CmpOf(op), P.IntLit(threshold)));
            |data| == table.rowCount
            && Answer(fp, ScanQuery(kind, col, op, threshold, alias), table) ==
               Some(ResultSet([alias], [[Finalize(fp, AggOf(kind),
                 FoldRows(fp, AggOf(kind), Int32s(data), Matching(fp, w, |data|, |data|)))]]))
  {
    var q: P.Query<D> := ScanQuery(kind, col, op, threshold, alias);
    OneColumn(table, col, data, q.projections);
    var plan := Resolve(q, table).value;
    assert plan.projections[0].agg != P.NoAgg;
    assert plan.AnyAgg();
    var w := Some(Filter(Int32s(data), CmpOf(op), P.IntLit(threshold)));
    var rows := Matching(fp, w, |data|, |data|);
    assert plan.filter == w && plan.groupCol == None && plan.rowCount == |data|;
    assert !FilterThrows(w, |data|);
    assert Aliases(q.projections) == [alias];
    assert AnswerRows(fp, plan) == Some([AggRow(fp, plan, rows)]);
    assert AggRow(fp, plan, rows) == [Finalize(fp, AggOf(kind), FoldRows(fp, AggOf(kind), Int32s(data), rows))];
  }

  lemma OneColumn<D>(table: CsvTable<D>, col: string, data: seq<int32>, ps: seq<P.Projection>)
    requires table.Valid() && table.Find(col) == Some(CsvColumn(col, Int32s(data)))
    requires |ps| == 1 && ps[0].col == col
    ensures LookUp(table, ps) == Some([Int32s(data)])
  {
    assert ps[..0] == [];
    assert LookUp(table, ps[..0]) == Some([]);
    var none: seq<ColData<D>> := [];
    assert none + [Int32s(data)] == [Int32s(data)];
  }

  // ----- running both

  /** The text SELECT agg(col) FROM t WHERE col op threshold parses to the scan query. */
  lemma ScanTextParses<D>(stod: string -> Option<D>, show: D -> string, kind: Rows.AggregateKind, col: string,
      op: Rows.FilterOp, threshold: int32)
    requires SqlLexer.IsIdentText(col)
    ensures var q: P.Query<D> := ScanQuery(kind, col, op, threshold, SqlPrinter.AggName(AggOf(kind)) + "(" + col + ")");
            P.ParseText(stod, SqlPrinter.PrintQuery(show, q)) == Some(q)
  {
    var q: P.Query<D> := ScanQuery(kind, col, op, threshold, SqlPrinter.AggName(AggOf(kind)) + "(" + col + ")");
    assert q.projections[..0] == [];
    SqlPrinter.ParseUndoesPrint(stod, show, q);
  }

  /** The SQL engine on the text and the pipeline on the buffer: the only cell of the one is the field of the other. */
  method RunBothEngines<D(==)>(fp: Arith<D>, stod: string -> Option<D>, text: string, table: CsvTable<D>,
      col: string, data: array<int32>, kind: Rows.AggregateKind, op: Rows.FilterOp, threshold: int32, alias: string,
      path: Operators.SimdPath)
    returns (sql: Option<ResultSet<D>>, raw: Rows.AggregateResult)
    requires ExactOnIntegers(fp) && table.Valid()
    requires P.ParseText(stod, text) == Some(ScanQuery(kind, col, op, threshold, alias))
    requires table.Find(col) == Some(CsvColumn(col, Int32s(data[..])))
    requires kind in {Rows.Sum, Rows.Avg} ==> |Rows.Selected(op, threshold, data[..])| <= EXACT_ROWS
    ensures raw == Rows.Fold(kind, Rows.Selected(op, threshold, data[..]))
    ensures sql == Some(ResultSet([alias], [[FieldOf(fp, raw)]]))
  {
    hide ExactOnIntegers, Rows.Selected, Rows.Fold, Answer, P.ParseText;
    assert data[..data.Length] == data[..];
    raw := Pipeline.RunRaw(data, data.Length, Pipeline.PipelineSpec(op, threshold, kind), path);
    var q := P.Parse(stod, text);
    sql := Execute(fp, q.value, table);
    EnginesAgree(fp, table, col, data[..], kind, op, threshold, alias);
  }
}
