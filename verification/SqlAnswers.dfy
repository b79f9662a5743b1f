/**
 The answer of a statement in terms of the table alone: which columns its names denote, which rows
 pass WHERE, and what each cell holds.  Nothing here names the functions the executor is made of,
 apart from the answer itself and the test of one row.
 */
module SqlAnswers {
  import opened Machine
  import opened Decimal
  import opened SqlParser
  import opened SqlExec
  import opened SqlRun
  import opened Binary64
  import opened SqlMeaning

  // ----- names

  /** Column j is the first one of that name. */
  ghost predicate FirstNamed<D>(table: CsvTable<D>, name: string, j: nat) {
    && j < |table.cols| && table.cols[j].name == name
    && forall i :: 0 <= i < j ==> table.cols[i].name != name
  }

  ghost predicate Named<D>(table: CsvTable<D>, name: string) {
    exists j: nat :: j < |table.cols| && table.cols[j].name == name
  }

  lemma {:induction false} FindFromIsFirst<D>(table: CsvTable<D>, name: string, i: nat)
    requires i <= |table.cols| && forall h :: 0 <= h < i ==> table.cols[h].name != name
    ensures table.FindFrom(name, i).Some? <==> Named(table, name)
    ensures forall j: nat :: FirstNamed(table, name, j) ==> table.FindFrom(name, i) == Some(table.cols[j])
    ensures Named(table, name) ==> exists j: nat :: FirstNamed(table, name, j)
    decreases |table.cols| - i
  {
    if i < |table.cols| && table.cols[i].name != name {
      FindFromIsFirst(table, name, i + 1);
    } else if i < |table.cols| {
      assert FirstNamed(table, name, i);
    }
  }

  /** find() returns the first column of that name, and fails exactly when there is none. */
  lemma FindIsFirst<D>(table: CsvTable<D>, name: string)
    ensures table.Find(name).Some? <==> Named(table, name)
    ensures forall j: nat :: FirstNamed(table, name, j) ==> table.Find(name) == Some(table.cols[j])
    ensures Named(table, name) ==> exists j: nat :: FirstNamed(table, name, j)
  {
    FindFromIsFirst(table, name, 0);
  }

  ghost predicate AllNamed<D>(table: CsvTable<D>, ps: seq<Projection>) {
    forall k :: 0 <= k < |ps| ==> Named(table, ps[k].col)
  }

  lemma {:induction false} LookUpIsFirst<D>(table: CsvTable<D>, ps: seq<Projection>)
    requires table.Valid()
    ensures LookUp(table, ps).Some? <==> AllNamed(table, ps)
    ensures LookUp(table, ps).Some? ==>
      forall k, j: nat :: 0 <= k < |ps| && FirstNamed(table, ps[k].col, j) ==>
        LookUp(table, ps).value[k] == table.cols[j].data
  {
    hide FirstNamed, Named;
    if ps != [] {
      var n := |ps| - 1;
      LookUpIsFirst(table, ps[..n]);
      FindIsFirst(table, ps[n].col);
      assert forall k :: 0 <= k < n ==> ps[..n][k] == ps[k];
    }
  }

  /** Every name of the statement occurs in the table. */
  ghost predicate Resolves<D>(q: Query<D>, table: CsvTable<D>) {
    && AllNamed(table, q.projections)
    && (q.where.Some? ==> Named(table, q.where.value.col))
    && (q.groupBy != "" ==> Named(table, q.groupBy))
  }

  /** Each name of a statement denotes the first column of that name; resolution fails exactly when a name has none. */
  lemma ResolveIsExact<D>(q: Query<D>, table: CsvTable<D>)
    requires table.Valid()
    ensures Resolve(q, table).Some? <==> Resolves(q, table)
    ensures Resolve(q, table).Some? ==>
      var plan := Resolve(q, table).value;
      && plan.projections == q.projections && plan.groupBy == q.groupBy && plan.rowCount == table.rowCount
      && (forall k, j: nat :: 0 <= k < |q.projections| && FirstNamed(table, q.projections[k].col, j) ==>
           plan.cols[k] == table.cols[j].data)
      && (q.where.None? ==> plan.filter == None)
      && (q.where.Some? ==> forall j: nat :: FirstNamed(table, q.where.value.col, j) ==>
           plan.filter == Some(Filter(table.cols[j].data, q.where.value.op, q.where.value.value)))
      && (q.groupBy == "" ==> plan.groupCol == None)
      && (q.groupBy != "" ==> forall j: nat :: FirstNamed(table, q.groupBy, j) ==>
           plan.groupCol == Some(table.cols[j].data))
  {
    LookUpIsFirst(table, q.projections);
    if q.where.Some? {
      FindIsFirst(table, q.where.value.col);
    }
    if q.groupBy != "" {
      FindIsFirst(table, q.groupBy);
    }
    hide LookUp, FirstNamed, Named, AllNamed;
  }

  // ----- the rows a statement is about

  /** Row i passes the WHERE test, on the first column of that name. */
  ghost predicate RowPasses<D>(fp: Arith<D>, q: Query<D>, table: CsvTable<D>, i: nat)
    requires table.Valid() && i < table.rowCount
  {
    match q.where
    case None => true
    case Some(Where(col, op, value)) =>
      exists j: nat :: FirstNamed(table, col, j) && Comparable(table.cols[j].data, value)
                       && RowMatches(fp, table.cols[j].data, i, op, value)
  }

  /** The list holds exactly the rows that pass, in row order. */
  ghost predicate Selects<D>(fp: Arith<D>, q: Query<D>, table: CsvTable<D>, rows: seq<nat>)
    requires table.Valid()
  {
    && Increasing(rows)
    && InRange(rows, table.rowCount)
    && forall i: nat :: i < table.rowCount ==> (i in rows <==> RowPasses(fp, q, table, i))
  }

  lemma {:induction false} IncreasingIsUnique(a: seq<nat>, b: seq<nat>)
    requires Increasing(a) && Increasing(b) && forall i: nat :: i in a <==> i in b
    ensures a == b
    decreases |a|
  {
    if a == [] {
      SomeMember(b);
    } else {
      var m, n := |a| - 1, |b| - 1;
      assert a[m] in b && (b == [] || b[n] in a);
      SameLast(a, b);
      forall i: nat ensures i in a[..m] <==> i in b[..n] {
        InFront(a, i);
        InFront(b, i);
      }
      IncreasingIsUnique(a[..m], b[..n]);
      assert a == a[..m] + [a[m]] && b == b[..n] + [b[n]];
    }
  }

  lemma SomeMember(b: seq<nat>)
    ensures b == [] || b[0] in b
  {
  }

  lemma SameLast(a: seq<nat>, b: seq<nat>)
    requires Increasing(a) && Increasing(b) && a != [] && b != [] && a[|a| - 1] in b && b[|b| - 1] in a
    ensures a[|a| - 1] == b[|b| - 1]
  {
    var i :| 0 <= i < |b| && b[i] == a[|a| - 1];
    var j :| 0 <= j < |a| && a[j] == b[|b| - 1];
  }

  lemma InFront(a: seq<nat>, i: nat)
    requires Increasing(a) && a != []
    ensures i in a[..|a| - 1] <==> i in a && i != a[|a| - 1]
  {
    assert a == a[..|a| - 1] + [a[|a| - 1]];
  }

  /** The executor's matching rows are the only list of that kind. */
  lemma MatchingSelects<D>(fp: Arith<D>, q: Query<D>, table: CsvTable<D>)
    requires table.Valid() && Resolve(q, table).Some?
    requires !FilterThrows(Resolve(q, table).value.filter, table.rowCount)
    ensures var rows := Matching(fp, Resolve(q, table).value.filter, table.rowCount, table.rowCount);
            Selects(fp, q, table, rows) && forall other :: Selects(fp, q, table, other) ==> other == rows
  {
    var w := Resolve(q, table).value.filter;
    var n := table.rowCount;
    var rows := Matching(fp, w, n, n);
    MatchingIsExact(fp, w, n, n);
    forall i: nat | i < n ensures i in rows <==> RowPasses(fp, q, table, i) {
      KeepsIsPasses(fp, q, table, i);
    }
    hide RowPasses, Matching, Resolve;
    forall other | Selects(fp, q, table, other) ensures other == rows {
      forall i: nat ensures i in other <==> i in rows {
      }
      IncreasingIsUnique(other, rows);
    }
  }

  lemma KeepsIsPasses<D>(fp: Arith<D>, q: Query<D>, table: CsvTable<D>, i: nat)
    requires table.Valid() && Resolve(q, table).Some? && i < table.rowCount
    requires !FilterThrows(Resolve(q, table).value.filter, table.rowCount)
    ensures Keeps(fp, Resolve(q, table).value.filter, i) <==> RowPasses(fp, q, table, i)
  {
    ResolveIsExact(q, table);
    hide Resolve, FirstNamed, RowMatches;
    if q.where.Some? {
      FindIsFirst(table, q.where.value.col);
    }
  }

  // ----- when there is an answer

  /** WHERE compares a string column with a number, or a numeric column with a string. */
  ghost predicate Mismatched<D>(q: Query<D>, table: CsvTable<D>) {
    && q.where.Some?
    && exists j: nat :: FirstNamed(table, q.where.value.col, j)
                        && (table.cols[j].data.Strings? != q.where.value.value.StrLit?)
  }

  /** A GROUP BY statement projects a column other than the one it groups by. */
  ghost predicate Ungroupable<D>(q: Query<D>) {
    q.groupBy != "" && exists k :: 0 <= k < |q.projections| && q.projections[k].agg == NoAgg && q.projections[k].col != q.groupBy
  }

  lemma MismatchThrows<D>(q: Query<D>, table: CsvTable<D>)
    requires table.Valid() && Resolve(q, table).Some?
    ensures FilterThrows(Resolve(q, table).value.filter, table.rowCount) <==> table.rowCount > 0 && Mismatched(q, table)
  {
    ResolveIsExact(q, table);
    hide Resolve, FirstNamed;
    if q.where.Some? {
      FindIsFirst(table, q.where.value.col);
    }
  }

  /**
   Execution fails exactly when a name has no column, when WHERE compares a string with a number and
   there is a row to compare, or when a row passes and a projection cannot be shown for its group.
   */
  lemma AnswerFails<D>(fp: Arith<D>, q: Query<D>, table: CsvTable<D>)
    requires table.Valid()
    ensures Answer(fp, q, table).None? <==>
            || !Resolves(q, table)
            || (table.rowCount > 0 && Mismatched(q, table))
            || (Ungroupable(q) && exists i: nat :: i < table.rowCount && RowPasses(fp, q, table, i))
  {
    ResolveIsExact(q, table);
    if Resolve(q, table).Some? {
      MismatchThrows(q, table);
      hide Mismatched;
      var plan := Resolve(q, table).value;
      if !FilterThrows(plan.filter, table.rowCount) {
        MatchingSelects(fp, q, table);
        var rows := Matching(fp, plan.filter, table.rowCount, table.rowCount);
        SomePass(fp, q, table, rows);
        if q.groupBy != "" {
          SomeKeys(fp, plan.groupCol.value, rows);
          assert GroupThrows(plan) <==> Ungroupable(q);
        }
        hide Resolve, Resolves, RowPasses, Selects, Ungroupable, GroupThrows;
      }
    }
  }

  lemma SomePass<D>(fp: Arith<D>, q: Query<D>, table: CsvTable<D>, rows: seq<nat>)
    requires table.Valid() && Selects(fp, q, table, rows)
    ensures rows != [] <==> exists i: nat :: i < table.rowCount && RowPasses(fp, q, table, i)
  {
    hide RowPasses;
    if rows != [] {
      assert rows[0] in rows;
    }
  }

  lemma SomeKeys<D>(fp: Arith<D>, gb: ColData<D>, rows: seq<nat>)
    requires InRange(rows, gb.Length())
    ensures KeysOf(fp, gb, rows) != [] <==> rows != []
  {
    KeysAreExact(fp, gb, rows);
    hide CellKey, RowsOf, Insert;
    if rows != [] {
      assert CellKey(fp, gb, rows[0]) in KeysOf(fp, gb, rows);
    }
  }

  /** The header names the projections in order. */
  lemma ColumnNames<D>(fp: Arith<D>, q: Query<D>, table: CsvTable<D>)
    requires table.Valid() && Answer(fp, q, table).Some?
    ensures |Answer(fp, q, table).value.columnNames| == |q.projections|
    ensures forall k :: 0 <= k < |q.projections| ==>
      Answer(fp, q, table).value.columnNames[k] == q.projections[k].alias
  {
  }

  // ----- plain statements

  /** The cell holds what the column stores in row i. */
  predicate Shows<D(==)>(cell: Cell<D>, c: ColData<D>, i: nat)
    requires i < c.Length()
  {
    match c
    case Int32s(s) => cell == IntCell(s[i])
    case Int64s(s) => cell == IntCell(s[i])
    case Doubles(s) => cell == DoubleCell(s[i])
    case Strings(s) => cell == StringCell(s[i])
  }

  lemma CellShows<D>(c: ColData<D>, i: nat)
    requires i < c.Length()
    ensures Shows(ColumnCell(c, i), c, i)
    ensures forall cell: Cell<D> :: Shows(cell, c, i) ==> cell == ColumnCell(c, i)
  {
  }

  /**
   Without aggregate and GROUP BY there is one row for each matching row, in order, and its cell k
   holds what the first column of the k-th projection's name stores there.
   */
  lemma PlainAnswer<D>(fp: Arith<D>, q: Query<D>, table: CsvTable<D>, rows: seq<nat>)
    requires table.Valid() && Answer(fp, q, table).Some? && Selects(fp, q, table, rows)
    requires q.groupBy == "" && forall k :: 0 <= k < |q.projections| ==> q.projections[k].agg == NoAgg
    ensures var out := Answer(fp, q, table).value.rows;
            && |out| == |rows|
            && (forall r :: 0 <= r < |out| ==> |out[r]| == |q.projections|)
            && forall r, k, j: nat ::
                 0 <= r < |out| && 0 <= k < |q.projections| && FirstNamed(table, q.projections[k].col, j) ==>
                   Shows(out[r][k], table.cols[j].data, rows[r])
  {
    ResolveIsExact(q, table);
    MatchingSelects(fp, q, table);
    var plan := Resolve(q, table).value;
    assert !plan.AnyAgg();
    var out := Answer(fp, q, table).value.rows;
    assert out == PlainRows(plan, rows);
    hide Resolve, Selects, Matching, Answer;
    forall r, k, j: nat | 0 <= r < |out| && 0 <= k < |q.projections| && FirstNamed(table, q.projections[k].col, j)
      ensures Shows(out[r][k], table.cols[j].data, rows[r])
    {
      CellShows(table.cols[j].data, rows[r]);
    }
  }

  // ----- aggregates

  /** The doubles of the listed rows, in order. */
  function Numbers<D>(fp: Arith<D>, c: ColData<D>, rows: seq<nat>): seq<D>
    requires InRange(rows, c.Length())
  {
    seq(|rows|, i requires 0 <= i < |rows| => NumberAt(fp, c, rows[i]))
  }

  /** Added from left to right, starting at zero. */
  function SumOf<D>(fp: Arith<D>, vs: seq<D>): D {
    if vs == [] then fp.ofInt(0) else fp.add(SumOf(fp, vs[..|vs| - 1]), vs[|vs| - 1])
  }

  /** The first value no later one is below. */
  function MinOf<D>(fp: Arith<D>, vs: seq<D>): D
    requires vs != []
  {
    var n := |vs| - 1;
    if n > 0 && !fp.lt(vs[n], MinOf(fp, vs[..n])) then MinOf(fp, vs[..n]) else vs[n]
  }

  /** The first value that is below no later one. */
  function MaxOf<D>(fp: Arith<D>, vs: seq<D>): D
    requires vs != []
  {
    var n := |vs| - 1;
    if n > 0 && !fp.lt(MaxOf(fp, vs[..n]), vs[n]) then MaxOf(fp, vs[..n]) else vs[n]
  }

  /** A double is shown as it is for a double column with at least one matching row, else as an integer. */
  function NumberCell<D>(fp: Arith<D>, c: ColData<D>, rows: seq<nat>, d: D): Cell<D> {
    if c.Doubles? && rows != [] then DoubleCell(d) else IntCell(fp.toInt(d))
  }

  ghost function KeySet<D>(fp: Arith<D>, c: ColData<D>, rows: seq<nat>): set<string>
    requires InRange(rows, c.Length())
  {
    set i | 0 <= i < |rows| :: CellKey(fp, c, rows[i])
  }

  /** What an aggregate reports about the listed rows of a column. */
  ghost predicate Reports<D>(fp: Arith<D>, kind: AggKind, c: ColData<D>, rows: seq<nat>, cell: Cell<D>)
    requires InRange(rows, c.Length())
  {
    var vs := Numbers(fp, c, rows);
    match kind
    case Sum => cell == NumberCell(fp, c, rows, SumOf(fp, vs))
    case Avg => cell == DoubleCell(if rows == [] then fp.ofInt(0) else fp.div(SumOf(fp, vs), fp.ofInt(|rows|)))
    case Count => cell == IntCell(|rows|)
    case Min => cell == NumberCell(fp, c, rows, if rows == [] then fp.ofInt(0) else MinOf(fp, vs))
    case Max => cell == NumberCell(fp, c, rows, if rows == [] then fp.ofInt(0) else MaxOf(fp, vs))
    case CountDistinct => cell == IntCell(|KeySet(fp, c, rows)|)
    case NoAgg => cell == IntCell(0)
  }

  /** The state after the listed rows, field by field. */
  ghost predicate StateIs<D>(fp: Arith<D>, kind: AggKind, c: ColData<D>, rows: seq<nat>, s: AggState<D>)
    requires InRange(rows, c.Length())
  {
    var vs := Numbers(fp, c, rows);
    && s.sourceIsDouble == (c.Doubles? && rows != [])
    && (kind in {Sum, Avg} ==> s.sum == SumOf(fp, vs))
    && (kind in {Sum, Avg, Count} ==> s.count == |rows|)
    && (kind == Min ==> s.seen == (rows != []) && s.min == if rows == [] then fp.ofInt(0) else MinOf(fp, vs))
    && (kind == Max ==> s.seen == (rows != []) && s.max == if rows == [] then fp.ofInt(0) else MaxOf(fp, vs))
    && (kind == CountDistinct ==> s.distinct == KeySet(fp, c, rows))
  }

  lemma NumbersPush<D>(fp: Arith<D>, c: ColData<D>, rows: seq<nat>)
    requires InRange(rows, c.Length()) && rows != []
    ensures var n, vs := |rows| - 1, Numbers(fp, c, rows);
            vs != [] && vs[..|vs| - 1] == Numbers(fp, c, rows[..n]) && vs[|vs| - 1] == NumberAt(fp, c, rows[n])
  {
  }

  lemma KeySetPush<D>(fp: Arith<D>, c: ColData<D>, rows: seq<nat>)
    requires InRange(rows, c.Length()) && rows != []
    ensures KeySet(fp, c, rows) == KeySet(fp, c, rows[..|rows| - 1]) + {CellKey(fp, c, rows[|rows| - 1])}
  {
    var n := |rows| - 1;
    forall k | k in KeySet(fp, c, rows) ensures k in KeySet(fp, c, rows[..n]) + {CellKey(fp, c, rows[n])} {
      var i :| 0 <= i < |rows| && k == CellKey(fp, c, rows[i]);
      if i < n {
        assert k == CellKey(fp, c, rows[..n][i]);
      }
    }
    forall k | k in KeySet(fp, c, rows[..n]) ensures k in KeySet(fp, c, rows) {
      var i :| 0 <= i < n && k == CellKey(fp, c, rows[..n][i]);
      assert k == CellKey(fp, c, rows[i]);
    }
  }

  lemma StatePush<D>(fp: Arith<D>, kind: AggKind, c: ColData<D>, rows: seq<nat>, s: AggState<D>)
    requires InRange(rows, c.Length()) && rows != [] && StateIs(fp, kind, c, rows[..|rows| - 1], s)
    ensures StateIs(fp, kind, c, rows, FoldRow(fp, kind, s, c, rows[|rows| - 1]))
  {
    NumbersPush(fp, c, rows);
    KeySetPush(fp, c, rows);
    var i := rows[|rows| - 1];
    assert !c.Strings? ==> ToDouble(fp, c, i) == NumberAt(fp, c, i);
    hide KeySet, CellKey, Numbers, ToDouble;
  }

  lemma {:induction false} FoldIsState<D>(fp: Arith<D>, kind: AggKind, c: ColData<D>, rows: seq<nat>)
    requires InRange(rows, c.Length())
    ensures StateIs(fp, kind, c, rows, FoldRows(fp, kind, c, rows))
  {
    if rows != [] {
      FoldIsState(fp, kind, c, rows[..|rows| - 1]);
      StatePush(fp, kind, c, rows, FoldRows(fp, kind, c, rows[..|rows| - 1]));
      hide StateIs, FoldRow;
    }
  }

  /** Every aggregate, on every kind of column, reports what it should about any list of rows. */
  lemma AggregateReports<D>(fp: Arith<D>, kind: AggKind, c: ColData<D>, rows: seq<nat>)
    requires InRange(rows, c.Length())
    ensures Reports(fp, kind, c, rows, Finalize(fp, kind, FoldRows(fp, kind, c, rows)))
  {
    FoldIsState(fp, kind, c, rows);
    hide FoldRows, SumOf, MinOf, MaxOf, KeySet, Numbers;
  }

  /**
   With an aggregate and without GROUP BY there is one row, and its cell k is what the k-th aggregate
   reports about the matching rows of the first column of its name.
   */
  lemma AggregateAnswer<D>(fp: Arith<D>, q: Query<D>, table: CsvTable<D>, rows: seq<nat>)
    requires table.Valid() && Answer(fp, q, table).Some? && Selects(fp, q, table, rows)
    requires q.groupBy == "" && exists k :: 0 <= k < |q.projections| && q.projections[k].agg != NoAgg
    ensures var out := Answer(fp, q, table).value.rows;
            && |out| == 1 && |out[0]| == |q.projections|
            && forall k, j: nat :: 0 <= k < |q.projections| && FirstNamed(table, q.projections[k].col, j) ==>
                 Reports(fp, q.projections[k].agg, table.cols[j].data, rows, out[0][k])
  {
    ResolveIsExact(q, table);
    MatchingSelects(fp, q, table);
    var plan := Resolve(q, table).value;
    assert plan.AnyAgg();
    var out := Answer(fp, q, table).value.rows;
    assert out == [AggRow(fp, plan, rows)];
    hide Resolve, Selects, Matching, Answer, Finalize, FoldRows, Reports;
    forall k, j: nat | 0 <= k < |q.projections| && FirstNamed(table, q.projections[k].col, j)
      ensures Reports(fp, q.projections[k].agg, table.cols[j].data, rows, out[0][k])
    {
      AggregateReports(fp, q.projections[k].agg, table.cols[j].data, rows);
    }
  }

  // ----- integer sums

  function IntSum(vs: seq<int>): int {
    if vs == [] then 0 else IntSum(vs[..|vs| - 1]) + vs[|vs| - 1]
  }

  function Integers<D>(c: ColData<D>, rows: seq<nat>): seq<int>
    requires IsInteger(c) && InRange(rows, c.Length())
  {
    seq(|rows|, i requires 0 <= i < |rows| => IntAt(c, rows[i]))
  }

  /** No value and no partial sum leaves the range in which doubles are exact. */
  predicate SumsAreExact(vs: seq<int>) {
    && (forall i :: 0 <= i < |vs| ==> InExactRange(vs[i]))
    && (forall i :: 0 <= i <= |vs| ==> InExactRange(IntSum(vs[..i])))
  }

  lemma {:induction false} SumOfIntegers<D>(fp: Arith<D>, c: ColData<D>, rows: seq<nat>)
    requires ExactOnIntegers(fp) && IsInteger(c) && InRange(rows, c.Length()) && SumsAreExact(Integers(c, rows))
    ensures SumOf(fp, Numbers(fp, c, rows)) == fp.ofInt(IntSum(Integers(c, rows)))
    ensures InExactRange(IntSum(Integers(c, rows)))
  {
    if rows == [] {
      assert InExactRange(0);
    } else {
      var n, vs := |rows| - 1, Integers(c, rows);
      NumbersPush(fp, c, rows);
      IntegersPush(fp, c, rows);
      PrefixIsExact(vs, n);
      SumOfIntegers(fp, c, rows[..n]);
      hide SumsAreExact, Numbers, Integers, ExactOnIntegers;
      WholeIsExact(vs);
      AddsExactly(fp, IntSum(vs[..n]), vs[n]);
    }
  }

  lemma IntegersPush<D>(fp: Arith<D>, c: ColData<D>, rows: seq<nat>)
    requires InRange(rows, c.Length()) && rows != [] && IsInteger(c)
    ensures var n, vs := |rows| - 1, Integers(c, rows);
            |vs| == |rows| && vs[..n] == Integers(c, rows[..n]) && NumberAt(fp, c, rows[n]) == fp.ofInt(vs[n])
  {
  }

  lemma WholeIsExact(vs: seq<int>)
    requires SumsAreExact(vs) && vs != []
    ensures InExactRange(vs[|vs| - 1]) && InExactRange(IntSum(vs))
  {
    assert vs[..|vs|] == vs;
  }

  lemma PrefixIsExact(vs: seq<int>, n: nat)
    requires n <= |vs| && SumsAreExact(vs)
    ensures SumsAreExact(vs[..n])
  {
    hide IntSum;
    forall i | 0 <= i <= n ensures InExactRange(IntSum(vs[..n][..i])) {
      assert vs[..n][..i] == vs[..i];
    }
  }

  lemma AddsExactly<D>(fp: Arith<D>, x: int, y: int)
    requires ExactOnIntegers(fp) && InExactRange(x) && InExactRange(y) && InExactRange(x + y)
    ensures fp.add(fp.ofInt(x), fp.ofInt(y)) == fp.ofInt(x + y)
  {
  }

  /** While all partial sums are exact, SUM over an int32 or int64 column is the integer sum, and AVG divides it by the count. */
  lemma IntegerSums<D>(fp: Arith<D>, c: ColData<D>, rows: seq<nat>, sum: Cell<D>, avg: Cell<D>)
    requires ExactOnIntegers(fp) && IsInteger(c) && InRange(rows, c.Length()) && SumsAreExact(Integers(c, rows))
    requires Reports(fp, Sum, c, rows, sum) && Reports(fp, Avg, c, rows, avg)
    ensures sum == IntCell(IntSum(Integers(c, rows)))
    ensures rows != [] ==> avg == DoubleCell(fp.div(fp.ofInt(IntSum(Integers(c, rows))), fp.ofInt(|rows|)))
  {
    SumOfIntegers(fp, c, rows);
    hide SumOf, Numbers, IntSum, Integers;
  }
}
