/**
 What GROUP BY means: every group is answered as the ungrouped statement over its own rows, the
 groups partition the matching rows, and keys stand for values.
 */
module GroupBy {
  import opened Machine
  import opened Decimal
  import opened SqlParser
  import opened SqlExec
  import opened SqlRun
  import opened SqlMeaning
  import opened SqlAnswers

  // ----- the table that holds just the listed rows

  function Pick<D>(c: ColData<D>, rows: seq<nat>): (r: ColData<D>)
    requires InRange(rows, c.Length())
    ensures r.Length() == |rows|
  {
    match c
    case Int32s(s) => Int32s(seq(|rows|, i requires 0 <= i < |rows| => s[rows[i]]))
    case Int64s(s) => Int64s(seq(|rows|, i requires 0 <= i < |rows| => s[rows[i]]))
    case Doubles(s) => Doubles(seq(|rows|, i requires 0 <= i < |rows| => s[rows[i]]))
    case Strings(s) => Strings(seq(|rows|, i requires 0 <= i < |rows| => s[rows[i]]))
  }

  function Restrict<D>(table: CsvTable<D>, rows: seq<nat>): (r: CsvTable<D>)
    requires table.Valid() && InRange(rows, table.rowCount)
    ensures r.Valid() && r.rowCount == |rows|
  {
    CsvTable(
      seq(|table.cols|, i requires 0 <= i < |table.cols| =>
        CsvColumn(table.cols[i].name, Pick(table.cols[i].data, rows))),
      |rows|)
  }

  lemma {:induction false} FindRestricted<D>(table: CsvTable<D>, rows: seq<nat>, name: string, i: nat)
    requires table.Valid() && InRange(rows, table.rowCount)
    ensures match table.FindFrom(name, i)
            case None => Restrict(table, rows).FindFrom(name, i) == None
            case Some(c) => c in table.cols && Restrict(table, rows).FindFrom(name, i) == Some(CsvColumn(c.name, Pick(c.data, rows)))
    decreases |table.cols| - i
  {
    if i < |table.cols| && table.cols[i].name != name {
      FindRestricted(table, rows, name, i + 1);
    }
  }

  lemma {:induction false} LookUpRestricted<D>(table: CsvTable<D>, rows: seq<nat>, ps: seq<Projection>)
    requires table.Valid() && InRange(rows, table.rowCount) && LookUp(table, ps).Some?
    ensures LookUp(Restrict(table, rows), ps).Some?
    ensures forall k :: 0 <= k < |ps| ==>
      LookUp(Restrict(table, rows), ps).value[k] == Pick(LookUp(table, ps).value[k], rows)
  {
    if ps != [] {
      var n := |ps| - 1;
      LookUpRestricted(table, rows, ps[..n]);
      FindRestricted(table, rows, ps[n].col, 0);
    }
  }

  // ----- folding the restricted table

  function Iota(n: nat): (r: seq<nat>)
    ensures InRange(r, n)
  {
    seq(n, i => i)
  }

  lemma {:induction false} MatchingEverything<D>(fp: Arith<D>, n: nat, i: nat)
    requires i <= n
    ensures Matching(fp, None, n, i) == Iota(i)
  {
    if i > 0 {
      MatchingEverything(fp, n, i - 1);
    }
  }

  lemma FoldRowPicked<D>(fp: Arith<D>, kind: AggKind, s: AggState<D>, c: ColData<D>, rows: seq<nat>, j: nat)
    requires InRange(rows, c.Length()) && j < |rows|
    ensures FoldRow(fp, kind, s, Pick(c, rows), j) == FoldRow(fp, kind, s, c, rows[j])
  {
  }

  lemma {:induction false} FoldPicked<D>(fp: Arith<D>, kind: AggKind, c: ColData<D>, rows: seq<nat>, i: nat)
    requires InRange(rows, c.Length()) && i <= |rows|
    ensures FoldRows(fp, kind, Pick(c, rows), Iota(i)) == FoldRows(fp, kind, c, rows[..i])
  {
    hide FoldRow, Pick;
    if i > 0 {
      FoldPicked(fp, kind, c, rows, i - 1);
      FoldRowPicked(fp, kind, FoldRows(fp, kind, c, rows[..i - 1]), c, rows, i - 1);
      assert Iota(i) == Iota(i - 1) + [i - 1] && rows[..i] == rows[..i - 1] + [rows[i - 1]];
      FoldPush(fp, kind, Pick(c, rows), Iota(i - 1), i - 1);
      FoldPush(fp, kind, c, rows[..i - 1], rows[i - 1]);
    }
  }

  /** Every projection of the statement, without WHERE and GROUP BY. */
  function Ungrouped<D>(q: Query<D>): Query<D> {
    q.(where := None, groupBy := "")
  }

  lemma AggregateAlone<D>(fp: Arith<D>, q: Query<D>, table: CsvTable<D>, own: seq<nat>, k: nat)
    requires table.Valid() && InRange(own, table.rowCount) && LookUp(table, q.projections).Some?
    requires k < |q.projections| && q.projections[k].agg != NoAgg
    ensures var alone := Answer(fp, Ungrouped(q), Restrict(table, own));
            && alone.Some? && |alone.value.rows| == 1 && |alone.value.rows[0]| == |q.projections|
            && alone.value.rows[0][k] ==
               Finalize(fp, q.projections[k].agg,
                        FoldRows(fp, q.projections[k].agg, LookUp(table, q.projections).value[k], own))
  {
    LookUpRestricted(table, own, q.projections);
    var plan := Resolve(Ungrouped(q), Restrict(table, own)).value;
    assert plan.projections[k].agg != NoAgg;
    assert plan.AnyAgg();
    MatchingEverything(fp, |own|, |own|);
    FoldPicked(fp, q.projections[k].agg, LookUp(table, q.projections).value[k], own, |own|);
    assert own[..|own|] == own;
  }

  // ----- the groups of a statement

  /** The list holds exactly the rows with that key, in their order. */
  ghost predicate IsGroup<D>(fp: Arith<D>, gb: ColData<D>, rows: seq<nat>, key: string, own: seq<nat>)
    requires InRange(rows, gb.Length())
  {
    && own != [] && Increasing(own) && InRange(own, gb.Length())
    && forall i: nat :: i < gb.Length() ==> (i in own <==> i in rows && CellKey(fp, gb, i) == key)
  }

  /** Result row r of the statement is the group of one key. */
  ghost predicate RowOfGroup<D>(fp: Arith<D>, q: Query<D>, table: CsvTable<D>, g: nat, own: seq<nat>, row: seq<Cell<D>>)
    requires table.Valid() && g < |table.cols| && InRange(own, table.rowCount) && own != []
  {
    && |row| == |q.projections|
    && forall k, j: nat :: 0 <= k < |q.projections| && FirstNamed(table, q.projections[k].col, j) ==>
         if q.projections[k].agg == NoAgg then
           q.projections[k].col == q.groupBy && Shows(row[k], table.cols[g].data, own[0])
         else Reports(fp, q.projections[k].agg, table.cols[j].data, own, row[k])
  }

  /** The keys of the listed rows, each one once, in ascending order. */
  ghost predicate KeysAre<D>(fp: Arith<D>, gb: ColData<D>, rows: seq<nat>, keys: seq<string>)
    requires InRange(rows, gb.Length())
  {
    && Ascending(keys)
    && forall key :: key in keys <==> exists i :: 0 <= i < |rows| && CellKey(fp, gb, rows[i]) == key
  }

  /** One result row for each key of a listed row, in ascending order of the keys. */
  ghost predicate GroupsAre<D>(fp: Arith<D>, q: Query<D>, table: CsvTable<D>, g: nat, rows: seq<nat>,
      out: seq<seq<Cell<D>>>, keys: seq<string>, own: seq<seq<nat>>)
    requires table.Valid() && g < |table.cols| && InRange(rows, table.rowCount)
  {
    var gb := table.cols[g].data;
    && |keys| == |own| == |out| && KeysAre(fp, gb, rows, keys)
    && (forall r :: 0 <= r < |keys| ==>
         IsGroup(fp, gb, rows, keys[r], own[r]) && RowOfGroup(fp, q, table, g, own[r], out[r]))
  }

  /**
   GROUP BY the column g, the first one of that name: there is one row for each key of a matching
   row, in ascending order of the keys; it shows the value of the group's first row in place of the
   grouping column, and each aggregate reports about the rows of the group.
   */
  lemma GroupedAnswer<D>(fp: Arith<D>, q: Query<D>, table: CsvTable<D>, g: nat, rows: seq<nat>)
    returns (keys: seq<string>, own: seq<seq<nat>>)
    requires table.Valid() && q.groupBy != "" && FirstNamed(table, q.groupBy, g)
    requires Answer(fp, q, table).Some? && Selects(fp, q, table, rows)
    ensures GroupsAre(fp, q, table, g, rows, Answer(fp, q, table).value.rows, keys, own)
  {
    AnswerIsGroupRows(fp, q, table, g, rows);
    var plan, gb := Resolve(q, table).value, table.cols[g].data;
    hide Resolve, Answer, Selects, CellKey, KeysAre, IsGroup, RowOfGroup, RowsOf, GroupRow, GroupThrows, KeysOf;
    KeysAreExact(fp, gb, rows);
    keys := KeysOf(fp, gb, rows);
    own := seq(|keys|, r requires 0 <= r < |keys| => RowsOf(fp, gb, keys[r], rows));
    KeysOccur(fp, gb, rows, keys);
    forall r | 0 <= r < |keys|
      ensures IsGroup(fp, gb, rows, keys[r], own[r])
      ensures RowOfGroup(fp, q, table, g, own[r], GroupRows(fp, plan, rows)[r])
    {
      OneGroup(fp, q, table, g, rows, keys[r]);
    }
  }

  lemma KeysOccur<D>(fp: Arith<D>, gb: ColData<D>, rows: seq<nat>, keys: seq<string>)
    requires InRange(rows, gb.Length()) && keys == KeysOf(fp, gb, rows)
    ensures KeysAre(fp, gb, rows, keys)
  {
    KeysAreExact(fp, gb, rows);
    forall key ensures key in keys <==> exists i :: 0 <= i < |rows| && CellKey(fp, gb, rows[i]) == key {
      KeyOccurs(fp, gb, rows, key);
    }
  }

  lemma OneGroup<D>(fp: Arith<D>, q: Query<D>, table: CsvTable<D>, g: nat, rows: seq<nat>, key: string)
    requires table.Valid() && q.groupBy != "" && FirstNamed(table, q.groupBy, g) && Resolve(q, table).Some?
    requires Increasing(rows) && InRange(rows, table.rowCount) && RowsOf(fp, table.cols[g].data, key, rows) != []
    requires Resolve(q, table).value.groupCol == Some(table.cols[g].data) && !GroupThrows(Resolve(q, table).value)
    ensures var own := RowsOf(fp, table.cols[g].data, key, rows);
            && IsGroup(fp, table.cols[g].data, rows, key, own)
            && RowOfGroup(fp, q, table, g, own, GroupRow(fp, Resolve(q, table).value, own))
  {
    hide Resolve, CellKey, IsGroup, RowOfGroup, RowsOf, GroupRow, GroupThrows;
    RowsOfIsGroup(fp, table.cols[g].data, rows, key);
    GroupRowIsExact(fp, q, table, g, RowsOf(fp, table.cols[g].data, key, rows));
  }

  lemma AnswerIsGroupRows<D>(fp: Arith<D>, q: Query<D>, table: CsvTable<D>, g: nat, rows: seq<nat>)
    requires table.Valid() && q.groupBy != "" && FirstNamed(table, q.groupBy, g)
    requires Answer(fp, q, table).Some? && Selects(fp, q, table, rows)
    ensures Resolve(q, table).Some? && Increasing(rows) && InRange(rows, table.rowCount)
    ensures var plan := Resolve(q, table).value;
            && plan.groupCol == Some(table.cols[g].data)
            && Answer(fp, q, table).value.rows == GroupRows(fp, plan, rows)
            && (KeysOf(fp, table.cols[g].data, rows) != [] ==> !GroupThrows(plan))
  {
    ResolveIsExact(q, table);
    MatchingSelects(fp, q, table);
  }

  lemma KeyOccurs<D>(fp: Arith<D>, gb: ColData<D>, rows: seq<nat>, key: string)
    requires InRange(rows, gb.Length())
    ensures key in KeysOf(fp, gb, rows) <==> exists i :: 0 <= i < |rows| && CellKey(fp, gb, rows[i]) == key
  {
    KeysAreExact(fp, gb, rows);
    RowsOfIsExact(fp, gb, key, rows);
    hide CellKey, KeysOf;
    if RowsOf(fp, gb, key, rows) != [] {
      var own := RowsOf(fp, gb, key, rows)[0];
      assert own in RowsOf(fp, gb, key, rows);
    }
  }

  lemma RowsOfIsGroup<D>(fp: Arith<D>, gb: ColData<D>, rows: seq<nat>, key: string)
    requires InRange(rows, gb.Length()) && Increasing(rows) && RowsOf(fp, gb, key, rows) != []
    ensures IsGroup(fp, gb, rows, key, RowsOf(fp, gb, key, rows))
  {
    RowsOfIsExact(fp, gb, key, rows);
    RowsOfKeepsOrder(fp, gb, key, rows);
    hide CellKey;
  }

  lemma GroupRowIsExact<D>(fp: Arith<D>, q: Query<D>, table: CsvTable<D>, g: nat, own: seq<nat>)
    requires table.Valid() && q.groupBy != "" && FirstNamed(table, q.groupBy, g) && Resolve(q, table).Some?
    requires InRange(own, table.rowCount) && own != [] && !GroupThrows(Resolve(q, table).value)
    ensures RowOfGroup(fp, q, table, g, own, GroupRow(fp, Resolve(q, table).value, own))
  {
    ResolveIsExact(q, table);
    var plan, gb := Resolve(q, table).value, table.cols[g].data;
    assert plan.groupCol == Some(gb);
    var row := GroupRow(fp, plan, own);
    CellShows(gb, own[0]);
    hide Resolve, Finalize, FoldRows, Reports, FirstNamed, Shows, ColumnCell;
    forall k, j: nat | 0 <= k < |q.projections| && FirstNamed(table, q.projections[k].col, j)
      ensures if q.projections[k].agg == NoAgg then q.projections[k].col == q.groupBy && Shows(row[k], gb, own[0])
              else Reports(fp, q.projections[k].agg, table.cols[j].data, own, row[k])
    {
      if q.projections[k].agg != NoAgg {
        AggregateReports(fp, q.projections[k].agg, table.cols[j].data, own);
      }
    }
  }

  /**
   GROUP BY decomposes: each aggregate cell of a result row is the cell the ungrouped statement gives
   on the table that holds just the rows of one group, in their order.
   */
  lemma GroupByDecomposes<D>(fp: Arith<D>, q: Query<D>, table: CsvTable<D>, g: nat, rows: seq<nat>, r: nat)
    returns (key: string, own: seq<nat>)
    requires table.Valid() && q.groupBy != "" && FirstNamed(table, q.groupBy, g)
    requires Answer(fp, q, table).Some? && Selects(fp, q, table, rows)
    requires r < |Answer(fp, q, table).value.rows|
    ensures IsGroup(fp, table.cols[g].data, rows, key, own)
    ensures |Answer(fp, q, table).value.rows[r]| == |q.projections|
    ensures forall k :: 0 <= k < |q.projections| && q.projections[k].agg != NoAgg ==>
      var alone := Answer(fp, Ungrouped(q), Restrict(table, own));
      && alone.Some? && |alone.value.rows| == 1 && |alone.value.rows[0]| == |q.projections|
      && Answer(fp, q, table).value.rows[r][k] == alone.value.rows[0][k]
  {
    AnswerIsGroupRows(fp, q, table, g, rows);
    var plan, gb := Resolve(q, table).value, table.cols[g].data;
    KeysAreExact(fp, gb, rows);
    key := KeysOf(fp, gb, rows)[r];
    own := RowsOf(fp, gb, key, rows);
    RowsOfIsGroup(fp, gb, rows, key);
    assert Answer(fp, q, table).value.rows[r] == GroupRow(fp, plan, own);
    hide Selects, Matching, IsGroup, RowsOf, KeysOf, CellKey, FirstNamed, Finalize, FoldRows;
    forall k | 0 <= k < |q.projections| && q.projections[k].agg != NoAgg
      ensures var alone := Answer(fp, Ungrouped(q), Restrict(table, own));
              && alone.Some? && |alone.value.rows| == 1 && |alone.value.rows[0]| == |q.projections|
              && Answer(fp, q, table).value.rows[r][k] == alone.value.rows[0][k]
    {
      AggregateAlone(fp, q, table, own, k);
      hide Answer, Restrict;
    }
  }

  // ----- groups partition the matching rows

  function GroupSizes<D>(fp: Arith<D>, gb: ColData<D>, keys: seq<string>, rows: seq<nat>): nat
    requires InRange(rows, gb.Length())
  {
    if keys == [] then 0 else |RowsOf(fp, gb, keys[0], rows)| + GroupSizes(fp, gb, keys[1..], rows)
  }

  predicate NoRepeats(keys: seq<string>) {
    forall i, j :: 0 <= i < j < |keys| ==> keys[i] != keys[j]
  }

  /** One more row makes exactly one listed group one larger. */
  lemma {:induction false} GroupSizesPush<D>(fp: Arith<D>, gb: ColData<D>, keys: seq<string>, rows: seq<nat>, i: nat)
    requires InRange(rows, gb.Length()) && i < gb.Length() && NoRepeats(keys)
    ensures GroupSizes(fp, gb, keys, rows + [i]) ==
            GroupSizes(fp, gb, keys, rows) + if CellKey(fp, gb, i) in keys then 1 else 0
  {
    if keys != [] {
      RowsOfPush(fp, gb, keys[0], rows, i);
      GroupSizesPush(fp, gb, keys[1..], rows, i);
    }
  }

  lemma {:induction false} GroupsPartition<D>(fp: Arith<D>, gb: ColData<D>, keys: seq<string>, rows: seq<nat>)
    requires InRange(rows, gb.Length()) && NoRepeats(keys)
    requires forall i :: 0 <= i < |rows| ==> CellKey(fp, gb, rows[i]) in keys
    ensures GroupSizes(fp, gb, keys, rows) == |rows|
    decreases |rows|
  {
    hide CellKey, RowsOf, GroupSizes;
    if rows == [] {
      NoRowsNoSizes(fp, gb, keys);
    } else {
      var n := |rows| - 1;
      GroupsPartition(fp, gb, keys, rows[..n]);
      GroupSizesPush(fp, gb, keys, rows[..n], rows[n]);
      assert rows == rows[..n] + [rows[n]];
    }
  }

  lemma {:induction false} NoRowsNoSizes<D>(fp: Arith<D>, gb: ColData<D>, keys: seq<string>)
    ensures GroupSizes(fp, gb, keys, []) == 0
  {
    if keys != [] {
      NoRowsNoSizes(fp, gb, keys[1..]);
    }
  }

  lemma {:induction false} CountsRows<D>(fp: Arith<D>, c: ColData<D>, rows: seq<nat>)
    requires InRange(rows, c.Length())
    ensures FoldRows(fp, Count, c, rows).count == |rows|
  {
    if rows != [] {
      CountsRows(fp, c, rows[..|rows| - 1]);
    }
  }

  function CountTotal<D>(rows: seq<seq<Cell<D>>>, k: nat): int
    requires forall r :: 0 <= r < |rows| ==> k < |rows[r]| && rows[r][k].IntCell?
  {
    if rows == [] then 0 else rows[0][k].i + CountTotal(rows[1..], k)
  }

  /** The COUNT cells of all groups add up to the COUNT of the same statement without GROUP BY. */
  lemma GroupCountsAddUp<D>(fp: Arith<D>, plan: Plan<D>, k: nat)
    requires plan.Valid() && plan.groupCol.Some? && k < |plan.cols| && plan.projections[k].agg == Count
    requires AnswerRows(fp, plan).Some?
    ensures forall r :: 0 <= r < |AnswerRows(fp, plan).value| ==>
      k < |AnswerRows(fp, plan).value[r]| && AnswerRows(fp, plan).value[r][k].IntCell?
    ensures var alone := AnswerRows(fp, plan.(groupBy := "", groupCol := None));
            alone == Some([AggRow(fp, plan, Matching(fp, plan.filter, plan.rowCount, plan.rowCount))])
            && alone.value[0][k] == IntCell(CountTotal(AnswerRows(fp, plan).value, k))
  {
    var rows := Matching(fp, plan.filter, plan.rowCount, plan.rowCount);
    var gb := plan.groupCol.value;
    var keys := KeysOf(fp, gb, rows);
    KeysAreExact(fp, gb, rows);
    forall i, j | 0 <= i < j < |keys| ensures keys[i] != keys[j] {
      StringLessIsTotal(keys[i], keys[j]);
    }
    GroupsPartition(fp, gb, keys, rows);
    CountsRows(fp, plan.cols[k], rows);
    CountCells(fp, plan, k, keys, rows, AnswerRows(fp, plan).value);
    var alone := plan.(groupBy := "", groupCol := None);
    assert alone.projections[k].agg != NoAgg;
    assert alone.AnyAgg();
    assert AggRow(fp, alone, rows) == AggRow(fp, plan, rows);
  }

  lemma {:induction false} CountCells<D>(fp: Arith<D>, plan: Plan<D>, k: nat, keys: seq<string>, rows: seq<nat>, out: seq<seq<Cell<D>>>)
    requires plan.Valid() && plan.groupCol.Some? && k < |plan.cols| && plan.projections[k].agg == Count
    requires InRange(rows, plan.rowCount) && |out| == |keys|
    requires forall r :: 0 <= r < |keys| ==> RowsOf(fp, plan.groupCol.value, keys[r], rows) != []
    requires forall r :: 0 <= r < |keys| ==> out[r] == GroupRow(fp, plan, RowsOf(fp, plan.groupCol.value, keys[r], rows))
    ensures forall r :: 0 <= r < |out| ==> k < |out[r]| && out[r][k].IntCell?
    ensures CountTotal(out, k) == GroupSizes(fp, plan.groupCol.value, keys, rows)
  {
    if keys != [] {
      var own := RowsOf(fp, plan.groupCol.value, keys[0], rows);
      CountsRows(fp, plan.cols[k], own);
      assert out[0][k] == IntCell(|own|);
      CountCells(fp, plan, k, keys[1..], rows, out[1..]);
      assert forall r :: 0 < r < |out| ==> out[r] == out[1..][r - 1];
    }
  }

  // ----- keys stand for values

  /** On integer and string columns two rows have the same key exactly when they hold the same value. */
  lemma KeysAreValues<D>(fp: Arith<D>, c: ColData<D>, i: nat, j: nat)
    requires i < c.Length() && j < c.Length() && !c.Doubles?
    ensures CellKey(fp, c, i) == CellKey(fp, c, j) <==> ColumnCell(c, i) == ColumnCell(c, j)
  {
    match c
    case Int32s(s) => if Print(s[i]) == Print(s[j]) { PrintIsInjective(s[i], s[j]); }
    case Int64s(s) => if Print(s[i]) == Print(s[j]) { PrintIsInjective(s[i], s[j]); }
    case Strings(s) =>
      assert ("s:" + s[i])[2..] == s[i] && ("s:" + s[j])[2..] == s[j];
  }

  /** Where no aggregate is asked for, the projection is the GROUP BY column and shows what all rows of the group hold. */
  lemma GroupShowsItsValue<D>(fp: Arith<D>, q: Query<D>, table: CsvTable<D>, g: nat, rows: seq<nat>, r: nat, k: nat)
    returns (key: string, own: seq<nat>)
    requires table.Valid() && q.groupBy != "" && FirstNamed(table, q.groupBy, g) && !table.cols[g].data.Doubles?
    requires Answer(fp, q, table).Some? && Selects(fp, q, table, rows)
    requires r < |Answer(fp, q, table).value.rows| && k < |q.projections| && q.projections[k].agg == NoAgg
    ensures IsGroup(fp, table.cols[g].data, rows, key, own) && q.projections[k].col == q.groupBy
    ensures |Answer(fp, q, table).value.rows[r]| == |q.projections|
    ensures forall i :: i in own ==> Shows(Answer(fp, q, table).value.rows[r][k], table.cols[g].data, i)
  {
    var gb := table.cols[g].data;
    var keys, groups := GroupedAnswer(fp, q, table, g, rows);
    key, own := keys[r], groups[r];
    var cell := Answer(fp, q, table).value.rows[r][k];
    AnswerResolves(fp, q, table);
    FindIsFirst(table, q.projections[k].col);
    assert RowOfGroup(fp, q, table, g, own, Answer(fp, q, table).value.rows[r]);
    hide Answer, Selects, Resolves, FirstNamed;
    assert own[0] in own;
    forall i | i in own ensures Shows(cell, gb, i) {
      KeysAreValues(fp, gb, own[0], i);
      CellShows(gb, own[0]);
      CellShows(gb, i);
    }
  }

  lemma AnswerResolves<D>(fp: Arith<D>, q: Query<D>, table: CsvTable<D>)
    requires table.Valid() && Answer(fp, q, table).Some?
    ensures Resolves(q, table)
  {
    ResolveIsExact(q, table);
  }

  ghost function ValuesOf<D>(c: ColData<D>, rows: seq<nat>): set<Cell<D>>
    requires InRange(rows, c.Length())
  {
    set i | 0 <= i < |rows| :: ColumnCell(c, rows[i])
  }

  /** On double columns rows share a key exactly when std::to_string spells them alike. */
  lemma KeysAreSpellings<D>(fp: Arith<D>, values: seq<D>, i: nat, j: nat)
    requires i < |values| && j < |values|
    ensures CellKey(fp, Doubles(values), i) == CellKey(fp, Doubles(values), j) <==> fp.show(values[i]) == fp.show(values[j])
  {
  }

  /** COUNT_DISTINCT of a double column counts distinct spellings, and GROUP BY makes as many groups. */
  lemma DistinctCountsSpellings<D>(fp: Arith<D>, values: seq<D>, rows: seq<nat>)
    requires InRange(rows, |values|)
    ensures Finalize(fp, CountDistinct, FoldRows(fp, CountDistinct, Doubles(values), rows)) ==
            IntCell(|set i | 0 <= i < |rows| :: fp.show(values[rows[i]])|)
    ensures |KeysOf(fp, Doubles(values), rows)| == |set i | 0 <= i < |rows| :: fp.show(values[rows[i]])|
  {
    var c := Doubles(values);
    AggregateReports(fp, CountDistinct, c, rows);
    KeyListSize(fp, c, rows);
    assert KeySet(fp, c, rows) == set i | 0 <= i < |rows| :: fp.show(values[rows[i]]);
  }

  /** An integer groups under its decimal text, a string under the text marked as one. */
  lemma KeyTexts<D>(fp: Arith<D>, c: ColData<D>, i: nat, cell: Cell<D>)
    requires i < c.Length() && Shows(cell, c, i)
    ensures CellKey(fp, c, i) == match cell
                                 case IntCell(n) => Print(n)
                                 case DoubleCell(d) => fp.show(d)
                                 case StringCell(s) => "s:" + s
  {
  }

  lemma SameMembership<D>(fp: Arith<D>, c: ColData<D>, rows: seq<nat>, i: nat)
    requires InRange(rows, c.Length()) && !c.Doubles? && i < c.Length()
    ensures CellKey(fp, c, i) in KeySet(fp, c, rows) <==> ColumnCell(c, i) in ValuesOf(c, rows)
  {
    forall j | 0 <= j < |rows|
      ensures CellKey(fp, c, rows[j]) == CellKey(fp, c, i) <==> ColumnCell(c, rows[j]) == ColumnCell(c, i)
    {
      KeysAreValues(fp, c, rows[j], i);
    }
  }

  lemma {:induction false} AsManyKeysAsValues<D>(fp: Arith<D>, c: ColData<D>, rows: seq<nat>)
    requires InRange(rows, c.Length()) && !c.Doubles?
    ensures |KeySet(fp, c, rows)| == |ValuesOf(c, rows)|
  {
    if rows != [] {
      var n := |rows| - 1;
      AsManyKeysAsValues(fp, c, rows[..n]);
      KeySetPush(fp, c, rows);
      ValuesPush(c, rows);
      SameMembership(fp, c, rows[..n], rows[n]);
    }
  }

  /** COUNT_DISTINCT counts the distinct values of an integer or string column, and GROUP BY makes as many groups. */
  lemma DistinctCountsValues<D>(fp: Arith<D>, c: ColData<D>, rows: seq<nat>)
    requires InRange(rows, c.Length()) && !c.Doubles?
    ensures Finalize(fp, CountDistinct, FoldRows(fp, CountDistinct, c, rows)) == IntCell(|ValuesOf(c, rows)|)
    ensures |KeysOf(fp, c, rows)| == |ValuesOf(c, rows)|
  {
    AggregateReports(fp, CountDistinct, c, rows);
    AsManyKeysAsValues(fp, c, rows);
    KeyListSize(fp, c, rows);
  }

  /** The list holds exactly the elements of the set, each one once. */
  ghost predicate Lists(keys: seq<string>, members: set<string>) {
    Ascending(keys) && |keys| == |members| && forall k :: k in keys <==> k in members
  }

  lemma InsertLists(keys: seq<string>, members: set<string>, k: string)
    requires Lists(keys, members)
    ensures Lists(Insert(keys, k), members + {k})
  {
    InsertKeepsOrder(keys, k);
    InsertSize(keys, k);
    assert k in members ==> members + {k} == members;
  }

  lemma {:induction false} KeyListSize<D>(fp: Arith<D>, c: ColData<D>, rows: seq<nat>)
    requires InRange(rows, c.Length())
    ensures Lists(KeysOf(fp, c, rows), KeySet(fp, c, rows))
  {
    if rows != [] {
      var n := |rows| - 1;
      KeyListSize(fp, c, rows[..n]);
      InsertLists(KeysOf(fp, c, rows[..n]), KeySet(fp, c, rows[..n]), CellKey(fp, c, rows[n]));
      KeySetPush(fp, c, rows);
    }
  }

  lemma {:induction false} InsertSize(keys: seq<string>, k: string)
    requires Ascending(keys)
    ensures |Insert(keys, k)| == |keys| + if k in keys then 0 else 1
  {
    if keys != [] {
      assert keys == [keys[0]] + keys[1..];
      InsertKeepsOrder(keys, k);
      InsertSize(keys[1..], k);
    }
  }

  lemma ValuesPush<D>(c: ColData<D>, rows: seq<nat>)
    requires InRange(rows, c.Length()) && rows != []
    ensures ValuesOf(c, rows) == ValuesOf(c, rows[..|rows| - 1]) + {ColumnCell(c, rows[|rows| - 1])}
  {
    var n := |rows| - 1;
    assert forall i :: 0 <= i < n ==> rows[..n][i] == rows[i];
    forall v | v in ValuesOf(c, rows) ensures v in ValuesOf(c, rows[..n]) + {ColumnCell(c, rows[n])} {
      var i :| 0 <= i < |rows| && v == ColumnCell(c, rows[i]);
      if i < n {
        assert v == ColumnCell(c, rows[..n][i]);
      }
    }
    forall v | v in ValuesOf(c, rows[..n]) ensures v in ValuesOf(c, rows) {
      var i :| 0 <= i < n && v == ColumnCell(c, rows[..n][i]);
      assert v == ColumnCell(c, rows[i]);
    }
  }
}
