/** What execute answers, and the loops that compute it. */
module SqlRun {
  import opened Machine
  import opened SqlParser
  import opened SqlExec

  // ----- the answer

  /** A statement whose column names have been looked up. */
  datatype Plan<D> = Plan(
    projections: seq<Projection>,
    cols: seq<ColData<D>>,
    filter: Option<Filter<D>>,
    groupBy: string,
    groupCol: Option<ColData<D>>,
    rowCount: nat)
  {
    predicate Valid() {
      && |cols| == |projections|
      && (forall k :: 0 <= k < |cols| ==> cols[k].Length() == rowCount)
      && FilterFits(filter, rowCount)
      && (groupCol.Some? ==> groupCol.value.Length() == rowCount)
      && (groupBy == "" <==> groupCol.None?)
    }

    predicate AnyAgg() {
      exists k :: 0 <= k < |projections| && projections[k].agg != NoAgg
    }
  }

  function LookUp<D>(table: CsvTable<D>, projections: seq<Projection>): (cols: Option<seq<ColData<D>>>)
    requires table.Valid()
    ensures cols.Some? ==> |cols.value| == |projections|
    ensures cols.Some? ==> forall k :: 0 <= k < |cols.value| ==> cols.value[k].Length() == table.rowCount
  {
    if projections == [] then Some([])
    else
      var n := |projections| - 1;
      match LookUp(table, projections[..n])
      case None => None
      case Some(cols) =>
        match table.Find(projections[n].col)
        case None => None
        case Some(c) => Some(cols + [c.data])
  }

  /** Resolves every name, or None where execute throws before it looks at a row. */
  function Resolve<D>(q: Query<D>, table: CsvTable<D>): (plan: Option<Plan<D>>)
    requires table.Valid()
    ensures plan.Some? ==> plan.value.Valid() && plan.value.rowCount == table.rowCount
  {
    var gb := if q.groupBy == "" then None else table.Find(q.groupBy);
    var wc := match q.where case None => None case Some(w) => table.Find(w.col);
    if q.groupBy != "" && gb == None then None
    else if LookUp(table, q.projections) == None then None
    else if q.where.Some? && wc == None then None
    else
      Some(Plan(
        q.projections,
        LookUp(table, q.projections).value,
        if q.where.None? then None else Some(Filter(wc.value.data, q.where.value.op, q.where.value.value)),
        q.groupBy,
        if q.groupBy == "" then None else Some(gb.value.data),
        table.rowCount))
  }

  function PlainRow<D>(plan: Plan<D>, i: nat): seq<Cell<D>>
    requires plan.Valid() && i < plan.rowCount
  {
    seq(|plan.cols|, k requires 0 <= k < |plan.cols| => ColumnCell(plan.cols[k], i))
  }

  /** The listed rows, projected. */
  function PlainRows<D>(plan: Plan<D>, rows: seq<nat>): seq<seq<Cell<D>>>
    requires plan.Valid() && InRange(rows, plan.rowCount)
  {
    seq(|rows|, i requires 0 <= i < |rows| => PlainRow(plan, rows[i]))
  }

  /** The aggregates of the listed rows, one cell per projection. */
  function AggRow<D>(fp: Arith<D>, plan: Plan<D>, rows: seq<nat>): seq<Cell<D>>
    requires plan.Valid() && InRange(rows, plan.rowCount)
  {
    seq(|plan.cols|, k requires 0 <= k < |plan.cols| =>
      Finalize(fp, plan.projections[k].agg, FoldRows(fp, plan.projections[k].agg, plan.cols[k], rows)))
  }

  /** The result row of one group: its key value where no aggregate is asked for. */
  function GroupRow<D>(fp: Arith<D>, plan: Plan<D>, rows: seq<nat>): seq<Cell<D>>
    requires plan.Valid() && plan.groupCol.Some? && InRange(rows, plan.rowCount) && rows != []
  {
    seq(|plan.cols|, k requires 0 <= k < |plan.cols| =>
      if plan.projections[k].agg == NoAgg then ColumnCell(plan.groupCol.value, rows[0])
      else Finalize(fp, plan.projections[k].agg, FoldRows(fp, plan.projections[k].agg, plan.cols[k], rows)))
  }

  /** The rows of all groups, in key order. */
  function GroupRows<D>(fp: Arith<D>, plan: Plan<D>, rows: seq<nat>): seq<seq<Cell<D>>>
    requires plan.Valid() && plan.groupCol.Some? && InRange(rows, plan.rowCount)
  {
    var gb := plan.groupCol.value;
    var keys := KeysOf(fp, gb, rows);
    KeysAreExact(fp, gb, rows);
    seq(|keys|, i requires 0 <= i < |keys| => GroupRow(fp, plan, RowsOf(fp, gb, keys[i], rows)))
  }

  /** A projection without aggregate has to name the GROUP BY column. */
  predicate GroupThrows<D>(plan: Plan<D>) {
    exists k :: 0 <= k < |plan.projections| && plan.projections[k].agg == NoAgg && plan.projections[k].col != plan.groupBy
  }

  /** The rows of the answer to a resolved statement, or None where execute throws. */
  function AnswerRows<D>(fp: Arith<D>, plan: Plan<D>): Option<seq<seq<Cell<D>>>>
    requires plan.Valid()
  {
    if FilterThrows(plan.filter, plan.rowCount) then None
    else
      var rows := Matching(fp, plan.filter, plan.rowCount, plan.rowCount);
      match plan.groupCol
      case None =>
        if plan.AnyAgg() then Some([AggRow(fp, plan, rows)])
        else Some(PlainRows(plan, rows))
      case Some(gb) =>
        var keys := KeysOf(fp, gb, rows);
        if keys != [] && GroupThrows(plan) then None
        else
          Some(GroupRows(fp, plan, rows))
  }

  function Aliases(projections: seq<Projection>): seq<string> {
    seq(|projections|, k requires 0 <= k < |projections| => projections[k].alias)
  }

  function Answer<D>(fp: Arith<D>, q: Query<D>, table: CsvTable<D>): Option<ResultSet<D>>
    requires table.Valid()
  {
    match Resolve(q, table)
    case None => None
    case Some(plan) =>
      match AnswerRows(fp, plan)
      case None => None
      case Some(rows) => Some(ResultSet(Aliases(q.projections), rows))
  }

  // ----- the executor's loops

  /** The WHERE test of one row, or None where row_matches throws. */
  method TestRow<D>(fp: Arith<D>, w: Option<Filter<D>>, n: nat, i: nat) returns (r: Option<bool>)
    requires i < n && FilterFits(w, n)
    ensures r == if FilterThrows(w, n) then None else Some(Keeps(fp, w, i))
  {
    if w.None? {
      return Some(true);
    }
    if w.value.col.Strings? != w.value.value.StrLit? {
      return None;
    }
    r := Some(RowMatches(fp, w.value.col, i, w.value.op, w.value.value));
  }

  method RunPlain<D>(fp: Arith<D>, plan: Plan<D>) returns (out: Option<seq<seq<Cell<D>>>>)
    requires plan.Valid() && plan.groupCol.None? && !plan.AnyAgg()
    ensures out == AnswerRows(fp, plan)
  {
    var n := plan.rowCount;
    var rows: seq<seq<Cell<D>>> := [];
    for i := 0 to n
      invariant i > 0 ==> !FilterThrows(plan.filter, n)
      invariant !FilterThrows(plan.filter, n) ==> rows == PlainRows(plan, Matching(fp, plan.filter, n, i))
    {
      var keep := TestRow(fp, plan.filter, n, i);
      if keep == None {
        return None;
      }
      if !keep.value {
        continue;
      }
      var row := ProjectRow(plan, i);
      rows := rows + [row];
    }
    out := Some(rows);
  }

  method ProjectRow<D>(plan: Plan<D>, i: nat) returns (row: seq<Cell<D>>)
    requires plan.Valid() && i < plan.rowCount
    ensures row == PlainRow(plan, i)
  {
    row := [];
    for k := 0 to |plan.cols|
      invariant row == PlainRow(plan, i)[..k]
    {
      row := row + [ColumnCell(plan.cols[k], i)];
    }
  }

  // ----- folding

  /** One state per projection, after the listed rows. */
  function States<D>(fp: Arith<D>, plan: Plan<D>, rows: seq<nat>): seq<AggState<D>>
    requires plan.Valid() && InRange(rows, plan.rowCount)
  {
    seq(|plan.cols|, k requires 0 <= k < |plan.cols| =>
      FoldRows(fp, plan.projections[k].agg, plan.cols[k], rows))
  }

  lemma FoldPush<D>(fp: Arith<D>, kind: AggKind, c: ColData<D>, rows: seq<nat>, i: nat)
    requires InRange(rows, c.Length()) && i < c.Length()
    ensures FoldRows(fp, kind, c, rows + [i]) == FoldRow(fp, kind, FoldRows(fp, kind, c, rows), c, i)
  {
    assert (rows + [i])[..|rows|] == rows;
  }

  /** Folds row i into every state in place. */
  method FoldAll<D>(fp: Arith<D>, plan: Plan<D>, states: array<AggState<D>>, i: nat, ghost rows: seq<nat>)
    requires plan.Valid() && i < plan.rowCount && InRange(rows, plan.rowCount)
    requires states[..] == States(fp, plan, rows)
    modifies states
    ensures states[..] == States(fp, plan, rows + [i])
  {
    ghost var before, after := States(fp, plan, rows), States(fp, plan, rows + [i]);
    for k := 0 to states.Length
      invariant forall j :: 0 <= j < k ==> states[j] == after[j]
      invariant forall j :: k <= j < states.Length ==> states[j] == before[j]
    {
      FoldPush(fp, plan.projections[k].agg, plan.cols[k], rows, i);
      assert states[k] == FoldRows(fp, plan.projections[k].agg, plan.cols[k], rows);
      states[k] := FoldRow(fp, plan.projections[k].agg, states[k], plan.cols[k], i);
      assert states[k] == after[k];
    }
  }

  method RunAggregate<D>(fp: Arith<D>, plan: Plan<D>) returns (out: Option<seq<seq<Cell<D>>>>)
    requires plan.Valid() && plan.groupCol.None? && plan.AnyAgg()
    ensures out == AnswerRows(fp, plan)
  {
    var n := plan.rowCount;
    var states := new AggState<D>[|plan.cols|](k => InitState(fp));
    assert states[..] == States(fp, plan, []);
    for i := 0 to n
      invariant i > 0 ==> !FilterThrows(plan.filter, n)
      invariant !FilterThrows(plan.filter, n) ==> states[..] == States(fp, plan, Matching(fp, plan.filter, n, i))
    {
      var keep := TestRow(fp, plan.filter, n, i);
      if keep == None {
        return None;
      }
      if !keep.value {
        continue;
      }
      FoldAll(fp, plan, states, i, Matching(fp, plan.filter, n, i));
    }
    var row := FinalizeAll(fp, plan, states[..], Matching(fp, plan.filter, n, n));
    out := Some([row]);
  }

  method FinalizeAll<D>(fp: Arith<D>, plan: Plan<D>, states: seq<AggState<D>>, ghost rows: seq<nat>)
    returns (row: seq<Cell<D>>)
    requires plan.Valid() && InRange(rows, plan.rowCount) && states == States(fp, plan, rows)
    ensures row == AggRow(fp, plan, rows)
  {
    row := [];
    for k := 0 to |states|
      invariant row == AggRow(fp, plan, rows)[..k]
    {
      row := row + [Finalize(fp, plan.projections[k].agg, states[k])];
    }
  }

  // ----- GROUP BY

  /** What the group map holds for one group after the listed rows: a state per aggregate projection. */
  ghost predicate GroupHolds<D>(fp: Arith<D>, plan: Plan<D>, states: seq<AggState<D>>, rows: seq<nat>)
    requires plan.Valid() && InRange(rows, plan.rowCount)
  {
    && |states| == |plan.cols|
    && forall k :: 0 <= k < |states| ==>
      states[k] == if plan.projections[k].agg == NoAgg then InitState(fp)
                   else FoldRows(fp, plan.projections[k].agg, plan.cols[k], rows)
  }

  /** The entry of one key: its rows' states, and the key value of its first row. */
  ghost predicate EntryHolds<D>(fp: Arith<D>, plan: Plan<D>, mine: seq<nat>, states: seq<AggState<D>>, cell: Cell<D>)
    requires plan.Valid() && plan.groupCol.Some? && InRange(mine, plan.rowCount)
  {
    && GroupHolds(fp, plan, states, mine)
    && (mine != [] ==> cell == ColumnCell(plan.groupCol.value, mine[0]))
  }

  ghost predicate EntriesHold<D>(fp: Arith<D>, plan: Plan<D>, rows: seq<nat>,
      groups: map<string, seq<AggState<D>>>, groupCell: map<string, Cell<D>>)
    requires plan.Valid() && plan.groupCol.Some? && InRange(rows, plan.rowCount) && groupCell.Keys == groups.Keys
  {
    forall k :: k in groups ==>
      EntryHolds(fp, plan, RowsOf(fp, plan.groupCol.value, k, rows), groups[k], groupCell[k])
  }

  /** The maps after the listed rows: one entry per key, in key order. */
  ghost predicate MapsHold<D>(fp: Arith<D>, plan: Plan<D>, rows: seq<nat>, order: seq<string>,
      groups: map<string, seq<AggState<D>>>, groupCell: map<string, Cell<D>>)
    requires plan.Valid() && plan.groupCol.Some? && InRange(rows, plan.rowCount)
  {
    && order == KeysOf(fp, plan.groupCol.value, rows)
    && SameKeys(order, groups.Keys)
    && groupCell.Keys == groups.Keys
    && EntriesHold(fp, plan, rows, groups, groupCell)
  }

  ghost predicate SameKeys(order: seq<string>, keys: set<string>) {
    forall k :: k in keys <==> k in order
  }

  lemma RowsOfPush<D>(fp: Arith<D>, gb: ColData<D>, k: string, rows: seq<nat>, i: nat)
    requires InRange(rows, gb.Length()) && i < gb.Length()
    ensures RowsOf(fp, gb, k, rows + [i]) ==
            RowsOf(fp, gb, k, rows) + if CellKey(fp, gb, i) == k then [i] else []
    ensures KeysOf(fp, gb, rows + [i]) == Insert(KeysOf(fp, gb, rows), CellKey(fp, gb, i))
  {
    assert (rows + [i])[..|rows|] == rows;
  }

  /** Folds row i into the states of its group; plain projections are skipped. */
  method FoldGroup<D>(fp: Arith<D>, plan: Plan<D>, states: seq<AggState<D>>, i: nat, ghost rows: seq<nat>)
    returns (next: seq<AggState<D>>)
    requires plan.Valid() && i < plan.rowCount && InRange(rows, plan.rowCount)
    requires GroupHolds(fp, plan, states, rows)
    ensures GroupHolds(fp, plan, next, rows + [i])
  {
    next := states;
    for k := 0 to |states|
      invariant |next| == |states|
      invariant forall j :: k <= j < |states| ==> next[j] == states[j]
      invariant forall j :: 0 <= j < k ==>
        next[j] == if plan.projections[j].agg == NoAgg then InitState(fp)
                   else FoldRows(fp, plan.projections[j].agg, plan.cols[j], rows + [i])
    {
      if plan.projections[k].agg == NoAgg {
        continue;
      }
      FoldPush(fp, plan.projections[k].agg, plan.cols[k], rows, i);
      next := next[k := FoldRow(fp, plan.projections[k].agg, next[k], plan.cols[k], i)];
    }
  }

  /** The entry of one key is carried over row i, whether the row belongs to it or not. */
  lemma EntryPush<D>(fp: Arith<D>, plan: Plan<D>, rows: seq<nat>, i: nat, k: string, states: seq<AggState<D>>, cell: Cell<D>)
    requires plan.Valid() && plan.groupCol.Some? && i < plan.rowCount && InRange(rows, plan.rowCount)
    requires var mine := RowsOf(fp, plan.groupCol.value, k, rows);
             EntryHolds(fp, plan, if CellKey(fp, plan.groupCol.value, i) == k then mine + [i] else mine, states, cell)
    ensures EntryHolds(fp, plan, RowsOf(fp, plan.groupCol.value, k, rows + [i]), states, cell)
  {
    var mine := RowsOf(fp, plan.groupCol.value, k, rows);
    RowsOfPush(fp, plan.groupCol.value, k, rows, i);
    assert mine + [] == mine;
  }

  lemma EntriesPush<D>(fp: Arith<D>, plan: Plan<D>, rows: seq<nat>, i: nat,
      groups: map<string, seq<AggState<D>>>, groupCell: map<string, Cell<D>>, key: string, next: seq<AggState<D>>, cell: Cell<D>)
    requires plan.Valid() && plan.groupCol.Some? && i < plan.rowCount && InRange(rows, plan.rowCount)
    requires groupCell.Keys == groups.Keys && EntriesHold(fp, plan, rows, groups, groupCell)
    requires key == CellKey(fp, plan.groupCol.value, i)
    requires EntryHolds(fp, plan, RowsOf(fp, plan.groupCol.value, key, rows) + [i], next, cell)
    ensures EntriesHold(fp, plan, rows + [i], groups[key := next], groupCell[key := cell])
  {
    hide CellKey, RowsOf, EntryHolds;
    forall k | k in groups[key := next]
      ensures EntryHolds(fp, plan, RowsOf(fp, plan.groupCol.value, k, rows + [i]),
                         groups[key := next][k], groupCell[key := cell][k])
    {
      if k == key {
        EntryPush(fp, plan, rows, i, k, next, cell);
      } else {
        EntryPush(fp, plan, rows, i, k, groups[k], groupCell[k]);
      }
    }
  }

  /** Updating the entry of the row's key carries the maps over that row. */
  lemma MapsPush<D>(fp: Arith<D>, plan: Plan<D>, rows: seq<nat>, i: nat, order: seq<string>,
      groups: map<string, seq<AggState<D>>>, groupCell: map<string, Cell<D>>, key: string, next: seq<AggState<D>>, cell: Cell<D>)
    requires plan.Valid() && plan.groupCol.Some? && i < plan.rowCount && InRange(rows, plan.rowCount)
    requires MapsHold(fp, plan, rows, order, groups, groupCell)
    requires key == CellKey(fp, plan.groupCol.value, i)
    requires EntryHolds(fp, plan, RowsOf(fp, plan.groupCol.value, key, rows) + [i], next, cell)
    ensures MapsHold(fp, plan, rows + [i], Insert(order, key), groups[key := next], groupCell[key := cell])
  {
    hide EntryHolds, EntriesHold, SameKeys;
    EntriesPush(fp, plan, rows, i, groups, groupCell, key, next, cell);
    RowsOfPush(fp, plan.groupCol.value, key, rows, i);
    KeysPush(fp, plan.groupCol.value, rows, order, groups.Keys, key);
    assert groups[key := next].Keys == groups.Keys + {key};
    assert groupCell[key := cell].Keys == groups.Keys + {key};
  }

  lemma KeysPush<D>(fp: Arith<D>, gb: ColData<D>, rows: seq<nat>, order: seq<string>, keys: set<string>, key: string)
    requires InRange(rows, gb.Length()) && order == KeysOf(fp, gb, rows) && SameKeys(order, keys)
    ensures SameKeys(Insert(order, key), keys + {key})
  {
    KeysAreExact(fp, gb, rows);
    InsertKeepsOrder(order, key);
  }

  /** One matching row: find or create its group, then fold. */
  method AddToGroup<D>(fp: Arith<D>, plan: Plan<D>, i: nat, order: seq<string>,
      groups: map<string, seq<AggState<D>>>, groupCell: map<string, Cell<D>>, ghost rows: seq<nat>)
    returns (order': seq<string>, groups': map<string, seq<AggState<D>>>, groupCell': map<string, Cell<D>>)
    requires plan.Valid() && plan.groupCol.Some? && i < plan.rowCount && InRange(rows, plan.rowCount)
    requires MapsHold(fp, plan, rows, order, groups, groupCell)
    ensures MapsHold(fp, plan, rows + [i], order', groups', groupCell')
  {
    hide RowsOf, KeysOf, CellKey, Insert, ColumnCell;
    var gb := plan.groupCol.value;
    var key := CellKey(fp, gb, i);
    ghost var mine := RowsOf(fp, gb, key, rows);
    KeysAreExact(fp, gb, rows);
    InsertKeepsOrder(order, key);
    if key !in groups {
      var fresh' := seq(|plan.cols|, k => InitState(fp));
      NoRowsHold(fp, plan, fresh', mine);
      var next := FoldGroup(fp, plan, fresh', i, mine);
      order' := Insert(order, key);
      groups', groupCell' := groups[key := next], groupCell[key := ColumnCell(gb, i)];
      MapsPush(fp, plan, rows, i, order, groups, groupCell, key, next, ColumnCell(gb, i));
    } else {
      var next := FoldGroup(fp, plan, groups[key], i, mine);
      order', groups', groupCell' := order, groups[key := next], groupCell;
      MapsPush(fp, plan, rows, i, order, groups, groupCell, key, next, groupCell[key]);
      assert groupCell[key := groupCell[key]] == groupCell;
    }
  }

  lemma NoRowsHold<D>(fp: Arith<D>, plan: Plan<D>, states: seq<AggState<D>>, rows: seq<nat>)
    requires plan.Valid() && rows == [] && |states| == |plan.cols|
    requires forall k :: 0 <= k < |states| ==> states[k] == InitState(fp)
    ensures GroupHolds(fp, plan, states, rows)
  {
  }

  /** The output row of one group, or None where a plain projection does not name the GROUP BY column. */
  method EmitGroup<D>(fp: Arith<D>, plan: Plan<D>, states: seq<AggState<D>>, cell: Cell<D>, ghost mine: seq<nat>)
    returns (row: Option<seq<Cell<D>>>)
    requires plan.Valid() && plan.groupCol.Some? && InRange(mine, plan.rowCount) && mine != []
    requires EntryHolds(fp, plan, mine, states, cell)
    ensures row == if GroupThrows(plan) then None else Some(GroupRow(fp, plan, mine))
  {
    var cells: seq<Cell<D>> := [];
    for k := 0 to |plan.projections|
      invariant forall j :: 0 <= j < k ==> !(plan.projections[j].agg == NoAgg && plan.projections[j].col != plan.groupBy)
      invariant cells == GroupRow(fp, plan, mine)[..k]
    {
      var p := plan.projections[k];
      if p.agg == NoAgg {
        if p.col != plan.groupBy {
          return None;
        }
        cells := cells + [cell];
      } else {
        cells := cells + [Finalize(fp, p.agg, states[k])];
      }
    }
    assert GroupRow(fp, plan, mine)[..|plan.projections|] == GroupRow(fp, plan, mine);
    row := Some(cells);
  }

  method RunGroups<D>(fp: Arith<D>, plan: Plan<D>) returns (out: Option<seq<seq<Cell<D>>>>)
    requires plan.Valid() && plan.groupCol.Some?
    ensures out == AnswerRows(fp, plan)
  {
    var n := plan.rowCount;
    var order: seq<string>, groups: map<string, seq<AggState<D>>>, groupCell: map<string, Cell<D>> := [], map[], map[];
    for i := 0 to n
      invariant i > 0 ==> !FilterThrows(plan.filter, n)
      invariant !FilterThrows(plan.filter, n) ==>
        MapsHold(fp, plan, Matching(fp, plan.filter, n, i), order, groups, groupCell)
    {
      var keep := TestRow(fp, plan.filter, n, i);
      if keep == None {
        return None;
      }
      if !keep.value {
        continue;
      }
      order, groups, groupCell := AddToGroup(fp, plan, i, order, groups, groupCell, Matching(fp, plan.filter, n, i));
    }
    out := EmitGroups(fp, plan, order, groups, groupCell);
  }

  method EmitGroups<D>(fp: Arith<D>, plan: Plan<D>, order: seq<string>,
      groups: map<string, seq<AggState<D>>>, groupCell: map<string, Cell<D>>)
    returns (out: Option<seq<seq<Cell<D>>>>)
    requires plan.Valid() && plan.groupCol.Some? && !FilterThrows(plan.filter, plan.rowCount)
    requires MapsHold(fp, plan, Matching(fp, plan.filter, plan.rowCount, plan.rowCount), order, groups, groupCell)
    ensures out == AnswerRows(fp, plan)
  {
    hide RowsOf, KeysOf, CellKey, GroupRow, EntryHolds, GroupThrows, Matching;
    ghost var rows := Matching(fp, plan.filter, plan.rowCount, plan.rowCount);
    KeysAreExact(fp, plan.groupCol.value, rows);
    var result: seq<seq<Cell<D>>> := [];
    for i := 0 to |order|
      invariant i > 0 ==> !GroupThrows(plan)
      invariant result == GroupRows(fp, plan, rows)[..i]
    {
      ghost var mine := RowsOf(fp, plan.groupCol.value, order[i], rows);
      var row := EmitGroup(fp, plan, groups[order[i]], groupCell[order[i]], mine);
      if row == None {
        return None;
      }
      result := result + [row.value];
    }
    assert GroupRows(fp, plan, rows)[..|order|] == GroupRows(fp, plan, rows);
    out := Some(result);
  }

  // ----- execute

  method Execute<D>(fp: Arith<D>, q: Query<D>, table: CsvTable<D>) returns (r: Option<ResultSet<D>>)
    requires table.Valid()
    ensures r == Answer(fp, q, table)
  {
    var plan := Resolve(q, table);
    if plan == None {
      return None;
    }
    var rows;
    if plan.value.groupBy == "" {
      if plan.value.AnyAgg() {
        rows := RunAggregate(fp, plan.value);
      } else {
        rows := RunPlain(fp, plan.value);
      }
    } else {
      rows := RunGroups(fp, plan.value);
    }
    if rows == None {
      return None;
    }
    r := Some(ResultSet(Aliases(q.projections), rows.value));
  }
}
