/**
 The SQL executor over an in-memory table.  Double arithmetic is an arbitrary record of
 operations, so every result here holds whatever rounding does.
 */
module SqlExec {
  import opened Machine
  import opened Decimal
  import opened SqlParser

  /** The operations on doubles the executor uses. */
  datatype Arith<!D> = Arith(
    ofInt: int -> D,
    toInt: D -> int64,
    add: (D, D) -> D,
    div: (D, D) -> D,
    eq: (D, D) -> bool,
    lt: (D, D) -> bool,
    le: (D, D) -> bool,
    show: D -> string)

  // ----- tables

  datatype ColData<D> =
    | Int32s(i32: seq<int32>)
    | Int64s(i64: seq<int64>)
    | Doubles(f64: seq<D>)
    | Strings(str: seq<string>)
  {
    function Length(): nat {
      match this
      case Int32s(s) => |s|
      case Int64s(s) => |s|
      case Doubles(s) => |s|
      case Strings(s) => |s|
    }
  }

  datatype CsvColumn<D> = CsvColumn(name: string, data: ColData<D>)

  datatype CsvTable<D> = CsvTable(cols: seq<CsvColumn<D>>, rowCount: nat)
  {
    /** Every column holds one value per row, as CSV ingest leaves it. */
    predicate Valid() {
      forall i :: 0 <= i < |cols| ==> cols[i].data.Length() == rowCount
    }

    /** The first column of that name. */
    function Find(name: string): (c: Option<CsvColumn<D>>)
      ensures c.Some? ==> c.value in cols && c.value.name == name
    {
      FindFrom(name, 0)
    }

    function FindFrom(name: string, i: nat): (c: Option<CsvColumn<D>>)
      ensures c.Some? ==> c.value in cols && c.value.name == name
      decreases |cols| - i
    {
      if i >= |cols| then None else if cols[i].name == name then Some(cols[i]) else FindFrom(name, i + 1)
    }
  }

  // ----- cells

  datatype Cell<D> = IntCell(i: int) | DoubleCell(d: D) | StringCell(s: string)

  datatype ResultSet<D> = ResultSet(columnNames: seq<string>, rows: seq<seq<Cell<D>>>)

  function ToDouble<D>(fp: Arith<D>, c: ColData<D>, i: nat): D
    requires i < c.Length() && !c.Strings?
  {
    match c
    case Int32s(s) => fp.ofInt(s[i])
    case Int64s(s) => fp.ofInt(s[i])
    case Doubles(s) => s[i]
  }

  function ColumnCell<D>(c: ColData<D>, i: nat): Cell<D>
    requires i < c.Length()
  {
    match c
    case Int32s(s) => IntCell(s[i])
    case Int64s(s) => IntCell(s[i])
    case Doubles(s) => DoubleCell(s[i])
    case Strings(s) => StringCell(s[i])
  }

  function CellKey<D>(fp: Arith<D>, c: ColData<D>, i: nat): string
    requires i < c.Length()
  {
    match c
    case Int32s(s) => Print(s[i])
    case Int64s(s) => Print(s[i])
    case Doubles(s) => fp.show(s[i])
    case Strings(s) => "s:" + s[i]
  }

  // ----- comparison

  /** Lexicographic order of strings, as std::string and std::map use it. */
  predicate StringLess(a: string, b: string) {
    if b == [] then false
    else if a == [] then true
    else if a[0] != b[0] then a[0] < b[0]
    else StringLess(a[1..], b[1..])
  }

  predicate CompareStrings(op: CmpOp, a: string, b: string) {
    match op
    case Eq => a == b
    case Ne => a != b
    case Lt => StringLess(a, b)
    case Le => !StringLess(b, a)
    case Gt => StringLess(b, a)
    case Ge => !StringLess(a, b)
  }

  predicate CompareDoubles<D>(fp: Arith<D>, op: CmpOp, a: D, b: D) {
    match op
    case Eq => fp.eq(a, b)
    case Ne => !fp.eq(a, b)
    case Lt => fp.lt(a, b)
    case Le => fp.le(a, b)
    case Gt => fp.lt(b, a)
    case Ge => fp.le(b, a)
  }

  /** Whether the literal can be compared with the column at all; where it cannot, row_matches throws. */
  predicate Comparable<D>(c: ColData<D>, v: Literal<D>) {
    c.Strings? <==> v.StrLit?
  }

  predicate RowMatches<D>(fp: Arith<D>, c: ColData<D>, i: nat, op: CmpOp, v: Literal<D>)
    requires i < c.Length() && Comparable(c, v)
  {
    match v
    case StrLit(s) => CompareStrings(op, c.str[i], s)
    case IntLit(n) => CompareDoubles(fp, op, ToDouble(fp, c, i), fp.ofInt(n))
    case DoubleLit(d) => CompareDoubles(fp, op, ToDouble(fp, c, i), d)
  }

  // ----- aggregate states

  datatype AggState<D> = AggState(
    sum: D, count: nat, min: D, max: D, seen: bool, sourceIsDouble: bool, distinct: set<string>)

  function InitState<D>(fp: Arith<D>): AggState<D> {
    AggState(fp.ofInt(0), 0, fp.ofInt(0), fp.ofInt(0), false, false, {})
  }

  /** Folds row i of the column into the state. */
  function FoldRow<D>(fp: Arith<D>, kind: AggKind, s: AggState<D>, c: ColData<D>, i: nat): AggState<D>
    requires i < c.Length()
  {
    var t := if c.Doubles? then s.(sourceIsDouble := true) else s;
    var v := if c.Strings? then fp.ofInt(0) else ToDouble(fp, c, i);
    match kind
    case Sum => t.(sum := fp.add(t.sum, v), count := t.count + 1)
    case Avg => t.(sum := fp.add(t.sum, v), count := t.count + 1)
    case Count => t.(count := t.count + 1)
    case Min =>
      if !t.seen then t.(min := v, seen := true, count := t.count + 1)
      else if fp.lt(v, t.min) then t.(min := v, count := t.count + 1)
      else t.(count := t.count + 1)
    case Max =>
      if !t.seen then t.(max := v, seen := true, count := t.count + 1)
      else if fp.lt(t.max, v) then t.(max := v, count := t.count + 1)
      else t.(count := t.count + 1)
    case CountDistinct => t.(distinct := t.distinct + {CellKey(fp, c, i)})
    case NoAgg => t
  }

  function Finalize<D>(fp: Arith<D>, kind: AggKind, s: AggState<D>): Cell<D> {
    match kind
    case Sum => if s.sourceIsDouble then DoubleCell(s.sum) else IntCell(fp.toInt(s.sum))
    case Count => IntCell(s.count)
    case Min => if s.sourceIsDouble then DoubleCell(s.min) else IntCell(fp.toInt(s.min))
    case Max => if s.sourceIsDouble then DoubleCell(s.max) else IntCell(fp.toInt(s.max))
    case Avg => DoubleCell(if s.count == 0 then fp.ofInt(0) else fp.div(s.sum, fp.ofInt(s.count)))
    case CountDistinct => IntCell(|s.distinct|)
    case NoAgg => IntCell(0)
  }

  /** The state after folding the listed rows in order. */
  function FoldRows<D>(fp: Arith<D>, kind: AggKind, c: ColData<D>, rows: seq<nat>): AggState<D>
    requires InRange(rows, c.Length())
  {
    if rows == [] then InitState(fp)
    else FoldRow(fp, kind, FoldRows(fp, kind, c, rows[..|rows| - 1]), c, rows[|rows| - 1])
  }

  predicate InRange(rows: seq<nat>, n: nat) {
    forall i :: 0 <= i < |rows| ==> rows[i] < n
  }

  // ----- WHERE

  datatype Filter<D> = Filter(col: ColData<D>, op: CmpOp, value: Literal<D>)

  predicate FilterFits<D>(w: Option<Filter<D>>, n: nat) {
    w.Some? ==> w.value.col.Length() == n
  }

  /** The executor throws on the first row whose column cannot be compared with the literal. */
  predicate FilterThrows<D>(w: Option<Filter<D>>, n: nat) {
    n > 0 && w.Some? && !Comparable(w.value.col, w.value.value)
  }

  predicate Keeps<D>(fp: Arith<D>, w: Option<Filter<D>>, i: nat)
    requires w.Some? ==> i < w.value.col.Length() && Comparable(w.value.col, w.value.value)
  {
    w.None? || RowMatches(fp, w.value.col, i, w.value.op, w.value.value)
  }

  /** The matching rows among the first i. */
  function Matching<D>(fp: Arith<D>, w: Option<Filter<D>>, n: nat, i: nat): (rows: seq<nat>)
    requires i <= n && FilterFits(w, n) && !FilterThrows(w, n)
    ensures InRange(rows, i)
  {
    if i == 0 then []
    else if Keeps(fp, w, i - 1) then Matching(fp, w, n, i - 1) + [i - 1]
    else Matching(fp, w, n, i - 1)
  }

  // ----- groups

  /** The listed rows whose key is k. */
  function RowsOf<D>(fp: Arith<D>, gb: ColData<D>, k: string, rows: seq<nat>): (r: seq<nat>)
    requires InRange(rows, gb.Length())
    ensures InRange(r, gb.Length())
    ensures forall i :: 0 <= i < |r| ==> r[i] in rows && CellKey(fp, gb, r[i]) == k
  {
    if rows == [] then []
    else
      var n := |rows| - 1;
      RowsOf(fp, gb, k, rows[..n]) + if CellKey(fp, gb, rows[n]) == k then [rows[n]] else []
  }

  /** Ordered insertion into a list of distinct keys. */
  function Insert(keys: seq<string>, k: string): seq<string> {
    if keys == [] then [k]
    else if keys[0] == k then keys
    else if StringLess(k, keys[0]) then [k] + keys
    else [keys[0]] + Insert(keys[1..], k)
  }

  /** The keys of the listed rows, in the order std::map keeps them. */
  function KeysOf<D>(fp: Arith<D>, gb: ColData<D>, rows: seq<nat>): seq<string>
    requires InRange(rows, gb.Length())
  {
    if rows == [] then []
    else Insert(KeysOf(fp, gb, rows[..|rows| - 1]), CellKey(fp, gb, rows[|rows| - 1]))
  }

  predicate Ascending(keys: seq<string>) {
    forall i, j :: 0 <= i < j < |keys| ==> StringLess(keys[i], keys[j])
  }

  lemma {:induction false} StringLessIsTransitive(a: string, b: string, c: string)
    requires StringLess(a, b) && StringLess(b, c)
    ensures StringLess(a, c)
  {
    if a != [] && a[0] == b[0] == c[0] {
      StringLessIsTransitive(a[1..], b[1..], c[1..]);
    }
  }

  lemma {:induction false} StringLessIsTotal(a: string, b: string)
    ensures a == b || StringLess(a, b) || StringLess(b, a)
    ensures !(StringLess(a, b) && StringLess(b, a)) && !StringLess(a, a)
  {
    if a != [] && b != [] {
      StringLessIsTotal(a[1..], b[1..]);
      assert a == [a[0]] + a[1..] && b == [b[0]] + b[1..];
    }
    if a != [] {
      StringLessIsTotal(a[1..], a[1..]);
    }
  }

  lemma {:induction false} InsertKeepsOrder(keys: seq<string>, k: string)
    requires Ascending(keys)
    ensures Ascending(Insert(keys, k))
    ensures forall x :: x in Insert(keys, k) <==> x in keys || x == k
    ensures k in keys ==> Insert(keys, k) == keys
  {
    if keys != [] && keys[0] != k && !StringLess(k, keys[0]) {
      StringLessIsTotal(k, keys[0]);
      var rest := Insert(keys[1..], k);
      InsertKeepsOrder(keys[1..], k);
      assert keys == [keys[0]] + keys[1..];
      forall j | 0 <= j < |rest| ensures StringLess(keys[0], rest[j]) {
        assert rest[j] in keys[1..] || rest[j] == k;
      }
    } else if keys != [] && StringLess(k, keys[0]) {
      StringLessIsTotal(k, keys[0]);
      forall j | 0 < j < |keys| ensures StringLess(k, keys[j]) {
        StringLessIsTransitive(k, keys[0], keys[j]);
      }
      forall j | 0 <= j < |keys| ensures keys[j] != k {
        StringLessIsTotal(k, keys[j]);
      }
    }
  }

  lemma NoKeysAscend()
    ensures Ascending([])
  {
  }

  /** The group keys come out strictly ascending, and they are exactly the keys of the listed rows. */
  lemma {:induction false} KeysAreExact<D>(fp: Arith<D>, gb: ColData<D>, rows: seq<nat>)
    requires InRange(rows, gb.Length())
    ensures Ascending(KeysOf(fp, gb, rows))
    ensures forall k :: k in KeysOf(fp, gb, rows) <==> RowsOf(fp, gb, k, rows) != []
    ensures forall i :: 0 <= i < |rows| ==> CellKey(fp, gb, rows[i]) in KeysOf(fp, gb, rows)
  {
    hide CellKey, Insert, Ascending, StringLess;
    if rows == [] {
      NoKeysAscend();
    } else {
      var n := |rows| - 1;
      KeysAreExact(fp, gb, rows[..n]);
      InsertKeepsOrder(KeysOf(fp, gb, rows[..n]), CellKey(fp, gb, rows[n]));
      forall i | 0 <= i < |rows| ensures CellKey(fp, gb, rows[i]) in KeysOf(fp, gb, rows) {
        if i < n { assert rows[i] == rows[..n][i]; }
      }
    }
  }
}
