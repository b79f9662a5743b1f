/** What WHERE keeps and what MIN and MAX report, stated without the code that computes them. */
module SqlMeaning {
  import opened Machine
  import opened SqlParser
  import opened SqlExec
  import opened SqlRun
  import opened Binary64

  // ----- comparison of strings

  /** The strings agree up to n, where the first one ends or is smaller. */
  ghost predicate LessAt(a: string, b: string, n: nat) {
    && n <= |a| && n < |b| && a[..n] == b[..n]
    && (n < |a| ==> a[n] < b[n])
  }

  /** The order of strings is lexicographic: the first difference decides, and a proper prefix is less. */
  lemma {:induction false} StringLessIsLexicographic(a: string, b: string)
    ensures StringLess(a, b) <==> exists n: nat :: LessAt(a, b, n)
  {
    if b != [] && (a == [] || a[0] < b[0]) {
      assert LessAt(a, b, 0);
    } else if b != [] {
      forall n: nat | LessAt(a, b, n) ensures a[0] == b[0] && n > 0 {
        if n > 0 { assert a[..n][0] == b[..n][0]; }
      }
      if a[0] == b[0] {
        LessShifts(a, b);
        StringLessIsLexicographic(a[1..], b[1..]);
      }
    }
  }

  lemma LessShifts(a: string, b: string)
    requires a != [] && b != [] && a[0] == b[0]
    ensures (exists n: nat :: LessAt(a, b, n)) <==> exists n: nat :: LessAt(a[1..], b[1..], n)
  {
    if n: nat :| LessAt(a, b, n) {
      assert n > 0;
      assert a[1..][..n - 1] == a[..n][1..] && b[1..][..n - 1] == b[..n][1..];
      assert LessAt(a[1..], b[1..], n - 1);
    }
    if n: nat :| LessAt(a[1..], b[1..], n) {
      assert a[..n + 1] == [a[0]] + a[1..][..n] && b[..n + 1] == [b[0]] + b[1..][..n];
      assert LessAt(a, b, n + 1);
    }
  }

  /** The six operators on strings are those of one total order. */
  lemma {:induction false} StringOperators(a: string, b: string)
    ensures CompareStrings(Eq, a, b) <==> a == b
    ensures CompareStrings(Ne, a, b) <==> a != b
    ensures CompareStrings(Lt, a, b) <==> StringLess(a, b)
    ensures CompareStrings(Le, a, b) <==> StringLess(a, b) || a == b
    ensures CompareStrings(Gt, a, b) <==> StringLess(b, a)
    ensures CompareStrings(Ge, a, b) <==> StringLess(b, a) || a == b
  {
    StringLessIsTotal(a, b);
    StringLessIsTotal(b, a);
  }

  // ----- comparison of integers

  /** What IEEE 754 binary64 guarantees for integers of magnitude at most 2^53. */
  ghost predicate ExactOnIntegers<D>(fp: Arith<D>) {
    && (forall x: int, y: int :: InExactRange(x) && InExactRange(y) ==>
         fp.lt(fp.ofInt(x), fp.ofInt(y)) == (x < y))
    && (forall x: int :: InExactRange(x) ==> fp.toInt(fp.ofInt(x)) == x)
    && (forall x: int, y: int :: InExactRange(x) && InExactRange(y) && InExactRange(x + y) ==>
         fp.add(fp.ofInt(x), fp.ofInt(y)) == fp.ofInt(x + y))
  }

  /** What it guarantees for every int64: conversion rounds, and comparison compares what is left. */
  ghost predicate RoundsIntegers<D>(fp: Arith<D>) {
    && (forall x: int64, y: int64 ::
         && fp.eq(fp.ofInt(x), fp.ofInt(y)) == (Round(x) == Round(y))
         && fp.lt(fp.ofInt(x), fp.ofInt(y)) == (Round(x) < Round(y))
         && fp.le(fp.ofInt(x), fp.ofInt(y)) == (Round(x) <= Round(y)))
    && (forall x: int64 :: Round(x) < 0x8000_0000_0000_0000 ==> fp.toInt(fp.ofInt(x)) == Round(x))
  }

  /** Doubles that hold integers: both sets of guarantees describe one possible arithmetic. */
  function IntegerDoubles(): Arith<int> {
    Arith(
      x => Round(x),
      d => if -0x8000_0000_0000_0000 <= d < 0x8000_0000_0000_0000 then d else -0x8000_0000_0000_0000,
      (a, b) => Round(a + b),
      (a, b) => a,
      (a, b) => a == b,
      (a, b) => a < b,
      (a, b) => a <= b,
      d => "")
  }

  lemma GuaranteesAreConsistent()
    ensures ExactOnIntegers(IntegerDoubles()) && RoundsIntegers(IntegerDoubles())
  {
    IntegerDoublesAreExact();
    IntegerDoublesRound();
  }

  lemma IntegerDoublesAreExact()
    ensures ExactOnIntegers(IntegerDoubles())
  {
    hide Round;
    forall x: int | InExactRange(x) ensures Round(x) == x {
      SmallIntegersAreExact(x);
    }
  }

  lemma IntegerDoublesRound()
    ensures RoundsIntegers(IntegerDoubles())
  {
    hide Round;
    RoundOfLeast();
    forall x: int64 ensures Round(x) >= -0x8000_0000_0000_0000 {
      RoundIsMonotone(-0x8000_0000_0000_0000, x);
    }
  }

  predicate CompareInts(op: CmpOp, a: int, b: int) {
    match op
    case Eq => a == b
    case Ne => a != b
    case Lt => a < b
    case Le => a <= b
    case Gt => a > b
    case Ge => a >= b
  }

  predicate IsInteger<D>(c: ColData<D>) { c.Int32s? || c.Int64s? }

  /** The integer a row of an integer column holds. */
  function IntAt<D>(c: ColData<D>, i: nat): int64
    requires i < c.Length() && IsInteger(c)
  {
    match c
    case Int32s(s) => s[i]
    case Int64s(s) => s[i]
  }

  /** WHERE compares the rounded integers. */
  lemma WhereRounds<D>(fp: Arith<D>, c: ColData<D>, i: nat, op: CmpOp, n: int64)
    requires RoundsIntegers(fp) && i < c.Length() && IsInteger(c)
    ensures RowMatches(fp, c, i, op, IntLit(n)) == CompareInts(op, Round(IntAt(c, i)), Round(n))
  {
    hide Round;
    assert ToDouble(fp, c, i) == fp.ofInt(IntAt(c, i));
  }

  /** On a literal that rounding separates from all other integers, WHERE compares every int64 row as an integer. */
  lemma WhereIsExact<D>(fp: Arith<D>, c: ColData<D>, i: nat, op: CmpOp, n: int64)
    requires RoundsIntegers(fp) && i < c.Length() && IsInteger(c) && Separated(n)
    ensures RowMatches(fp, c, i, op, IntLit(n)) == CompareInts(op, IntAt(c, i), n)
  {
    hide Round, Separated;
    WhereRounds(fp, c, i, op, n);
    SeparatedKeepsOrder(IntAt(c, i), n);
  }

  /** All six tests against n agree with the integers, on every int64 column. */
  ghost predicate TestsAreExact<D>(fp: Arith<D>, n: int64) {
    forall rows: seq<int64>, i: nat, op: CmpOp :: i < |rows| ==>
      RowMatches(fp, Int64s(rows), i, op, IntLit(n)) == CompareInts(op, rows[i], n)
  }

  /**
   Tests against n agree with the integers on every column exactly when the magnitude of n is below
   2^53, or below 2^54 with n twice an odd number.
   */
  lemma WhereOnWideIntegers<D>(fp: Arith<D>, n: int64)
    requires RoundsIntegers(fp)
    ensures TestsAreExact(fp, n) <==>
            (-0x20_0000_0000_0000 < n < 0x20_0000_0000_0000
             || (-0x40_0000_0000_0000 < n < 0x40_0000_0000_0000 && n % 4 == 2))
  {
    if Separated(n) {
      forall rows: seq<int64>, i: nat, op: CmpOp | i < |rows|
        ensures RowMatches(fp, Int64s(rows), i, op, IntLit(n)) == CompareInts(op, rows[i], n)
      {
        WhereIsExact(fp, Int64s(rows), i, op, n);
      }
    } else {
      WhereMergesWideIntegers(fp, n);
    }
  }

  /** Any other literal passes an equality test against a neighbour of itself: 2^53 against 2^53 + 1, for one. */
  lemma WhereMergesWideIntegers<D>(fp: Arith<D>, n: int64)
    requires RoundsIntegers(fp) && !Separated(n)
    ensures -0x8000_0000_0000_0000 <= MergedWith(n) < 0x8000_0000_0000_0000 && MergedWith(n) in {n - 1, n + 1}
    ensures RowMatches(fp, Int64s([MergedWith(n)]), 0, Eq, IntLit(n))
    ensures MergedWith(0x20_0000_0000_0000) == 0x20_0000_0000_0001
  {
    OthersMerge(n);
    hide Round;
    WhereRounds(fp, Int64s([MergedWith(n)]), 0, Eq, n);
  }

  // ----- WHERE on strings and doubles

  /** A string test asks for the lexicographic order of the row against the literal. */
  lemma WhereOnStrings<D>(fp: Arith<D>, rows: seq<string>, i: nat, s: string)
    requires i < |rows|
    ensures RowMatches(fp, Strings(rows), i, Eq, StrLit(s)) <==> rows[i] == s
    ensures RowMatches(fp, Strings(rows), i, Lt, StrLit(s)) <==> exists n: nat :: LessAt(rows[i], s, n)
    ensures RowMatches(fp, Strings(rows), i, Gt, StrLit(s)) <==> exists n: nat :: LessAt(s, rows[i], n)
    ensures RowMatches(fp, Strings(rows), i, Ne, StrLit(s)) <==> rows[i] != s
    ensures RowMatches(fp, Strings(rows), i, Ge, StrLit(s)) <==> !exists n: nat :: LessAt(rows[i], s, n)
    ensures RowMatches(fp, Strings(rows), i, Le, StrLit(s)) <==> !exists n: nat :: LessAt(s, rows[i], n)
  {
    StringLessIsLexicographic(rows[i], s);
    StringLessIsLexicographic(s, rows[i]);
    hide LessAt, StringLess;
  }

  /** Doubles other than NaN compare as the reals they stand for, and NaN is unequal to everything. */
  ghost predicate OrdersLikeReals<D(!new)>(fp: Arith<D>, isNaN: D -> bool, value: D -> real) {
    forall a: D, b: D ::
      var numbers := !isNaN(a) && !isNaN(b);
      && fp.eq(a, b) == (numbers && value(a) == value(b))
      && fp.lt(a, b) == (numbers && value(a) < value(b))
      && fp.le(a, b) == (numbers && value(a) <= value(b))
  }

  predicate CompareReals(op: CmpOp, a: real, b: real) {
    match op
    case Eq => a == b
    case Ne => a != b
    case Lt => a < b
    case Le => a <= b
    case Gt => a > b
    case Ge => a >= b
  }

  /** The double a numeric row or literal stands for; strings count as zero in sums. */
  function NumberAt<D>(fp: Arith<D>, c: ColData<D>, i: nat): D
    requires i < c.Length()
  {
    match c
    case Int32s(s) => fp.ofInt(s[i])
    case Int64s(s) => fp.ofInt(s[i])
    case Doubles(s) => s[i]
    case Strings(s) => fp.ofInt(0)
  }

  function NumberOf<D>(fp: Arith<D>, v: Literal<D>): D
    requires !v.StrLit?
  {
    match v
    case IntLit(n) => fp.ofInt(n)
    case DoubleLit(d) => d
  }

  /** A numeric test compares the row's real value with the literal's; NaN on either side passes != only. */
  lemma WhereOnDoubles<D(!new)>(fp: Arith<D>, isNaN: D -> bool, value: D -> real,
      c: ColData<D>, i: nat, op: CmpOp, v: Literal<D>)
    requires OrdersLikeReals(fp, isNaN, value) && i < c.Length() && !c.Strings? && !v.StrLit?
    ensures var row, literal := NumberAt(fp, c, i), NumberOf(fp, v);
            RowMatches(fp, c, i, op, v) <==>
            if isNaN(row) || isNaN(literal) then op == Ne else CompareReals(op, value(row), value(literal))
  {
    assert ToDouble(fp, c, i) == NumberAt(fp, c, i);
  }

  // ----- which rows

  predicate Increasing(rows: seq<nat>) {
    forall i, j :: 0 <= i < j < |rows| ==> rows[i] < rows[j]
  }

  /** WHERE keeps exactly the rows that pass its test, each once and in row order. */
  lemma {:induction false} MatchingIsExact<D>(fp: Arith<D>, w: Option<Filter<D>>, n: nat, i: nat)
    requires i <= n && FilterFits(w, n) && !FilterThrows(w, n)
    ensures Increasing(Matching(fp, w, n, i))
    ensures forall j: nat :: j in Matching(fp, w, n, i) <==> j < i && Keeps(fp, w, j)
  {
    if i > 0 {
      MatchingIsExact(fp, w, n, i - 1);
    }
  }

  /** A group holds exactly the listed rows with its key. */
  lemma {:induction false} RowsOfIsExact<D>(fp: Arith<D>, gb: ColData<D>, k: string, rows: seq<nat>)
    requires InRange(rows, gb.Length())
    ensures forall j: nat :: j in RowsOf(fp, gb, k, rows) <==> j in rows && CellKey(fp, gb, j) == k
  {
    hide CellKey;
    if rows != [] {
      var n := |rows| - 1;
      RowsOfIsExact(fp, gb, k, rows[..n]);
      assert rows == rows[..n] + [rows[n]];
    }
  }

  /** And it keeps their order. */
  lemma {:induction false} RowsOfKeepsOrder<D>(fp: Arith<D>, gb: ColData<D>, k: string, rows: seq<nat>)
    requires InRange(rows, gb.Length()) && Increasing(rows)
    ensures Increasing(RowsOf(fp, gb, k, rows))
  {
    hide CellKey;
    if rows != [] {
      var n := |rows| - 1;
      RowsOfKeepsOrder(fp, gb, k, rows[..n]);
      var own := RowsOf(fp, gb, k, rows[..n]);
      forall i | 0 <= i < |own| ensures own[i] < rows[n] {
        assert own[i] in rows[..n];
      }
    }
  }

  // ----- MIN and MAX

  ghost predicate Below<D>(fp: Arith<D>, c: ColData<D>, i: nat, j: nat)
    requires i < c.Length() && j < c.Length() && !c.Strings?
  {
    fp.lt(ToDouble(fp, c, i), ToDouble(fp, c, j))
  }

  /** The column's values are ordered; in binary64 this fails only for NaN. */
  ghost predicate Ordered<D>(fp: Arith<D>, c: ColData<D>)
    requires !c.Strings?
  {
    && (forall i: nat, j: nat :: i < c.Length() && j < c.Length() && Below(fp, c, i, j) ==>
         !Below(fp, c, j, i))
    && (forall i: nat, j: nat, k: nat :: i < c.Length() && j < c.Length() && k < c.Length() && Below(fp, c, i, k) ==>
         Below(fp, c, i, j) || Below(fp, c, j, k))
  }

  ghost predicate IsLeast<D>(fp: Arith<D>, c: ColData<D>, rows: seq<nat>, m: nat)
    requires InRange(rows, c.Length()) && m < c.Length() && !c.Strings?
  {
    m in rows && forall j :: 0 <= j < |rows| ==> !Below(fp, c, rows[j], m)
  }

  ghost predicate IsGreatest<D>(fp: Arith<D>, c: ColData<D>, rows: seq<nat>, m: nat)
    requires InRange(rows, c.Length()) && m < c.Length() && !c.Strings?
  {
    m in rows && forall j :: 0 <= j < |rows| ==> !Below(fp, c, m, rows[j])
  }

  /** MIN is the value of a matching row that none of them is below. */
  lemma {:induction false} MinIsLeast<D>(fp: Arith<D>, c: ColData<D>, rows: seq<nat>)
    requires !c.Strings? && InRange(rows, c.Length()) && Ordered(fp, c)
    ensures FoldRows(fp, Min, c, rows).seen <==> rows != []
    ensures rows != [] ==> exists m: nat :: m < c.Length() && IsLeast(fp, c, rows, m)
                                             && FoldRows(fp, Min, c, rows).min == ToDouble(fp, c, m)
  {
    if rows != [] {
      var n := |rows| - 1;
      MinIsLeast(fp, c, rows[..n]);
      assert rows == rows[..n] + [rows[n]];
      if n == 0 {
        assert IsLeast(fp, c, rows, rows[n]);
      } else {
        var m: nat :| m < c.Length() && IsLeast(fp, c, rows[..n], m)
                      && FoldRows(fp, Min, c, rows[..n]).min == ToDouble(fp, c, m);
        var w := if Below(fp, c, rows[n], m) then rows[n] else m;
        forall j | 0 <= j < |rows| ensures !Below(fp, c, rows[j], w) {
          if j < n { assert !Below(fp, c, rows[..n][j], m); }
        }
        assert IsLeast(fp, c, rows, w);
      }
    }
  }

  /** MAX is the value of a matching row that is below none of them. */
  lemma {:induction false} MaxIsGreatest<D>(fp: Arith<D>, c: ColData<D>, rows: seq<nat>)
    requires !c.Strings? && InRange(rows, c.Length()) && Ordered(fp, c)
    ensures FoldRows(fp, Max, c, rows).seen <==> rows != []
    ensures rows != [] ==> exists m: nat :: m < c.Length() && IsGreatest(fp, c, rows, m)
                                             && FoldRows(fp, Max, c, rows).max == ToDouble(fp, c, m)
  {
    if rows != [] {
      var n := |rows| - 1;
      MaxIsGreatest(fp, c, rows[..n]);
      assert rows == rows[..n] + [rows[n]];
      if n == 0 {
        assert IsGreatest(fp, c, rows, rows[n]);
      } else {
        var m: nat :| m < c.Length() && IsGreatest(fp, c, rows[..n], m)
                      && FoldRows(fp, Max, c, rows[..n]).max == ToDouble(fp, c, m);
        var w := if Below(fp, c, m, rows[n]) then rows[n] else m;
        forall j | 0 <= j < |rows| ensures !Below(fp, c, w, rows[j]) {
          if j < n { assert !Below(fp, c, m, rows[..n][j]); }
        }
        assert IsGreatest(fp, c, rows, w);
      }
    }
  }

  // ----- the answer cells of MIN and MAX

  function LeastOf<D>(c: ColData<D>, rows: seq<nat>): int64
    requires IsInteger(c) && InRange(rows, c.Length()) && rows != []
  {
    var n := |rows| - 1;
    if n == 0 || IntAt(c, rows[n]) < LeastOf(c, rows[..n]) then IntAt(c, rows[n]) else LeastOf(c, rows[..n])
  }

  function GreatestOf<D>(c: ColData<D>, rows: seq<nat>): int64
    requires IsInteger(c) && InRange(rows, c.Length()) && rows != []
  {
    var n := |rows| - 1;
    if n == 0 || IntAt(c, rows[n]) > GreatestOf(c, rows[..n]) then IntAt(c, rows[n]) else GreatestOf(c, rows[..n])
  }

  /** They are values of listed rows and bound all of them. */
  lemma {:induction false} ExtremesAreRows<D>(c: ColData<D>, rows: seq<nat>)
    requires IsInteger(c) && InRange(rows, c.Length()) && rows != []
    ensures exists m :: m in rows && LeastOf(c, rows) == IntAt(c, m)
    ensures exists m :: m in rows && GreatestOf(c, rows) == IntAt(c, m)
    ensures forall j :: 0 <= j < |rows| ==> LeastOf(c, rows) <= IntAt(c, rows[j]) <= GreatestOf(c, rows)
  {
    var n := |rows| - 1;
    assert rows[n] in rows;
    if n > 0 {
      ExtremesAreRows(c, rows[..n]);
      assert forall j :: 0 <= j < n ==> rows[..n][j] == rows[j];
    }
  }

  lemma {:induction false} DoubleSource<D>(fp: Arith<D>, kind: AggKind, c: ColData<D>, rows: seq<nat>)
    requires InRange(rows, c.Length())
    ensures FoldRows(fp, kind, c, rows).sourceIsDouble <==> c.Doubles? && rows != []
  {
    if rows != [] {
      DoubleSource(fp, kind, c, rows[..|rows| - 1]);
    }
  }

  lemma RoundedOrder<D>(fp: Arith<D>, c: ColData<D>, i: nat, j: nat)
    requires RoundsIntegers(fp) && IsInteger(c) && i < c.Length() && j < c.Length()
    ensures Below(fp, c, i, j) == (Round(IntAt(c, i)) < Round(IntAt(c, j)))
    ensures ToDouble(fp, c, i) == fp.ofInt(IntAt(c, i))
  {
    hide Round;
  }

  lemma IntegersAreOrdered<D>(fp: Arith<D>, c: ColData<D>)
    requires RoundsIntegers(fp) && IsInteger(c)
    ensures Ordered(fp, c)
  {
    hide Round, Below;
    forall i: nat, j: nat | i < c.Length() && j < c.Length()
      ensures Below(fp, c, i, j) == (Round(IntAt(c, i)) < Round(IntAt(c, j)))
    {
      RoundedOrder(fp, c, i, j);
    }
  }

  /** On an integer column the Min cell is the rounded least integer, when that fits into int64. */
  lemma MinOfIntegers<D>(fp: Arith<D>, c: ColData<D>, rows: seq<nat>)
    requires RoundsIntegers(fp) && IsInteger(c) && InRange(rows, c.Length()) && rows != []
    requires Round(LeastOf(c, rows)) < 0x8000_0000_0000_0000
    ensures Finalize(fp, Min, FoldRows(fp, Min, c, rows)) == IntCell(Round(LeastOf(c, rows)))
  {
    hide Round, FoldRows, LeastOf, GreatestOf;
    IntegersAreOrdered(fp, c);
    MinIsLeast(fp, c, rows);
    ExtremesAreRows(c, rows);
    DoubleSource(fp, Min, c, rows);
    var m: nat :| m < c.Length() && IsLeast(fp, c, rows, m) && FoldRows(fp, Min, c, rows).min == ToDouble(fp, c, m);
    var l :| l in rows && LeastOf(c, rows) == IntAt(c, l);
    RoundedOrder(fp, c, l, m);
    RoundedOrder(fp, c, m, l);
    RoundIsMonotone(LeastOf(c, rows), IntAt(c, m));
  }

  /** On an integer column the Max cell is the rounded greatest integer, when that fits into int64. */
  lemma MaxOfIntegers<D>(fp: Arith<D>, c: ColData<D>, rows: seq<nat>)
    requires RoundsIntegers(fp) && IsInteger(c) && InRange(rows, c.Length()) && rows != []
    requires Round(GreatestOf(c, rows)) < 0x8000_0000_0000_0000
    ensures Finalize(fp, Max, FoldRows(fp, Max, c, rows)) == IntCell(Round(GreatestOf(c, rows)))
  {
    hide Round, FoldRows, LeastOf, GreatestOf;
    IntegersAreOrdered(fp, c);
    MaxIsGreatest(fp, c, rows);
    ExtremesAreRows(c, rows);
    DoubleSource(fp, Max, c, rows);
    var m: nat :| m < c.Length() && IsGreatest(fp, c, rows, m) && FoldRows(fp, Max, c, rows).max == ToDouble(fp, c, m);
    var l :| l in rows && GreatestOf(c, rows) == IntAt(c, l);
    RoundedOrder(fp, c, l, m);
    RoundedOrder(fp, c, m, l);
    RoundIsMonotone(IntAt(c, m), GreatestOf(c, rows));
  }

  lemma EmptyCell<D>(fp: Arith<D>, kind: AggKind, c: ColData<D>)
    requires RoundsIntegers(fp) && kind in {Min, Max}
    ensures Finalize(fp, kind, FoldRows(fp, kind, c, [])) == IntCell(0)
  {
    assert Round(0) == 0;
    hide Round;
    assert fp.toInt(fp.ofInt(0)) == 0;
  }

  /**
   The Min cell of an ungrouped answer: on an integer column it is the least matching value exactly
   when rounding keeps that value, on a double column without NaN it is the value of a least
   matching row, and it is the integer 0 when no row matches.
   */
  lemma MinCell<D>(fp: Arith<D>, plan: Plan<D>, k: nat)
    requires RoundsIntegers(fp) && plan.Valid() && plan.groupCol.None? && AnswerRows(fp, plan).Some?
    requires k < |plan.cols| && plan.projections[k].agg == Min
    ensures var rows := Matching(fp, plan.filter, plan.rowCount, plan.rowCount);
            var c, cell := plan.cols[k], AggRow(fp, plan, rows)[k];
            && AnswerRows(fp, plan) == Some([AggRow(fp, plan, rows)])
            && (rows == [] ==> cell == IntCell(0))
            && (rows != [] && IsInteger(c) && Round(LeastOf(c, rows)) < 0x8000_0000_0000_0000 ==>
                 && cell == IntCell(Round(LeastOf(c, rows)))
                 && (cell == IntCell(LeastOf(c, rows)) <==> Survives(LeastOf(c, rows))))
            && (rows != [] && c.Doubles? && Ordered(fp, c) ==>
                 exists m: nat :: m < c.Length() && IsLeast(fp, c, rows, m) && cell == ColumnCell(c, m))
  {
    var rows := Matching(fp, plan.filter, plan.rowCount, plan.rowCount);
    var c := plan.cols[k];
    assert plan.projections[k].agg != NoAgg;
    assert plan.AnyAgg();
    hide Round, FoldRows, LeastOf, GreatestOf, Matching, Ordered, Survives, IsLeast;
    if rows == [] {
      EmptyCell(fp, Min, c);
    } else if IsInteger(c) {
      SurvivorsAreFixed(LeastOf(c, rows));
      if Round(LeastOf(c, rows)) < 0x8000_0000_0000_0000 {
        MinOfIntegers(fp, c, rows);
      }
    } else if c.Doubles? && Ordered(fp, c) {
      MinIsLeast(fp, c, rows);
      DoubleSource(fp, Min, c, rows);
    }
  }

  /**
   The Max cell of an ungrouped answer: on an integer column it is the greatest matching value exactly
   when rounding keeps that value, on a double column without NaN it is the value of a greatest
   matching row, and it is the integer 0 when no row matches.
   */
  lemma MaxCell<D>(fp: Arith<D>, plan: Plan<D>, k: nat)
    requires RoundsIntegers(fp) && plan.Valid() && plan.groupCol.None? && AnswerRows(fp, plan).Some?
    requires k < |plan.cols| && plan.projections[k].agg == Max
    ensures var rows := Matching(fp, plan.filter, plan.rowCount, plan.rowCount);
            var c, cell := plan.cols[k], AggRow(fp, plan, rows)[k];
            && AnswerRows(fp, plan) == Some([AggRow(fp, plan, rows)])
            && (rows == [] ==> cell == IntCell(0))
            && (rows != [] && IsInteger(c) && Round(GreatestOf(c, rows)) < 0x8000_0000_0000_0000 ==>
                 && cell == IntCell(Round(GreatestOf(c, rows)))
                 && (cell == IntCell(GreatestOf(c, rows)) <==> Survives(GreatestOf(c, rows))))
            && (rows != [] && c.Doubles? && Ordered(fp, c) ==>
                 exists m: nat :: m < c.Length() && IsGreatest(fp, c, rows, m) && cell == ColumnCell(c, m))
  {
    var rows := Matching(fp, plan.filter, plan.rowCount, plan.rowCount);
    var c := plan.cols[k];
    assert plan.projections[k].agg != NoAgg;
    assert plan.AnyAgg();
    hide Round, FoldRows, LeastOf, GreatestOf, Matching, Ordered, Survives, IsGreatest;
    if rows == [] {
      EmptyCell(fp, Max, c);
    } else if IsInteger(c) {
      SurvivorsAreFixed(GreatestOf(c, rows));
      if Round(GreatestOf(c, rows)) < 0x8000_0000_0000_0000 {
        MaxOfIntegers(fp, c, rows);
      }
    } else if c.Doubles? && Ordered(fp, c) {
      MaxIsGreatest(fp, c, rows);
      DoubleSource(fp, Max, c, rows);
    }
  }

  /** SELECT MIN(a) over the single row 2^53 + 1 answers 2^53, a value no row holds. */
  lemma MinLosesAWideInteger<D>(fp: Arith<D>)
    requires RoundsIntegers(fp)
    ensures var table := CsvTable([CsvColumn("a", Int64s([0x20_0000_0000_0001]))], 1);
            Answer(fp, Query([Projection("a", Min, "min")], "t", None, ""), table) ==
            Some(ResultSet(["min"], [[IntCell(0x20_0000_0000_0000)]]))
  {
    var c: ColData<D> := Int64s([0x20_0000_0000_0001]);
    var plan := SingleColumnPlan(c, Projection("a", Min, "min"));
    WideRow(fp, plan);
    assert Aliases(plan.projections) == ["min"];
    hide Resolve, AnswerRows;
  }

  lemma WideRow<D>(fp: Arith<D>, plan: Plan<D>)
    requires RoundsIntegers(fp) && plan.Valid()
    requires plan == Plan([Projection("a", Min, "min")], [Int64s([0x20_0000_0000_0001])], None, "", None, 1)
    ensures AnswerRows(fp, plan) == Some([[IntCell(0x20_0000_0000_0000)]])
  {
    hide RoundsIntegers, Round, FoldRows, Finalize, AnswerRows;
    assert LeastOf(plan.cols[0], [0]) == 0x20_0000_0000_0001;
    RoundOfFirstWide();
    MinOfIntegers(fp, plan.cols[0], [0]);
    SingleCell(fp, plan);
  }

  lemma SingleCell<D>(fp: Arith<D>, plan: Plan<D>)
    requires plan.Valid() && plan.filter == None && plan.groupCol == None && plan.rowCount == 1
    requires |plan.projections| == 1 && plan.projections[0].agg != NoAgg
    ensures var kind := plan.projections[0].agg;
            AnswerRows(fp, plan) == Some([[Finalize(fp, kind, FoldRows(fp, kind, plan.cols[0], [0]))]])
  {
    hide FoldRows, Finalize;
    assert plan.AnyAgg();
    assert Matching(fp, plan.filter, 1, 1) == [0];
    hide Matching;
    var kind := plan.projections[0].agg;
    assert AggRow(fp, plan, [0]) == [Finalize(fp, kind, FoldRows(fp, kind, plan.cols[0], [0]))];
  }

  lemma RoundOfFirstWide()
    ensures Round(0x20_0000_0000_0001) == 0x20_0000_0000_0000
  {
    hide RoundMagnitude;
    NarrowUnits(0x20_0000_0000_0001);
  }

  lemma SingleColumnPlan<D>(c: ColData<D>, p: Projection) returns (plan: Plan<D>)
    requires p.col == "a"
    ensures plan.Valid() && plan == Plan([p], [c], None, "", None, c.Length())
    ensures Resolve(Query([p], "t", None, ""), CsvTable([CsvColumn("a", c)], c.Length())) == Some(plan)
  {
    var table := CsvTable([CsvColumn("a", c)], c.Length());
    var none: seq<ColData<D>> := [];
    assert [p][..0] == [] && none + [c] == [c];
    assert LookUp(table, [p][..0]) == Some(none);
    assert LookUp(table, [p]) == Some([c]);
    plan := Plan([p], [c], None, "", None, c.Length());
  }
}
