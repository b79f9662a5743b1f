/**
 The recursive-descent parser and the grammar it implements.  Doubles are an arbitrary type D:
 std::stod is a parameter that may throw.
 */
module SqlParser {
  import opened Machine
  import opened SqlLexer
  import opened Decimal

  datatype AggKind = NoAgg | Sum | Count | Min | Max | Avg | CountDistinct

  datatype CmpOp = Eq | Ne | Lt | Le | Gt | Ge

  datatype Projection = Projection(col: string, agg: AggKind, alias: string)

  datatype Literal<D> = IntLit(i: int64) | DoubleLit(d: D) | StrLit(s: string)

  datatype Where<D> = Where(col: string, op: CmpOp, value: Literal<D>)

  /** A statement; groupBy is the empty string when there is no GROUP BY clause. */
  datatype Query<D> = Query(projections: seq<Projection>, table: string, where: Option<Where<D>>, groupBy: string)

  // ----- keywords and names

  function UpperChar(c: char): char {
    if 'a' <= c <= 'z' then c - 'a' + 'A' else c
  }

  function Upper(s: string): string {
    seq(|s|, i requires 0 <= i < |s| => UpperChar(s[i]))
  }

  function AggOf(name: string): AggKind {
    var u := Upper(name);
    if u == "SUM" then Sum
    else if u == "COUNT" then Count
    else if u == "MIN" then Min
    else if u == "MAX" then Max
    else if u == "AVG" then Avg
    else if u == "COUNT_DISTINCT" then CountDistinct
    else NoAgg
  }

  function CmpOf(text: string): Option<CmpOp> {
    if text == "=" then Some(Eq)
    else if text == "!=" then Some(Ne)
    else if text == "<=" then Some(Le)
    else if text == ">=" then Some(Ge)
    else if text == "<" then Some(Lt)
    else if text == ">" then Some(Gt)
    else None
  }

  /** The value a literal token denotes, or None where the conversion throws. */
  function LiteralOf<D>(stod: string -> Option<D>, t: Tok): Option<Literal<D>>
    requires WellFormed(t)
  {
    match t.kind
    case Number =>
      if '.' in t.text then
        (match stod(t.text) case None => None case Some(d) => Some(DoubleLit(d)))
      else
        (match Stoll(t.text) case None => None case Some(i) => Some(IntLit(i)))
    case StringLit => Some(StrLit(t.text))
    case _ => None
  }

  function Plain(name: string): Projection { Projection(name, NoAgg, name) }

  function Aggregate(name: string, col: string): Projection {
    Projection(col, AggOf(name), Upper(name) + "(" + col + ")")
  }

  // ----- the grammar

  predicate IdentAt(toks: seq<Tok>, i: nat) { i < |toks| && toks[i].kind == Ident }
  predicate OpAt(toks: seq<Tok>, i: nat, s: string) { i < |toks| && toks[i] == Tok(Op, s) }
  predicate KeywordAt(toks: seq<Tok>, i: nat, kw: string) { IdentAt(toks, i) && Upper(toks[i].text) == kw }

  /** proj := ident | agg ( ident ) */
  predicate DerivesProj(toks: seq<Tok>, i: nat, j: nat, p: Projection) {
    || (j == i + 1 && IdentAt(toks, i) && p == Plain(toks[i].text))
    || (j == i + 4 && IdentAt(toks, i) && AggOf(toks[i].text) != NoAgg && OpAt(toks, i + 1, "(")
        && IdentAt(toks, i + 2) && OpAt(toks, i + 3, ")")
        && p == Aggregate(toks[i].text, toks[i + 2].text))
  }

  /** proj_list := proj { , proj } */
  ghost predicate DerivesProjs(toks: seq<Tok>, i: nat, j: nat, ps: seq<Projection>)
    decreases ps
  {
    && ps != []
    && if |ps| == 1 then DerivesProj(toks, i, j, ps[0])
       else exists m: nat :: DerivesProj(toks, i, m, ps[0]) && OpAt(toks, m, ",")
                             && DerivesProjs(toks, m + 1, j, ps[1..])
  }

  /** [ WHERE ident op literal ] */
  predicate DerivesWhere<D(==)>(stod: string -> Option<D>, toks: seq<Tok>, i: nat, j: nat, w: Option<Where<D>>)
    requires Terminated(toks)
  {
    match w
    case None => j == i
    case Some(Where(col, op, value)) =>
      && j == i + 4 < |toks|
      && KeywordAt(toks, i, "WHERE") && toks[i + 1] == Tok(Ident, col)
      && toks[i + 2].kind == Op && CmpOf(toks[i + 2].text) == Some(op)
      && LiteralOf(stod, toks[i + 3]) == Some(value)
  }

  /** [ GROUP BY ident ] */
  predicate DerivesGroup(toks: seq<Tok>, i: nat, j: nat, group: string) {
    if group == "" then j == i
    else j == i + 3 && KeywordAt(toks, i, "GROUP") && KeywordAt(toks, i + 1, "BY")
         && i + 2 < |toks| && toks[i + 2] == Tok(Ident, group)
  }

  /** query := SELECT proj_list FROM ident [ WHERE .. ] [ GROUP BY .. ], up to the End token. */
  ghost predicate DerivesAt<D>(stod: string -> Option<D>, toks: seq<Tok>, q: Query<D>, a: nat, b: nat, c: nat)
    requires Terminated(toks)
  {
    && KeywordAt(toks, 0, "SELECT")
    && DerivesProjs(toks, 1, a, q.projections)
    && KeywordAt(toks, a, "FROM")
    && a + 1 < |toks| && toks[a + 1] == Tok(Ident, q.table)
    && DerivesWhere(stod, toks, a + 2, b, q.where)
    && DerivesGroup(toks, b, c, q.groupBy)
    && c == |toks| - 1
  }

  ghost predicate Derives<D>(stod: string -> Option<D>, toks: seq<Tok>, q: Query<D>)
    requires Terminated(toks)
  {
    exists a: nat, b: nat, c: nat :: DerivesAt(stod, toks, q, a, b, c)
  }

  // ----- what the parser computes

  function ParseProj(toks: seq<Tok>, i: nat): (r: Option<(Projection, nat)>)
    ensures r.Some? ==> i < r.value.1 <= |toks|
  {
    if !IdentAt(toks, i) then None
    else if AggOf(toks[i].text) != NoAgg && OpAt(toks, i + 1, "(") then
      if IdentAt(toks, i + 2) && OpAt(toks, i + 3, ")")
      then Some((Aggregate(toks[i].text, toks[i + 2].text), i + 4)) else None
    else Some((Plain(toks[i].text), i + 1))
  }

  function ParseProjs(toks: seq<Tok>, i: nat): (r: Option<(seq<Projection>, nat)>)
    ensures r.Some? ==> i < r.value.1 <= |toks| && r.value.0 != []
    decreases |toks| - i
  {
    match ParseProj(toks, i)
    case None => None
    case Some((p, j)) =>
      if !OpAt(toks, j, ",") then Some(([p], j))
      else
        match ParseProjs(toks, j + 1)
        case None => None
        case Some((ps, k)) => Some(([p] + ps, k))
  }

  function ParseWhere<D(==)>(stod: string -> Option<D>, toks: seq<Tok>, i: nat): (r: Option<(Option<Where<D>>, nat)>)
    requires Terminated(toks)
    ensures r.Some? ==> i <= r.value.1 <= if i < |toks| then |toks| - 1 else i
  {
    if !KeywordAt(toks, i, "WHERE") then Some((None, i))
    else if !IdentAt(toks, i + 1) || toks[i + 2].kind != Op || CmpOf(toks[i + 2].text) == None then None
    else
      match LiteralAt(stod, toks, i + 3)
      case None => None
      case Some(v) => Some((Some(Where(toks[i + 1].text, CmpOf(toks[i + 2].text).value, v)), i + 4))
  }

  function LiteralAt<D>(stod: string -> Option<D>, toks: seq<Tok>, i: nat): (r: Option<Literal<D>>)
    requires Terminated(toks)
    ensures r.Some? ==> i < |toks| - 1
  {
    if i < |toks| - 1 then LiteralOf(stod, toks[i]) else None
  }

  function ParseGroup(toks: seq<Tok>, i: nat): Option<(string, nat)>
  {
    if !KeywordAt(toks, i, "GROUP") then Some(("", i))
    else if KeywordAt(toks, i + 1, "BY") && IdentAt(toks, i + 2) then Some((toks[i + 2].text, i + 3))
    else None
  }

  /** SELECT proj_list FROM ident. */
  function ParseHead(toks: seq<Tok>): Option<(seq<Projection>, string, nat)> {
    if !KeywordAt(toks, 0, "SELECT") then None
    else
      match ParseProjs(toks, 1)
      case None => None
      case Some((ps, a)) =>
        if KeywordAt(toks, a, "FROM") && IdentAt(toks, a + 1) then Some((ps, toks[a + 1].text, a + 2)) else None
  }

  /** The optional clauses, up to End. */
  function ParseTail<D(==)>(stod: string -> Option<D>, toks: seq<Tok>, i: nat): Option<(Option<Where<D>>, string)>
    requires Terminated(toks)
  {
    match ParseWhere(stod, toks, i)
    case None => None
    case Some((w, b)) =>
      match ParseGroup(toks, b)
      case None => None
      case Some((g, c)) => if c == |toks| - 1 then Some((w, g)) else None
  }

  function ParseQuery<D(==)>(stod: string -> Option<D>, toks: seq<Tok>): Option<Query<D>>
    requires Terminated(toks)
  {
    match ParseHead(toks)
    case None => None
    case Some((ps, table, i)) =>
      match ParseTail(stod, toks, i)
      case None => None
      case Some((w, g)) => Some(Query(ps, table, w, g))
  }

  // ----- the parser accepts exactly the grammar

  lemma ProjIsExact(toks: seq<Tok>, i: nat, j: nat, p: Projection)
    requires !OpAt(toks, j, "(")
    ensures DerivesProj(toks, i, j, p) <==> ParseProj(toks, i) == Some((p, j))
  {
  }

  lemma {:induction false} ProjsAreExact(toks: seq<Tok>, i: nat, j: nat, ps: seq<Projection>)
    requires !OpAt(toks, j, ",") && !OpAt(toks, j, "(")
    ensures DerivesProjs(toks, i, j, ps) <==> ParseProjs(toks, i) == Some((ps, j))
    decreases |toks| - i
  {
    if DerivesProjs(toks, i, j, ps) {
      DerivedProjsParse(toks, i, j, ps);
    }
    if ParseProjs(toks, i) == Some((ps, j)) {
      ParsedProjsDerive(toks, i, j, ps);
    }
  }

  lemma {:induction false} DerivedProjsParse(toks: seq<Tok>, i: nat, j: nat, ps: seq<Projection>)
    requires !OpAt(toks, j, ",") && !OpAt(toks, j, "(") && DerivesProjs(toks, i, j, ps)
    ensures ParseProjs(toks, i) == Some((ps, j))
    decreases ps
  {
    hide ParseProj, DerivesProj;
    if |ps| == 1 {
      ProjIsExact(toks, i, j, ps[0]);
      assert ps == [ps[0]];
    } else {
      var m: nat :| DerivesProj(toks, i, m, ps[0]) && OpAt(toks, m, ",") && DerivesProjs(toks, m + 1, j, ps[1..]);
      ProjIsExact(toks, i, m, ps[0]);
      DerivedProjsParse(toks, m + 1, j, ps[1..]);
      assert ps == [ps[0]] + ps[1..];
    }
  }

  lemma {:induction false} ParsedProjsDerive(toks: seq<Tok>, i: nat, j: nat, ps: seq<Projection>)
    requires !OpAt(toks, j, ",") && !OpAt(toks, j, "(") && ParseProjs(toks, i) == Some((ps, j))
    ensures DerivesProjs(toks, i, j, ps)
    decreases |toks| - i
  {
    hide ParseProj, DerivesProj;
    var (p, k) := ParseProj(toks, i).value;
    ProjIsExact(toks, i, k, p);
    if OpAt(toks, k, ",") {
      var rest := ParseProjs(toks, k + 1).value.0;
      ParsedProjsDerive(toks, k + 1, j, rest);
      assert ps == [p] + rest && ps[1..] == rest;
    }
  }

  lemma WhereIsExact<D>(stod: string -> Option<D>, toks: seq<Tok>, i: nat, j: nat, w: Option<Where<D>>)
    requires Terminated(toks) && !KeywordAt(toks, j, "WHERE")
    ensures DerivesWhere(stod, toks, i, j, w) && j < |toks| <==> ParseWhere(stod, toks, i) == Some((w, j)) && j < |toks|
  {
  }

  lemma GroupIsExact(toks: seq<Tok>, i: nat, j: nat, g: string)
    requires Terminated(toks) && j == |toks| - 1
    ensures DerivesGroup(toks, i, j, g) <==> ParseGroup(toks, i) == Some((g, j))
  {
  }

  /** A statement has at most one parse, the parser finds it, and it rejects everything else. */
  lemma ParserIsExact<D>(stod: string -> Option<D>, toks: seq<Tok>, q: Query<D>)
    requires Terminated(toks)
    ensures Derives(stod, toks, q) <==> ParseQuery(stod, toks) == Some(q)
  {
    if Derives(stod, toks, q) {
      var a: nat, b: nat, c: nat :| DerivesAt(stod, toks, q, a, b, c);
      ProjsAreExact(toks, 1, a, q.projections);
      GroupIsExact(toks, b, c, q.groupBy);
      WhereIsExact(stod, toks, a + 2, b, q.where);
    }
    if ParseQuery(stod, toks) == Some(q) {
      ParsedIsDerived(stod, toks, q);
    }
  }

  lemma ParsedIsDerived<D>(stod: string -> Option<D>, toks: seq<Tok>, q: Query<D>)
    requires Terminated(toks) && ParseQuery(stod, toks) == Some(q)
    ensures Derives(stod, toks, q)
  {
    var a := ParseProjs(toks, 1).value.1;
    var b := ParseWhere(stod, toks, a + 2).value.1;
    var c := ParseGroup(toks, b).value.1;
    ProjsAreExact(toks, 1, a, q.projections);
    GroupIsExact(toks, b, c, q.groupBy);
    WhereIsExact(stod, toks, a + 2, b, q.where);
    assert DerivesAt(stod, toks, q, a, b, c);
  }

  // ----- the parser object

  /** The parser's cursor over the tokens; it never moves past the End token. */
  class Parser<D(==)> {
    const toks: seq<Tok>
    const stod: string -> Option<D>
    var pos: nat

    ghost predicate Valid()
      reads this
    {
      Terminated(toks) && pos < |toks|
    }

    constructor (toks: seq<Tok>, stod: string -> Option<D>)
      requires Terminated(toks)
      ensures Valid() && pos == 0 && this.toks == toks && this.stod == stod
    {
      this.toks, this.stod, pos := toks, stod, 0;
    }

    method MatchKeyword(kw: string) returns (ok: bool)
      requires Valid()
      modifies this
      ensures Valid() && ok == KeywordAt(toks, old(pos), kw)
      ensures pos == old(pos) + if ok then 1 else 0
    {
      ok := toks[pos].kind == Ident && Upper(toks[pos].text) == kw;
      if ok {
        pos := pos + 1;
      }
    }

    method MatchOp(s: string) returns (ok: bool)
      requires Valid()
      modifies this
      ensures Valid() && ok == OpAt(toks, old(pos), s)
      ensures pos == old(pos) + if ok then 1 else 0
    {
      ok := toks[pos].kind == Op && toks[pos].text == s;
      if ok {
        pos := pos + 1;
      }
    }

    method ExpectIdent() returns (name: Option<string>)
      requires Valid()
      modifies this
      ensures Valid() && name.Some? == IdentAt(toks, old(pos))
      ensures name.Some? ==> pos == old(pos) + 1 && name.value == toks[old(pos)].text
    {
      if toks[pos].kind != Ident {
        return None;
      }
      name := Some(toks[pos].text);
      pos := pos + 1;
    }

    method ParseProjection() returns (p: Option<Projection>)
      requires Valid()
      modifies this
      ensures Valid()
      ensures p.Some? ==> ParseProj(toks, old(pos)) == Some((p.value, pos))
      ensures p.None? ==> ParseProj(toks, old(pos)) == None
    {
      var name := ExpectIdent();
      if name == None {
        return None;
      }
      if AggOf(name.value) != NoAgg && toks[pos].kind == Op && toks[pos].text == "(" {
        pos := pos + 1;
        var col := ExpectIdent();
        if col == None {
          return None;
        }
        var closed := MatchOp(")");
        if !closed {
          return None;
        }
        return Some(Aggregate(name.value, col.value));
      }
      return Some(Plain(name.value));
    }

    method ParseCmp() returns (op: Option<CmpOp>)
      requires Valid()
      modifies this
      ensures Valid()
      ensures op == if toks[old(pos)].kind == Op then CmpOf(toks[old(pos)].text) else None
      ensures pos == old(pos) + if op.Some? then 1 else 0
    {
      op := None;
      if toks[pos].kind == Op {
        op := CmpOf(toks[pos].text);
      }
      if op.Some? {
        pos := pos + 1;
      }
    }

    /** The list loop: what has been parsed, in front of what a comma would continue with. */
    method ParseList() returns (ps: Option<seq<Projection>>)
      requires Valid()
      modifies this
      ensures Valid()
      ensures ps.Some? ==> ParseProjs(toks, old(pos)) == Some((ps.value, pos))
      ensures ps.None? ==> ParseProjs(toks, old(pos)) == None
    {
      hide ParseProj;
      var first := ParseProjection();
      if first == None {
        return None;
      }
      ghost var whole := ParseProjs(toks, old(pos));
      var done := [first.value];
      var more := MatchOp(",");
      while more
        invariant Valid()
        invariant whole == if more then After(done, ParseProjs(toks, pos)) else Some((done, pos))
        decreases |toks| - pos, more
      {
        ghost var start := pos;
        var next := ParseProjection();
        if next == None {
          return None;
        }
        ghost var before := done;
        done := done + [next.value];
        more := MatchOp(",");
        AfterNext(toks, before, next.value, start);
      }
      return Some(done);
    }

    method ParseWhereClause() returns (w: Option<Option<Where<D>>>)
      requires Valid()
      modifies this
      ensures Valid()
      ensures w.Some? ==> ParseWhere(stod, toks, old(pos)) == Some((w.value, pos))
      ensures w.None? ==> ParseWhere(stod, toks, old(pos)) == None
    {
      var present := MatchKeyword("WHERE");
      if !present {
        return Some(None);
      }
      var col := ExpectIdent();
      if col == None {
        return None;
      }
      var op := ParseCmp();
      if op == None {
        return None;
      }
      if toks[pos].kind != Number && toks[pos].kind != StringLit {
        return None;
      }
      var value := LiteralOf(stod, toks[pos]);
      pos := pos + 1;
      if value == None {
        return None;
      }
      return Some(Some(Where(col.value, op.value, value.value)));
    }

    method ParseGroupClause() returns (g: Option<string>)
      requires Valid()
      modifies this
      ensures Valid()
      ensures g.Some? ==> ParseGroup(toks, old(pos)) == Some((g.value, pos))
      ensures g.None? ==> ParseGroup(toks, old(pos)) == None
    {
      var present := MatchKeyword("GROUP");
      if !present {
        return Some("");
      }
      var hasBy := MatchKeyword("BY");
      if !hasBy {
        return None;
      }
      g := ExpectIdent();
    }

    method ParseSelect() returns (head: Option<(seq<Projection>, string)>)
      requires Valid() && pos == 0
      modifies this
      ensures Valid()
      ensures head.Some? ==> ParseHead(toks) == Some((head.value.0, head.value.1, pos))
      ensures head.None? ==> ParseHead(toks) == None
    {
      var ok := MatchKeyword("SELECT");
      if !ok {
        return None;
      }
      var ps := ParseList();
      if ps == None {
        return None;
      }
      ok := MatchKeyword("FROM");
      if !ok {
        return None;
      }
      var table := ExpectIdent();
      if table == None {
        return None;
      }
      return Some((ps.value, table.value));
    }

    method ParseStatement() returns (q: Option<Query<D>>)
      requires Valid() && pos == 0
      modifies this
      ensures Valid()
      ensures q == ParseQuery(stod, toks)
    {
      hide ParseWhere, ParseGroup;
      var head := ParseSelect();
      if head == None {
        return None;
      }
      var w := ParseWhereClause();
      if w == None {
        return None;
      }
      var g := ParseGroupClause();
      if g == None || toks[pos].kind != End {
        return None;
      }
      return Some(Query(head.value.0, head.value.1, w.value, g.value));
    }
  }

  /** The projections already parsed in front of those a further list yields. */
  function After(done: seq<Projection>, rest: Option<(seq<Projection>, nat)>): Option<(seq<Projection>, nat)> {
    match rest
    case None => None
    case Some((ps, j)) => Some((done + ps, j))
  }

  lemma AfterNext(toks: seq<Tok>, done: seq<Projection>, p: Projection, i: nat)
    requires ParseProj(toks, i).Some? && ParseProj(toks, i).value.0 == p
    ensures var j := ParseProj(toks, i).value.1;
            After(done, ParseProjs(toks, i)) ==
            if OpAt(toks, j, ",") then After(done + [p], ParseProjs(toks, j + 1)) else Some((done + [p], j))
  {
    var j := ParseProj(toks, i).value.1;
    if OpAt(toks, j, ",") && ParseProjs(toks, j + 1).Some? {
      assert done + ([p] + ParseProjs(toks, j + 1).value.0) == (done + [p]) + ParseProjs(toks, j + 1).value.0;
    }
  }

  // ----- parsing a text

  /** The meaning of a text: its only reading, parsed. */
  function ParseText<D(==)>(stod: string -> Option<D>, src: string): Option<Query<D>> {
    match Lex(src)
    case None => None
    case Some(toks) =>
      LexIsTerminated(src);
      ParseQuery(stod, toks)
  }

  method Parse<D(==)>(stod: string -> Option<D>, src: string) returns (q: Option<Query<D>>)
    ensures q == ParseText(stod, src)
  {
    var toks := Tokenize(src);
    if toks == None {
      return None;
    }
    LexIsTerminated(src);
    var parser := new Parser(toks.value, stod);
    q := parser.ParseStatement();
  }
}
