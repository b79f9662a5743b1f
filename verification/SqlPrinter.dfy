/** A printer for statements; parsing undoes it, and everything that parses can be printed. */
module SqlPrinter {
  import opened Machine
  import opened SqlLexer
  import opened Decimal
  import opened SqlParser

  function Word(s: string): Tok { Tok(Ident, s) }

  function AggName(agg: AggKind): string
    requires agg != NoAgg
  {
    match agg
    case Sum => "SUM"
    case Count => "COUNT"
    case Min => "MIN"
    case Max => "MAX"
    case Avg => "AVG"
    case CountDistinct => "COUNT_DISTINCT"
  }

  function CmpText(op: CmpOp): string {
    match op
    case Eq => "="
    case Ne => "!="
    case Lt => "<"
    case Le => "<="
    case Gt => ">"
    case Ge => ">="
  }

  function ProjTokens(p: Projection): seq<Tok> {
    if p.agg == NoAgg then [Word(p.col)]
    else [Word(AggName(p.agg)), Tok(Op, "("), Word(p.col), Tok(Op, ")")]
  }

  /** Parts separated by commas. */
  function Commas(parts: seq<seq<Tok>>): seq<Tok>
    requires parts != []
  {
    if |parts| == 1 then parts[0] else parts[0] + [Tok(Op, ",")] + Commas(parts[1..])
  }

  function ListTokens(ps: seq<Projection>): seq<Tok>
    requires ps != []
  {
    Commas(seq(|ps|, k requires 0 <= k < |ps| => ProjTokens(ps[k])))
  }

  function LiteralToken<D>(show: D -> string, value: Literal<D>): Tok {
    match value
    case IntLit(i) => Tok(Number, Print(i))
    case DoubleLit(d) => Tok(Number, show(d))
    case StrLit(s) => Tok(StringLit, s)
  }

  function WhereTokens<D>(show: D -> string, w: Option<Where<D>>): seq<Tok> {
    match w
    case None => []
    case Some(Where(col, op, value)) => [Word("WHERE"), Word(col), Tok(Op, CmpText(op)), LiteralToken(show, value)]
  }

  function GroupTokens(group: string): seq<Tok> {
    if group == "" then [] else [Word("GROUP"), Word("BY"), Word(group)]
  }

  function QueryTokens<D>(show: D -> string, q: Query<D>): seq<Tok>
    requires q.projections != []
  {
    [Word("SELECT")] + (ListTokens(q.projections) + ([Word("FROM"), Word(q.table)] +
    (WhereTokens(show, q.where) + GroupTokens(q.groupBy))))
  }

  /** Where the projection list ends and FROM stands. */
  function AfterList<D>(q: Query<D>): nat
    requires q.projections != []
  {
    1 + |ListTokens(q.projections)|
  }

  /** Where the WHERE clause ends. */
  function AfterWhere<D>(show: D -> string, q: Query<D>): nat
    requires q.projections != []
  {
    AfterList(q) + 2 + |WhereTokens(show, q.where)|
  }

  /** The statement as text. */
  function PrintQuery<D>(show: D -> string, q: Query<D>): string
    requires q.projections != []
  {
    Render(QueryTokens(show, q))
  }

  // ----- printable statements

  predicate PrintableProj(p: Projection) {
    && IsIdentText(p.col)
    && p.alias == if p.agg == NoAgg then p.col else AggName(p.agg) + "(" + p.col + ")"
  }

  /** The printer spells d so that std::stod reads it back. */
  predicate Spells<D(==)>(stod: string -> Option<D>, show: D -> string, d: D) {
    IsNumberText(show(d)) && '.' in show(d) && stod(show(d)) == Some(d)
  }

  predicate PrintableWhere<D(==)>(stod: string -> Option<D>, show: D -> string, w: Where<D>) {
    && IsIdentText(w.col)
    && match w.value
       case IntLit(i) => true
       case DoubleLit(d) => Spells(stod, show, d)
       case StrLit(s) => '\'' !in s
  }

  predicate Printable<D(==)>(stod: string -> Option<D>, show: D -> string, q: Query<D>) {
    && q.projections != []
    && AllPrintable(q.projections)
    && IsIdentText(q.table)
    && (q.where.Some? ==> PrintableWhere(stod, show, q.where.value))
    && (q.groupBy == "" || IsIdentText(q.groupBy))
  }

  // ----- parsing undoes printing

  lemma AggNames(agg: AggKind)
    requires agg != NoAgg
    ensures AggOf(AggName(agg)) == agg && Upper(AggName(agg)) == AggName(agg) && WellFormed(Word(AggName(agg)))
  {
    var name := AggName(agg);
    assert forall i :: 0 <= i < |name| ==> 'A' <= name[i] <= 'Z' || name[i] == '_';
    assert Upper(name) == name;
  }

  lemma CmpTexts(op: CmpOp)
    ensures CmpOf(CmpText(op)) == Some(op) && CmpText(op) in OPERATORS
  {
  }

  /** A comparison operator is recognized by its one spelling, and nothing else is. */
  lemma ComparisonsAreExact(text: string, op: CmpOp)
    ensures CmpOf(text) == Some(op) <==> text == CmpText(op)
  {
  }

  /** The number an integer token denotes: its digits by position, with its sign. */
  function IntegerValue(text: string): int
    requires IsNumberText(text) && '.' !in text
  {
    IntegerBody(text);
    if text[0] == '-' then -Positional(text[1..]) else Positional(text)
  }

  /**
   A literal is a string in quotes, a number with a dot that std::stod accepts, or a number without
   one whose value is an int64; everything else is refused.
   */
  lemma LiteralsAreExact<D>(stod: string -> Option<D>, t: Tok, s: string, d: D, n: int64)
    requires WellFormed(t)
    ensures LiteralOf(stod, t) == Some(StrLit(s)) <==> t == Tok(StringLit, s)
    ensures LiteralOf(stod, t) == Some(DoubleLit(d)) <==> t.kind == Number && '.' in t.text && stod(t.text) == Some(d)
    ensures LiteralOf(stod, t) == Some(IntLit(n)) <==> t.kind == Number && '.' !in t.text && IntegerValue(t.text) == n
  {
    if t.kind == Number && '.' !in t.text {
      StollIsExact(t.text, IntegerValue(t.text));
    }
  }

  /** The tokens `part` stand at position i. */
  predicate Occurs(toks: seq<Tok>, i: nat, part: seq<Tok>) {
    i + |part| <= |toks| && forall k :: 0 <= k < |part| ==> part[k] == toks[i + k]
  }

  lemma OccursSplit(toks: seq<Tok>, i: nat, a: seq<Tok>, b: seq<Tok>)
    requires Occurs(toks, i, a + b)
    ensures Occurs(toks, i, a) && Occurs(toks, i + |a|, b)
  {
    assert forall k :: 0 <= k < |a| ==> a[k] == (a + b)[k];
    assert forall k :: 0 <= k < |b| ==> b[k] == (a + b)[|a| + k];
  }

  lemma ProjTokensDerive(toks: seq<Tok>, i: nat, p: Projection)
    requires PrintableProj(p) && Occurs(toks, i, ProjTokens(p))
    ensures DerivesProj(toks, i, i + |ProjTokens(p)|, p)
  {
    var part := ProjTokens(p);
    assert part[0] == toks[i];
    if p.agg != NoAgg {
      AggNames(p.agg);
      assert part[1] == toks[i + 1] && part[2] == toks[i + 2] && part[3] == toks[i + 3];
    }
  }

  lemma ListTokensDerive(toks: seq<Tok>, i: nat, ps: seq<Projection>)
    requires ps != [] && forall k :: 0 <= k < |ps| ==> PrintableProj(ps[k])
    requires Occurs(toks, i, ListTokens(ps))
    ensures DerivesProjs(toks, i, i + |ListTokens(ps)|, ps)
  {
    var parts := seq(|ps|, k requires 0 <= k < |ps| => ProjTokens(ps[k]));
    forall k: nat, x: nat | k < |ps| && Occurs(toks, x, parts[k])
      ensures DerivesProj(toks, x, x + |parts[k]|, ps[k])
    {
      ProjTokensDerive(toks, x, ps[k]);
    }
    CommasDerive(toks, i, parts, ps);
  }

  lemma {:induction false} CommasDerive(toks: seq<Tok>, i: nat, parts: seq<seq<Tok>>, ps: seq<Projection>)
    requires |parts| == |ps| > 0 && Occurs(toks, i, Commas(parts))
    requires forall k: nat, x: nat :: k < |ps| && Occurs(toks, x, parts[k]) ==>
      DerivesProj(toks, x, x + |parts[k]|, ps[k])
    ensures DerivesProjs(toks, i, i + |Commas(parts)|, ps)
    decreases |parts|
  {
    if |parts| > 1 {
      var m, rest := i + |parts[0]|, Commas(parts[1..]);
      CommaSplit(toks, i, parts[0], rest);
      forall k: nat, x: nat | k < |ps[1..]| && Occurs(toks, x, parts[1..][k])
        ensures DerivesProj(toks, x, x + |parts[1..][k]|, ps[1..][k])
      {
        assert parts[1..][k] == parts[k + 1] && ps[1..][k] == ps[k + 1];
      }
      CommasDerive(toks, m + 1, parts[1..], ps[1..]);
      DerivesMore(toks, i, m, m + 1 + |rest|, ps);
    }
  }

  lemma CommaSplit(toks: seq<Tok>, i: nat, head: seq<Tok>, rest: seq<Tok>)
    requires Occurs(toks, i, head + [Tok(Op, ",")] + rest)
    ensures Occurs(toks, i, head) && OpAt(toks, i + |head|, ",") && Occurs(toks, i + |head| + 1, rest)
  {
    var comma := [Tok(Op, ",")];
    OccursSplit(toks, i, head + comma, rest);
    OccursSplit(toks, i, head, comma);
    assert comma[0] == toks[i + |head|];
  }

  lemma DerivesMore(toks: seq<Tok>, i: nat, m: nat, j: nat, ps: seq<Projection>)
    requires |ps| > 1 && DerivesProj(toks, i, m, ps[0]) && OpAt(toks, m, ",") && DerivesProjs(toks, m + 1, j, ps[1..])
    ensures DerivesProjs(toks, i, j, ps)
  {
  }

  lemma LiteralTokenReads<D>(stod: string -> Option<D>, show: D -> string, w: Where<D>)
    requires PrintableWhere(stod, show, w)
    ensures WellFormed(LiteralToken(show, w.value))
    ensures LiteralOf(stod, LiteralToken(show, w.value)) == Some(w.value)
  {
    if w.value.IntLit? {
      StollUndoesPrint(w.value.i);
    }
  }

  lemma WhereTokensDerive<D>(stod: string -> Option<D>, show: D -> string, toks: seq<Tok>, i: nat, w: Option<Where<D>>)
    requires Terminated(toks) && Occurs(toks, i, WhereTokens(show, w))
    requires w.Some? ==> PrintableWhere(stod, show, w.value)
    ensures DerivesWhere(stod, toks, i, i + |WhereTokens(show, w)|, w)
  {
    if w.Some? {
      var part := WhereTokens(show, w);
      CmpTexts(w.value.op);
      LiteralTokenReads(stod, show, w.value);
      assert part[0] == toks[i] && part[1] == toks[i + 1] && part[2] == toks[i + 2] && part[3] == toks[i + 3];
      assert Upper("WHERE") == "WHERE";
    }
  }

  lemma GroupTokensDerive(toks: seq<Tok>, i: nat, group: string)
    requires Occurs(toks, i, GroupTokens(group))
    ensures DerivesGroup(toks, i, i + |GroupTokens(group)|, group)
  {
    if group != "" {
      var part := GroupTokens(group);
      assert part[0] == toks[i] && part[1] == toks[i + 1] && part[2] == toks[i + 2];
      assert Upper("GROUP") == "GROUP" && Upper("BY") == "BY";
    }
  }

  lemma FiveParts(toks: seq<Tok>, a: seq<Tok>, b: seq<Tok>, c: seq<Tok>, d: seq<Tok>, e: seq<Tok>)
    requires a + (b + (c + (d + e))) <= toks
    ensures Occurs(toks, 0, a) && Occurs(toks, |a|, b) && Occurs(toks, |a| + |b|, c)
    ensures Occurs(toks, |a| + |b| + |c|, d) && Occurs(toks, |a| + |b| + |c| + |d|, e)
  {
    OccursPrefix(toks, a + (b + (c + (d + e))));
    OccursSplit(toks, 0, a, b + (c + (d + e)));
    OccursSplit(toks, |a|, b, c + (d + e));
    OccursSplit(toks, |a| + |b|, c, d + e);
    OccursSplit(toks, |a| + |b| + |c|, d, e);
  }

  lemma OccursPrefix(toks: seq<Tok>, part: seq<Tok>)
    requires part <= toks
    ensures Occurs(toks, 0, part)
  {
  }

  /** The printed tokens derive the statement. */
  lemma QueryTokensDerive<D>(stod: string -> Option<D>, show: D -> string, toks: seq<Tok>, q: Query<D>)
    requires Printable(stod, show, q) && Terminated(toks)
    requires toks == QueryTokens(show, q) + [END_TOKEN]
    ensures DerivesAt(stod, toks, q, AfterList(q), AfterWhere(show, q), |toks| - 1)
  {
    var list, where, group := ListTokens(q.projections), WhereTokens(show, q.where), GroupTokens(q.groupBy);
    FiveParts(toks, [Word("SELECT")], list, [Word("FROM"), Word(q.table)], where, group);
    PartsDerive(stod, show, toks, q, AfterList(q), AfterWhere(show, q), |toks| - 1);
  }

  lemma PartsDerive<D>(stod: string -> Option<D>, show: D -> string, toks: seq<Tok>, q: Query<D>, a: nat, b: nat, c: nat)
    requires Printable(stod, show, q) && Terminated(toks) && c == |toks| - 1
    requires Occurs(toks, 0, [Word("SELECT")])
    requires Occurs(toks, 1, ListTokens(q.projections)) && a == 1 + |ListTokens(q.projections)|
    requires Occurs(toks, a, [Word("FROM"), Word(q.table)])
    requires Occurs(toks, a + 2, WhereTokens(show, q.where)) && b == a + 2 + |WhereTokens(show, q.where)|
    requires Occurs(toks, b, GroupTokens(q.groupBy)) && c == b + |GroupTokens(q.groupBy)|
    ensures DerivesAt(stod, toks, q, a, b, c)
  {
    ListTokensDerive(toks, 1, q.projections);
    WhereTokensDerive(stod, show, toks, a + 2, q.where);
    GroupTokensDerive(toks, b, q.groupBy);
    FixedWords(toks, a, q.table);
  }

  lemma FixedWords(toks: seq<Tok>, a: nat, table: string)
    requires Occurs(toks, 0, [Word("SELECT")]) && Occurs(toks, a, [Word("FROM"), Word(table)])
    ensures KeywordAt(toks, 0, "SELECT") && KeywordAt(toks, a, "FROM") && toks[a + 1] == Word(table)
  {
    assert [Word("SELECT")][0] == toks[0];
    assert [Word("FROM"), Word(table)][0] == toks[a] && [Word("FROM"), Word(table)][1] == toks[a + 1];
    assert Upper("SELECT") == "SELECT" && Upper("FROM") == "FROM";
  }

  lemma ProjTokensAreWellFormed(p: Projection)
    requires PrintableProj(p)
    ensures forall i :: 0 <= i < |ProjTokens(p)| ==> WellFormed(ProjTokens(p)[i])
  {
    if p.agg != NoAgg {
      AggNames(p.agg);
    }
  }

  lemma {:induction false} CommasAreWellFormed(parts: seq<seq<Tok>>)
    requires parts != []
    requires forall k, i :: 0 <= k < |parts| && 0 <= i < |parts[k]| ==> WellFormed(parts[k][i])
    ensures forall i :: 0 <= i < |Commas(parts)| ==> WellFormed(Commas(parts)[i])
  {
    if |parts| > 1 {
      CommasAreWellFormed(parts[1..]);
    }
  }

  lemma ListTokensAreWellFormed(ps: seq<Projection>)
    requires ps != [] && forall k :: 0 <= k < |ps| ==> PrintableProj(ps[k])
    ensures AllWellFormed(ListTokens(ps))
  {
    var parts := seq(|ps|, k requires 0 <= k < |ps| => ProjTokens(ps[k]));
    forall k, i | 0 <= k < |parts| && 0 <= i < |parts[k]| ensures WellFormed(parts[k][i]) {
      ProjTokensAreWellFormed(ps[k]);
    }
    CommasAreWellFormed(parts);
  }

  lemma WhereTokensAreWellFormed<D>(stod: string -> Option<D>, show: D -> string, w: Option<Where<D>>)
    requires w.Some? ==> PrintableWhere(stod, show, w.value)
    ensures AllWellFormed(WhereTokens(show, w))
  {
    if w.Some? {
      CmpTexts(w.value.op);
      LiteralTokenReads(stod, show, w.value);
    }
  }

  predicate AllWellFormed(ts: seq<Tok>) {
    forall i :: 0 <= i < |ts| ==> WellFormed(ts[i])
  }

  lemma AllWellFormedConcat(a: seq<Tok>, b: seq<Tok>, c: seq<Tok>, d: seq<Tok>, e: seq<Tok>)
    requires AllWellFormed(a) && AllWellFormed(b) && AllWellFormed(c) && AllWellFormed(d) && AllWellFormed(e)
    ensures AllWellFormed(a + (b + (c + (d + e))))
  {
  }

  lemma WordsAreWellFormed(table: string, group: string)
    requires IsIdentText(table) && (group == "" || IsIdentText(group))
    ensures AllWellFormed([Word("SELECT")]) && AllWellFormed([Word("FROM"), Word(table)])
    ensures AllWellFormed(GroupTokens(group))
  {
  }

  lemma QueryTokensAreWellFormed<D>(stod: string -> Option<D>, show: D -> string, q: Query<D>)
    requires Printable(stod, show, q)
    ensures AllWellFormed(QueryTokens(show, q))
  {
    var list, where, group := ListTokens(q.projections), WhereTokens(show, q.where), GroupTokens(q.groupBy);
    ListTokensAreWellFormed(q.projections);
    WhereTokensAreWellFormed(stod, show, q.where);
    WordsAreWellFormed(q.table, q.groupBy);
    AllWellFormedConcat([Word("SELECT")], list, [Word("FROM"), Word(q.table)], where, group);
  }

  /** Parsing the printed text of a statement gives the statement back. */
  lemma ParseUndoesPrint<D>(stod: string -> Option<D>, show: D -> string, q: Query<D>)
    requires Printable(stod, show, q)
    ensures ParseText(stod, PrintQuery(show, q)) == Some(q)
  {
    var tokens := QueryTokens(show, q);
    QueryTokensAreWellFormed(stod, show, q);
    LexUndoesRender(tokens);
    LexIsTerminated(PrintQuery(show, q));
    QueryTokensDerive(stod, show, tokens + [END_TOKEN], q);
    ParserIsExact(stod, tokens + [END_TOKEN], q);
  }

  // ----- everything that parses can be printed

  lemma UpperOfAgg(name: string)
    requires AggOf(name) != NoAgg
    ensures AggName(AggOf(name)) == Upper(name)
  {
  }

  lemma {:induction false} ParsedProjsArePrintable(toks: seq<Tok>, i: nat)
    requires Terminated(toks) && ParseProjs(toks, i).Some?
    ensures AllPrintable(ParseProjs(toks, i).value.0)
    decreases |toks| - i
  {
    ParsedProjIsPrintable(toks, i);
    var (p, j) := ParseProj(toks, i).value;
    if OpAt(toks, j, ",") {
      ParsedProjsArePrintable(toks, j + 1);
      AllPrintableCons(p, ParseProjs(toks, j + 1).value.0);
    }
  }

  predicate AllPrintable(ps: seq<Projection>) {
    forall k :: 0 <= k < |ps| ==> PrintableProj(ps[k])
  }

  lemma AllPrintableCons(p: Projection, ps: seq<Projection>)
    requires PrintableProj(p) && AllPrintable(ps)
    ensures AllPrintable([p] + ps)
  {
  }

  lemma ParsedProjIsPrintable(toks: seq<Tok>, i: nat)
    requires Terminated(toks) && ParseProj(toks, i).Some?
    ensures PrintableProj(ParseProj(toks, i).value.0)
  {
    if AggOf(toks[i].text) != NoAgg {
      UpperOfAgg(toks[i].text);
    }
  }

  /**
   Whatever text parses, printing the statement and parsing again gives the same statement,
   provided the printer can spell every double that std::stod returns.
   */
  lemma ReparseIsIdentity<D>(stod: string -> Option<D>, show: D -> string, src: string)
    requires forall t: string :: IsNumberText(t) && '.' in t && stod(t).Some? ==> Spells(stod, show, stod(t).value)
    requires ParseText(stod, src).Some?
    ensures ParseText(stod, PrintQuery(show, ParseText(stod, src).value)) == ParseText(stod, src)
  {
    var q := ParseText(stod, src).value;
    var toks := Lex(src).value;
    LexIsTerminated(src);
    ParsedProjsArePrintable(toks, 1);
    assert Printable(stod, show, q);
    ParseUndoesPrint(stod, show, q);
  }
}
