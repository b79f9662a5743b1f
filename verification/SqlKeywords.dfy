/** Keywords and aggregate names may be written in any mixture of upper and lower case. */
module SqlKeywords {
  import opened Machine
  import opened SqlLexer
  import opened SqlParser
  import opened SqlPrinter

  /** The same character, or the same ASCII letter in two cases. */
  predicate SameLetter(c: char, d: char) {
    || c == d
    || ('a' <= c <= 'z' && 'A' <= d <= 'Z' && c as int - 'a' as int == d as int - 'A' as int)
    || ('A' <= c <= 'Z' && 'a' <= d <= 'z' && c as int - 'A' as int == d as int - 'a' as int)
  }

  predicate SameLetters(a: string, b: string) {
    |a| == |b| && forall i :: 0 <= i < |a| ==> SameLetter(a[i], b[i])
  }

  /** upper() identifies exactly the spellings that differ in case only. */
  lemma UpperIgnoresCase(a: string, b: string)
    ensures Upper(a) == Upper(b) <==> SameLetters(a, b)
  {
    hide SameLetter, UpperChar;
    if SameLetters(a, b) {
      forall i | 0 <= i < |a| ensures Upper(a)[i] == Upper(b)[i] {
        UpperLetter(a[i], b[i]);
      }
    }
    if Upper(a) == Upper(b) {
      assert |Upper(a)| == |a| && |Upper(b)| == |b|;
      forall i | 0 <= i < |a| ensures SameLetter(a[i], b[i]) {
        assert Upper(a)[i] == UpperChar(a[i]) && Upper(b)[i] == UpperChar(b[i]);
        UpperLetter(a[i], b[i]);
      }
    }
  }

  lemma UpperLetter(c: char, d: char)
    ensures UpperChar(c) == UpperChar(d) <==> SameLetter(c, d)
  {
  }

  /** The keywords of the grammar, as it writes them. */
  const KEYWORDS := ["SELECT", "FROM", "WHERE", "GROUP", "BY"]

  /** An identifier is a keyword exactly when it spells it in some case. */
  lemma KeywordsIgnoreCase(toks: seq<Tok>, i: nat, kw: string)
    requires kw in KEYWORDS
    ensures KeywordAt(toks, i, kw) <==> i < |toks| && toks[i].kind == Ident && SameLetters(toks[i].text, kw)
  {
    assert Upper("SELECT") == "SELECT" && Upper("FROM") == "FROM" && Upper("WHERE") == "WHERE";
    assert Upper("GROUP") == "GROUP" && Upper("BY") == "BY";
    if i < |toks| {
      UpperIgnoresCase(toks[i].text, kw);
    }
  }

  /** And an aggregate name exactly when it spells that name in some case. */
  lemma AggregatesIgnoreCase(name: string, agg: AggKind)
    requires agg != NoAgg
    ensures AggOf(name) == agg <==> SameLetters(name, AggName(agg))
  {
    AggNames(agg);
    UpperIgnoresCase(name, AggName(agg));
    if AggOf(name) == agg {
      UpperOfAgg(name);
    }
  }

  // ----- respelling a statement

  /** The token is unchanged, or an identifier respelled. */
  predicate Respelled(t: Tok, u: Tok) {
    t == u || (t.kind == Ident && u.kind == Ident && SameLetters(t.text, u.text))
  }

  /** The tokens of a derivation that are keywords or aggregate names, rather than names of columns or the table. */
  predicate KeywordSpot<D>(toks: seq<Tok>, q: Query<D>, a: nat, b: nat, i: nat) {
    || i == 0 || i == a
    || (0 < i < a && OpAt(toks, i + 1, "("))
    || (q.where.Some? && i == a + 2)
    || (q.groupBy != "" && b <= i <= b + 1)
  }

  /** u is t with some of its keywords and aggregate names written in other cases. */
  ghost predicate RespelledAt<D>(t: seq<Tok>, u: seq<Tok>, q: Query<D>, a: nat, b: nat) {
    && |t| == |u|
    && forall i :: 0 <= i < |t| ==> t[i] == u[i] || (KeywordSpot(t, q, a, b, i) && Respelled(t[i], u[i]))
  }

  /** The tokens from i to j are unchanged, except for identifiers in front of a parenthesis. */
  ghost predicate RespelledList(t: seq<Tok>, u: seq<Tok>, i: nat, j: nat) {
    && |t| == |u| && j <= |t|
    && forall x :: i <= x < j ==> t[x] == u[x] || (OpAt(t, x + 1, "(") && Respelled(t[x], u[x]))
  }

  lemma RespelledProj(t: seq<Tok>, u: seq<Tok>, i: nat, j: nat, p: Projection)
    requires DerivesProj(t, i, j, p) && !OpAt(t, j, "(") && RespelledList(t, u, i, j)
    ensures DerivesProj(u, i, j, p)
  {
    hide SameLetters, Upper;
    if j == i + 4 {
      assert t[i + 1] == u[i + 1] && t[i + 2] == u[i + 2] && t[i + 3] == u[i + 3];
      UpperIgnoresCase(t[i].text, u[i].text);
      UpperIgnoresCase(t[i].text, t[i].text);
    }
  }

  lemma {:induction false} ProjsAdvance(t: seq<Tok>, i: nat, j: nat, ps: seq<Projection>)
    requires DerivesProjs(t, i, j, ps)
    ensures i < j <= |t|
    decreases ps
  {
    if |ps| > 1 {
      var m: nat :| DerivesProj(t, i, m, ps[0]) && OpAt(t, m, ",") && DerivesProjs(t, m + 1, j, ps[1..]);
      ProjsAdvance(t, m + 1, j, ps[1..]);
    }
  }

  lemma {:induction false} RespelledProjs(t: seq<Tok>, u: seq<Tok>, i: nat, j: nat, ps: seq<Projection>)
    requires DerivesProjs(t, i, j, ps) && !OpAt(t, j, "(") && RespelledList(t, u, i, j)
    ensures DerivesProjs(u, i, j, ps)
    decreases ps
  {
    hide DerivesProj, Respelled;
    if |ps| == 1 {
      RespelledProj(t, u, i, j, ps[0]);
    } else {
      var m: nat :| DerivesProj(t, i, m, ps[0]) && OpAt(t, m, ",") && DerivesProjs(t, m + 1, j, ps[1..]);
      ProjsAdvance(t, m + 1, j, ps[1..]);
      ProjAdvances(t, i, m, ps[0]);
      RespelledProj(t, u, i, m, ps[0]);
      RespelledProjs(t, u, m + 1, j, ps[1..]);
      CommaStays(t, u, m);
      DerivesMore(u, i, m, j, ps);
    }
  }

  lemma ProjAdvances(t: seq<Tok>, i: nat, j: nat, p: Projection)
    requires DerivesProj(t, i, j, p)
    ensures i < j <= |t|
  {
  }

  lemma CommaStays(t: seq<Tok>, u: seq<Tok>, m: nat)
    requires OpAt(t, m, ",") && |t| == |u| && (t[m] == u[m] || Respelled(t[m], u[m]))
    ensures OpAt(u, m, ",")
  {
  }

  lemma KeywordStays(t: seq<Tok>, u: seq<Tok>, i: nat, kw: string)
    requires KeywordAt(t, i, kw) && |t| == |u| && (t[i] == u[i] || Respelled(t[i], u[i]))
    ensures KeywordAt(u, i, kw)
  {
    UpperIgnoresCase(t[i].text, u[i].text);
  }

  /** A derivation survives respelling its keywords and aggregate names. */
  lemma RespelledDerives<D>(stod: string -> Option<D>, t: seq<Tok>, u: seq<Tok>, q: Query<D>, a: nat, b: nat, c: nat)
    requires Terminated(t) && Terminated(u) && DerivesAt(stod, t, q, a, b, c) && RespelledAt(t, u, q, a, b)
    ensures DerivesAt(stod, u, q, a, b, c)
  {
    hide DerivesProjs, SameLetters, LiteralOf, CmpOf, Upper;
    ProjsAdvance(t, 1, a, q.projections);
    assert !OpAt(t, a, "(");
    RespelledProjs(t, u, 1, a, q.projections);
    KeywordStays(t, u, 0, "SELECT");
    KeywordStays(t, u, a, "FROM");
    if q.where.Some? {
      KeywordStays(t, u, a + 2, "WHERE");
    }
    if q.groupBy != "" {
      KeywordStays(t, u, b, "GROUP");
      KeywordStays(t, u, b + 1, "BY");
    }
  }

  lemma RespelledIsWellFormed(t: Tok, u: Tok)
    requires WellFormed(t) && Respelled(t, u)
    ensures WellFormed(u)
  {
    if t != u {
      forall i | 0 <= i < |u.text| ensures IsIdentCont(u.text[i]) {
        assert SameLetter(t.text[i], u.text[i]);
      }
      assert SameLetter(t.text[0], u.text[0]);
    }
  }

  /**
   Whatever cases the keywords and aggregate names of a printed statement are written in, the text
   parses to that statement.
   */
  lemma AnyCaseParses<D>(stod: string -> Option<D>, show: D -> string, q: Query<D>, u: seq<Tok>)
    requires Printable(stod, show, q)
    requires RespelledAt(QueryTokens(show, q), u, q, AfterList(q), AfterWhere(show, q))
    ensures ParseText(stod, Render(u)) == Some(q)
  {
    assert q.projections != [];
    hide Printable, QueryTokens, Render, Respelled, Derives, ParseQuery, Lex;
    var t, a, b := QueryTokens(show, q), AfterList(q), AfterWhere(show, q);
    QueryTokensAreWellFormed(stod, show, q);
    forall i | 0 <= i < |u| ensures WellFormed(u[i]) {
      if t[i] != u[i] {
        RespelledIsWellFormed(t[i], u[i]);
      }
    }
    LexUndoesRender(u);
    LexIsTerminated(Render(u));
    QueryTokensDerive(stod, show, t + [END_TOKEN], q);
    RespelledEnd(t, u, q, a, b);
    RespelledDerives(stod, t + [END_TOKEN], u + [END_TOKEN], q, a, b, |t|);
    DerivedParses(stod, u + [END_TOKEN], q, a, b, |t|);
  }

  lemma RespelledEnd<D>(t: seq<Tok>, u: seq<Tok>, q: Query<D>, a: nat, b: nat)
    requires RespelledAt(t, u, q, a, b)
    ensures RespelledAt(t + [END_TOKEN], u + [END_TOKEN], q, a, b)
  {
    hide Respelled;
  }

  lemma DerivedParses<D>(stod: string -> Option<D>, toks: seq<Tok>, q: Query<D>, a: nat, b: nat, c: nat)
    requires Terminated(toks) && DerivesAt(stod, toks, q, a, b, c)
    ensures ParseQuery(stod, toks) == Some(q)
  {
    ParserIsExact(stod, toks, q);
    hide DerivesAt, ParseQuery;
  }
}
