/** The SQL tokenizer, and the exact relation between a text and its tokens. */
module SqlLexer {
  import opened Machine

  datatype TokKind = Ident | Number | StringLit | Op | End

  datatype Tok = Tok(kind: TokKind, text: string)

  const END_TOKEN := Tok(End, "")

  // ----- characters, in the C locale

  predicate IsAlpha(c: char) { 'a' <= c <= 'z' || 'A' <= c <= 'Z' }
  predicate IsDigit(c: char) { '0' <= c <= '9' }
  predicate IsSpace(c: char) { c == ' ' || 9 <= c as int <= 13 }
  predicate IsIdentStart(c: char) { IsAlpha(c) || c == '_' }
  predicate IsIdentCont(c: char) { IsAlpha(c) || IsDigit(c) || c == '_' }

  const LOWER_CASE := "abcdefghijklmnopqrstuvwxyz"
  const UPPER_CASE := "ABCDEFGHIJKLMNOPQRSTUVWXYZ"

  /** The characters std::isalpha, std::isdigit and std::isspace accept there. */
  lemma CharacterClasses(c: char)
    ensures IsAlpha(c) <==> c in LOWER_CASE || c in UPPER_CASE
    ensures IsDigit(c) <==> c in "0123456789"
    ensures IsSpace(c) <==> c in [' ', '\t', '\n', 11 as char, 12 as char, '\r']
    ensures IsIdentStart(c) <==> c in LOWER_CASE || c in UPPER_CASE || c in "_"
    ensures IsIdentCont(c) <==> IsIdentStart(c) || c in "0123456789"
  {
    LowerCase(c);
    UpperCase(c);
    Digits(c);
  }

  lemma LowerCase(c: char)
    ensures c in LOWER_CASE <==> 'a' <= c <= 'z'
  {
    forall k | 0 <= k < 26 ensures LOWER_CASE[k] as int == 'a' as int + k {
    }
    if 'a' <= c <= 'z' {
      assert LOWER_CASE[c as int - 'a' as int] == c;
    }
  }

  lemma UpperCase(c: char)
    ensures c in UPPER_CASE <==> 'A' <= c <= 'Z'
  {
    forall k | 0 <= k < 26 ensures UPPER_CASE[k] as int == 'A' as int + k {
    }
    if 'A' <= c <= 'Z' {
      assert UPPER_CASE[c as int - 'A' as int] == c;
    }
  }

  lemma Digits(c: char)
    ensures c in "0123456789" <==> '0' <= c <= '9'
  {
    if '0' <= c <= '9' {
      assert "0123456789"[c as int - '0' as int] == c;
    }
  }

  // ----- what a token list means as text

  predicate DigitsAndDot(s: string, seenDot: bool) {
    && (forall i :: 0 <= i < |s| ==> IsDigit(s[i]) || s[i] == '.')
    && (forall i, j :: 0 <= i < j < |s| ==> s[i] != '.' || s[j] != '.')
    && (seenDot ==> '.' !in s)
  }

  predicate IsIdentText(s: string) {
    s != [] && IsIdentStart(s[0]) && forall i :: 0 <= i < |s| ==> IsIdentCont(s[i])
  }

  /** An optional minus sign, then digits with at most one dot, the first one a digit. */
  predicate IsNumberText(s: string) {
    var body := Unsigned(s);
    body != [] && IsDigit(body[0]) && DigitsAndDot(body, false)
  }

  function Unsigned(s: string): string {
    if s != [] && s[0] == '-' then s[1..] else s
  }

  const OPERATORS: seq<string> := ["(", ")", ",", "=", "!=", "<", "<=", ">", ">="]

  predicate WellFormed(t: Tok) {
    match t.kind
    case Ident => IsIdentText(t.text)
    case Number => IsNumberText(t.text)
    case StringLit => '\'' !in t.text
    case Op => t.text in OPERATORS
    case End => false
  }

  /** How a token is written. */
  function Spelling(t: Tok): string {
    if t.kind == StringLit then "'" + t.text + "'" else t.text
  }

  /** Whether the next character would still belong to the token. */
  predicate Extends(t: Tok, c: char) {
    match t.kind
    case Ident => IsIdentCont(c)
    case Number => IsDigit(c) || (c == '.' && '.' !in t.text)
    case Op => t.text in ["<", ">"] && c == '='
    case _ => false
  }

  /** The text starts with the token, and the token ends where it cannot be extended. */
  predicate StartsWith(s: string, t: Tok) {
    && WellFormed(t)
    && Spelling(t) <= s
    && (|Spelling(t)| < |s| ==> !Extends(t, s[|Spelling(t)|]))
  }

  /** The text is the tokens in order, each one maximal, with white space anywhere between them. */
  predicate Reads(s: string, ts: seq<Tok>)
    decreases |s|
  {
    if s == [] then ts == []
    else if IsSpace(s[0]) then Reads(s[1..], ts)
    else ts != [] && StartsWith(s, ts[0]) && Spelling(ts[0]) != [] && Reads(s[|Spelling(ts[0])|..], ts[1..])
  }

  // ----- scanning one token

  function SpanIdent(s: string): (n: nat)
    ensures n <= |s|
  {
    if s == [] || !IsIdentCont(s[0]) then 0 else 1 + SpanIdent(s[1..])
  }

  function SpanNumber(s: string, seenDot: bool): (n: nat)
    ensures n <= |s|
  {
    if s == [] then 0
    else if IsDigit(s[0]) then 1 + SpanNumber(s[1..], seenDot)
    else if s[0] == '.' && !seenDot then 1 + SpanNumber(s[1..], true)
    else 0
  }

  function SpanString(s: string): (n: nat)
    ensures n <= |s|
  {
    if s == [] || s[0] == '\'' then 0 else 1 + SpanString(s[1..])
  }

  predicate StartsNumber(s: string)
    requires s != []
  {
    IsDigit(s[0]) || (s[0] == '-' && |s| > 1 && IsDigit(s[1]))
  }

  /** The token at the start of the text, and how many characters it takes. */
  function NextToken(s: string): (r: Option<(Tok, nat)>)
    requires s != []
    ensures r.Some? ==> 0 < r.value.1 <= |s|
  {
    var c := s[0];
    if IsIdentStart(c) then
      var n := 1 + SpanIdent(s[1..]);
      Some((Tok(Ident, s[..n]), n))
    else if StartsNumber(s) then
      var sign := if c == '-' then 1 else 0;
      var n := sign + SpanNumber(s[sign..], false);
      assert SpanNumber(s[sign..], false) > 0;
      Some((Tok(Number, s[..n]), n))
    else if c == '\'' then
      var k := SpanString(s[1..]);
      if 1 + k < |s| then Some((Tok(StringLit, s[1..1 + k]), k + 2)) else None
    else if c == '(' || c == ')' || c == ',' then Some((Tok(Op, [c]), 1))
    else if c == '!' && |s| > 1 && s[1] == '=' then Some((Tok(Op, "!="), 2))
    else if c == '<' || c == '>' then
      if |s| > 1 && s[1] == '=' then Some((Tok(Op, [c] + "="), 2)) else Some((Tok(Op, [c]), 1))
    else if c == '=' then Some((Tok(Op, "="), 1))
    else None
  }

  /** All tokens of a text followed by End, or None where the tokenizer throws. */
  function Lex(s: string): Option<seq<Tok>>
    decreases |s|
  {
    if s == [] then Some([END_TOKEN])
    else if IsSpace(s[0]) then Lex(s[1..])
    else
      match NextToken(s)
      case None => None
      case Some((t, n)) =>
        match Lex(s[n..])
        case None => None
        case Some(ts) => Some([t] + ts)
  }

  // ----- maximal munch

  lemma {:induction false} SpanIdentIsMaximal(s: string)
    ensures forall i :: 0 <= i < SpanIdent(s) ==> IsIdentCont(s[i])
    ensures SpanIdent(s) < |s| ==> !IsIdentCont(s[SpanIdent(s)])
  {
    if s != [] && IsIdentCont(s[0]) {
      SpanIdentIsMaximal(s[1..]);
      forall i | 0 <= i < SpanIdent(s) ensures IsIdentCont(s[i]) {
        if i > 0 { assert s[i] == s[1..][i - 1]; }
      }
    }
  }

  lemma {:induction false} SpanNumberIsMaximal(s: string, seenDot: bool)
    ensures var n := SpanNumber(s, seenDot);
            && DigitsAndDot(s[..n], seenDot)
            && (n < |s| ==> !IsDigit(s[n]) && !(s[n] == '.' && !seenDot && '.' !in s[..n]))
  {
    var n := SpanNumber(s, seenDot);
    if n > 0 {
      var dot := seenDot || s[0] == '.';
      SpanNumberIsMaximal(s[1..], dot);
      assert s[..n] == [s[0]] + s[1..][..n - 1];
    }
  }

  lemma {:induction false} SpanStringIsMaximal(s: string)
    ensures '\'' !in s[..SpanString(s)]
    ensures SpanString(s) < |s| ==> s[SpanString(s)] == '\''
  {
    var n := SpanString(s);
    if n > 0 {
      SpanStringIsMaximal(s[1..]);
      assert s[..n] == [s[0]] + s[1..][..n - 1];
    }
  }

  lemma NextTokenIsSound(s: string)
    requires s != []
    ensures NextToken(s).Some? ==>
      StartsWith(s, NextToken(s).value.0) && NextToken(s).value.1 == |Spelling(NextToken(s).value.0)|
  {
    if IsIdentStart(s[0]) {
      IdentIsSound(s);
    } else if StartsNumber(s) {
      NumberIsSound(s);
    } else if s[0] == '\'' {
      SpanStringIsMaximal(s[1..]);
    } else {
      OpIsSound(s);
    }
  }

  lemma IdentIsSound(s: string)
    requires s != [] && IsIdentStart(s[0])
    ensures StartsWith(s, NextToken(s).value.0) && NextToken(s).value.1 == |Spelling(NextToken(s).value.0)|
  {
    SpanIdentIsMaximal(s[1..]);
    assert forall i :: 0 < i < |s| ==> s[i] == s[1..][i - 1];
  }

  lemma OpIsSound(s: string)
    requires s != [] && !IsIdentStart(s[0]) && !StartsNumber(s) && s[0] != '\''
    ensures NextToken(s).Some? ==>
      StartsWith(s, NextToken(s).value.0) && NextToken(s).value.1 == |Spelling(NextToken(s).value.0)|
  {
    var c := s[0];
    assert s[..1] == [c];
    if |s| > 1 && s[1] == '=' {
      assert s[..2] == [c] + "=";
    }
    KnownOperators(c);
  }

  lemma KnownOperators(c: char)
    ensures c == '(' || c == ')' || c == ',' || c == '=' || c == '<' || c == '>' ==> [c] in OPERATORS
    ensures c == '!' || c == '<' || c == '>' ==> [c] + "=" in OPERATORS
  {
    assert c == '(' ==> OPERATORS[0] == [c];
    assert c == ')' ==> OPERATORS[1] == [c];
    assert c == ',' ==> OPERATORS[2] == [c];
    assert c == '=' ==> OPERATORS[3] == [c];
    assert c == '!' ==> OPERATORS[4] == [c] + "=";
    assert c == '<' ==> OPERATORS[5] == [c] && OPERATORS[6] == [c] + "=";
    assert c == '>' ==> OPERATORS[7] == [c] && OPERATORS[8] == [c] + "=";
  }

  lemma NumberIsSound(s: string)
    requires s != [] && StartsNumber(s) && !IsIdentStart(s[0])
    ensures NextToken(s).Some? && NextToken(s).value.0.kind == Number
    ensures StartsWith(s, NextToken(s).value.0) && NextToken(s).value.1 == |Spelling(NextToken(s).value.0)|
  {
    var sign := if s[0] == '-' then 1 else 0;
    var rest := s[sign..];
    SpanNumberIsMaximal(rest, false);
    var n := SpanNumber(rest, false);
    var text := s[..sign + n];
    assert Unsigned(text) == rest[..n];
    assert '.' in text <==> '.' in rest[..n];
  }

  /** Any token a text starts with, up to its last character, is the one the scanner takes. */
  lemma NextTokenIsComplete(s: string, t: Tok)
    requires s != [] && !IsSpace(s[0]) && StartsWith(s, t)
    ensures NextToken(s) == Some((t, |Spelling(t)|))
  {
    match t.kind
    case Ident => IdentIsComplete(s, t);
    case Number => NumberIsComplete(s, t);
    case StringLit => StringIsComplete(s, t);
    case Op => OpIsComplete(s, t);
    case End =>
  }

  lemma IdentIsComplete(s: string, t: Tok)
    requires s != [] && t.kind == Ident && StartsWith(s, t)
    ensures NextToken(s) == Some((t, |t.text|))
  {
    var n, m := 1 + SpanIdent(s[1..]), |t.text|;
    SpanIdentIsMaximal(s[1..]);
    assert forall i :: 0 < i < |s| ==> s[i] == s[1..][i - 1];
    assert forall i :: 0 <= i < m ==> s[i] == t.text[i];
    assert s[..m] == t.text;
  }

  /** A number cannot stop before a longer run of digits with one dot does. */
  lemma NumberStopsLate(rest: string, m: nat, n: nat)
    requires m <= |rest| && n <= |rest|
    requires m < |rest| ==> !IsDigit(rest[m]) && !(rest[m] == '.' && '.' !in rest[..m])
    requires DigitsAndDot(rest[..n], false)
    ensures n <= m
  {
    assert m < n ==> rest[..n][m] == rest[m];
    assert forall i :: 0 <= i < m < n ==> rest[..n][i] == rest[..m][i];
  }

  lemma NumberIsComplete(s: string, t: Tok)
    requires s != [] && t.kind == Number && StartsWith(s, t)
    ensures NextToken(s) == Some((t, |t.text|))
  {
    var sign := if s[0] == '-' then 1 else 0;
    var rest, body := s[sign..], Unsigned(t.text);
    assert t.text[0] == s[0];
    assert t.text == s[..|t.text|];
    assert body == rest[..|body|];
    assert '.' in t.text <==> '.' in body;
    SpanNumberIsMaximal(rest, false);
    NumberStopsLate(rest, |body|, SpanNumber(rest, false));
    NumberStopsLate(rest, SpanNumber(rest, false), |body|);
    NumberStarts(s, t.text);
  }

  lemma NumberStarts(s: string, text: string)
    requires text <= s && IsNumberText(text)
    ensures s != [] && StartsNumber(s) && !IsIdentStart(s[0])
  {
    assert forall i :: 0 <= i < |text| ==> s[i] == text[i];
    assert text[0] == '-' ==> text[1] == Unsigned(text)[0];
  }

  lemma StringIsComplete(s: string, t: Tok)
    requires s != [] && t.kind == StringLit && StartsWith(s, t)
    ensures NextToken(s) == Some((t, |t.text| + 2))
  {
    var rest, m := s[1..], |t.text|;
    var written := Spelling(t);
    assert written[0] == s[0] && written[m + 1] == s[m + 1] == rest[m];
    assert written[1..m + 1] == t.text == rest[..m] == s[1..1 + m];
    SpanStringIsMaximal(rest);
    var k := SpanString(rest);
    assert forall i :: 0 <= i < k ==> rest[i] == rest[..k][i];
    assert forall i :: 0 <= i < m ==> rest[i] == rest[..m][i];
  }

  lemma OpIsComplete(s: string, t: Tok)
    requires s != [] && t.kind == Op && StartsWith(s, t)
    ensures NextToken(s) == Some((t, |t.text|))
  {
    assert forall i :: 0 <= i < |t.text| ==> s[i] == t.text[i];
    assert s[..|t.text|] == t.text;
    assert t.text in ["(", ")", ","] || t.text in ["=", "!="] || t.text in ["<", "<="] || t.text in [">", ">="];
    assert s[..1] == [s[0]];
    if |s| > 1 {
      assert s[..2] == [s[0], s[1]];
      assert [s[0]] + "=" == [s[0], '='];
    }
  }

  // ----- the token list of a text

  /** A token list ends with its only End token, and every other token is well formed. */
  predicate Terminated(toks: seq<Tok>) {
    && toks != [] && toks[|toks| - 1] == END_TOKEN
    && forall i :: 0 <= i < |toks| - 1 ==> WellFormed(toks[i])
  }

  lemma {:induction false} LexIsTerminated(s: string)
    ensures Lex(s).Some? ==> Terminated(Lex(s).value)
    decreases |s|
  {
    if s == [] {
    } else if IsSpace(s[0]) {
      LexIsTerminated(s[1..]);
    } else if NextToken(s).Some? {
      NextTokenIsSound(s);
      LexIsTerminated(s[NextToken(s).value.1..]);
    }
  }

  /**
   The tokenizer returns exactly the reading of the text; so a text has at most one reading, and
   the tokenizer throws exactly when it has none.
   */
  lemma {:induction false} LexIsExact(s: string, ts: seq<Tok>)
    ensures Reads(s, ts) <==> Lex(s) == Some(ts + [END_TOKEN])
    decreases |s|
  {
    if s == [] {
      assert ts == [] ==> ts + [END_TOKEN] == [END_TOKEN];
      assert ts != [] ==> |ts + [END_TOKEN]| > 1;
    } else if IsSpace(s[0]) {
      LexIsExact(s[1..], ts);
    } else {
      NextTokenIsSound(s);
      if NextToken(s).Some? {
        LexIsTerminated(s[NextToken(s).value.1..]);
        assert Lex(s) == Some(ts + [END_TOKEN]) ==> (ts + [END_TOKEN])[0] == NextToken(s).value.0;
      }
      if ts != [] && StartsWith(s, ts[0]) && Spelling(ts[0]) != [] {
        NextTokenIsComplete(s, ts[0]);
        LexIsExact(s[|Spelling(ts[0])|..], ts[1..]);
        assert ts + [END_TOKEN] == [ts[0]] + (ts[1..] + [END_TOKEN]);
        var rest := Lex(s[|Spelling(ts[0])|..]);
        if rest.Some? {
          assert ([ts[0]] + rest.value)[1..] == rest.value;
        }
      }
    }
  }

  // ----- rendering

  /** Tokens joined by single spaces. */
  function Render(ts: seq<Tok>): string {
    if ts == [] then ""
    else if |ts| == 1 then Spelling(ts[0])
    else Spelling(ts[0]) + " " + Render(ts[1..])
  }

  lemma SpellingStarts(t: Tok)
    requires WellFormed(t)
    ensures Spelling(t) != [] && !IsSpace(Spelling(t)[0]) && !Extends(t, ' ')
  {
    if t.kind == Number {
      NumberStarts(t.text, t.text);
    }
  }

  /** Rendering a token list and reading it back gives the list. */
  lemma {:induction false} RenderReads(ts: seq<Tok>)
    requires forall i :: 0 <= i < |ts| ==> WellFormed(ts[i])
    ensures Reads(Render(ts), ts)
  {
    if ts != [] {
      var s, n := Render(ts), |Spelling(ts[0])|;
      SpellingStarts(ts[0]);
      RenderReads(ts[1..]);
      assert s[..n] == Spelling(ts[0]) && s[0] == Spelling(ts[0])[0];
      if |ts| > 1 {
        assert s[n] == ' ' && s[n..][1..] == Render(ts[1..]);
      } else {
        assert s[n..] == [];
      }
    }
  }

  lemma LexUndoesRender(ts: seq<Tok>)
    requires forall i :: 0 <= i < |ts| ==> WellFormed(ts[i])
    ensures Lex(Render(ts)) == Some(ts + [END_TOKEN])
  {
    RenderReads(ts);
    LexIsExact(Render(ts), ts);
  }

  // ----- the tokenizer itself

  /** The tokens found so far in front of what the rest of the text yields. */
  function Prepend(done: seq<Tok>, rest: Option<seq<Tok>>): Option<seq<Tok>> {
    if rest.Some? then Some(done + rest.value) else None
  }

  method ScanIdent(src: string, i: nat) returns (j: nat)
    requires i < |src|
    ensures j == i + 1 + SpanIdent(src[i + 1..])
  {
    j := i + 1;
    while j < |src| && IsIdentCont(src[j])
      invariant i < j <= |src|
      invariant SpanIdent(src[i + 1..]) == j - (i + 1) + SpanIdent(src[j..])
    {
      assert src[j..][1..] == src[j + 1..];
      j := j + 1;
    }
  }

  method ScanNumber(src: string, start: nat) returns (j: nat)
    requires start <= |src|
    ensures j == start + SpanNumber(src[start..], false)
  {
    j := start;
    var seenDot := false;
    while j < |src| && (IsDigit(src[j]) || src[j] == '.')
      invariant start <= j <= |src|
      invariant SpanNumber(src[start..], false) == j - start + SpanNumber(src[j..], seenDot)
    {
      assert src[j..][1..] == src[j + 1..];
      if src[j] == '.' {
        if seenDot {
          break;
        }
        seenDot := true;
      }
      j := j + 1;
    }
  }

  method ScanString(src: string, i: nat) returns (j: nat, text: string)
    requires i < |src|
    ensures j == i + 1 + SpanString(src[i + 1..]) && text == src[i + 1..j]
  {
    j := i + 1;
    text := "";
    while j < |src| && src[j] != '\''
      invariant i < j <= |src| && text == src[i + 1..j]
      invariant SpanString(src[i + 1..]) == j - (i + 1) + SpanString(src[j..])
    {
      assert src[j..][1..] == src[j + 1..];
      text := text + [src[j]];
      j := j + 1;
    }
  }

  /** One round of the scan: the token that starts at i and the position after it. */
  method ScanToken(src: string, i: nat) returns (r: Option<(Tok, nat)>)
    requires i < |src|
    ensures r == if NextToken(src[i..]).None? then None
                 else Some((NextToken(src[i..]).value.0, i + NextToken(src[i..]).value.1))
  {
    var c := src[i];
    ghost var s := src[i..];
    assert s[1..] == src[i + 1..];
    if IsIdentStart(c) {
      var j := ScanIdent(src, i);
      assert src[i..j] == s[..j - i];
      return Some((Tok(Ident, src[i..j]), j));
    }
    if IsDigit(c) || (c == '-' && i + 1 < |src| && IsDigit(src[i + 1])) {
      var start := i + if c == '-' then 1 else 0;
      var j := ScanNumber(src, start);
      assert src[start..] == s[start - i..] && src[i..j] == s[..j - i];
      return Some((Tok(Number, src[i..j]), j));
    }
    if c == '\'' {
      var j, text := ScanString(src, i);
      if j >= |src| {
        return None;
      }
      assert text == s[1..j - i];
      return Some((Tok(StringLit, text), j + 1));
    }
    r := ScanOp(src, i);
  }

  method ScanOp(src: string, i: nat) returns (r: Option<(Tok, nat)>)
    requires i < |src| && !IsIdentStart(src[i]) && !StartsNumber(src[i..]) && src[i] != '\''
    ensures r == if NextToken(src[i..]).None? then None
                 else Some((NextToken(src[i..]).value.0, i + NextToken(src[i..]).value.1))
  {
    var c := src[i];
    if c == '(' || c == ')' || c == ',' {
      return Some((Tok(Op, [c]), i + 1));
    }
    if c == '!' && i + 1 < |src| && src[i + 1] == '=' {
      return Some((Tok(Op, "!="), i + 2));
    }
    if c == '<' || c == '>' {
      if i + 1 < |src| && src[i + 1] == '=' {
        return Some((Tok(Op, [c] + "="), i + 2));
      }
      return Some((Tok(Op, [c]), i + 1));
    }
    if c == '=' {
      return Some((Tok(Op, "="), i + 1));
    }
    return None;
  }

  method Tokenize(src: string) returns (r: Option<seq<Tok>>)
    ensures r == Lex(src)
  {
    var out: seq<Tok> := [];
    var i := 0;
    assert src[0..] == src;
    assert Lex(src).Some? ==> [] + Lex(src).value == Lex(src).value;
    while i < |src|
      invariant i <= |src|
      invariant Lex(src) == Prepend(out, Lex(src[i..]))
      decreases |src| - i
    {
      if IsSpace(src[i]) {
        assert src[i..][1..] == src[i + 1..];
        i := i + 1;
        continue;
      }
      var next := ScanToken(src, i);
      if next == None {
        return None;
      }
      var (t, j) := next.value;
      TokenTaken(src, out, i, t, j);
      out := out + [t];
      i := j;
    }
    assert src[i..] == [];
    r := Some(out + [END_TOKEN]);
  }

  lemma TokenTaken(src: string, out: seq<Tok>, i: nat, t: Tok, j: nat)
    requires i < j <= |src| && !IsSpace(src[i])
    requires NextToken(src[i..]) == Some((t, j - i))
    ensures Prepend(out, Lex(src[i..])) == Prepend(out + [t], Lex(src[j..]))
  {
    hide NextToken;
    var rest := Lex(src[j..]);
    assert src[i..][j - i..] == src[j..];
    if rest.Some? {
      assert out + ([t] + rest.value) == (out + [t]) + rest.value;
    }
  }
}
