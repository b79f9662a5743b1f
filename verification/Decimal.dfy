/** Decimal printing and reading of integers: std::to_string and std::stoll. */
module Decimal {
  import opened Machine
  import opened SqlLexer

  function DigitChar(d: nat): char
    requires d < 10
  {
    '0' + d as char
  }

  function DigitValue(c: char): nat
    requires IsDigit(c)
  {
    c as int - '0' as int
  }

  function PrintNat(n: nat): (s: string)
    ensures s != [] && forall i :: 0 <= i < |s| ==> IsDigit(s[i])
  {
    if n < 10 then [DigitChar(n)] else PrintNat(n / 10) + [DigitChar(n % 10)]
  }

  /** std::to_string of an integer. */
  function Print(x: int): string {
    if x < 0 then "-" + PrintNat(-x) else PrintNat(x)
  }

  function ReadNat(s: string): nat
    requires forall i :: 0 <= i < |s| ==> IsDigit(s[i])
  {
    if s == [] then 0 else 10 * ReadNat(s[..|s| - 1]) + DigitValue(s[|s| - 1])
  }

  /** std::stoll of a number token without a dot; None where it throws out_of_range. */
  function Stoll(text: string): Option<int64>
    requires IsNumberText(text) && '.' !in text
  {
    IntegerBody(text);
    var n := ReadNat(Unsigned(text));
    var v: int := if text[0] == '-' then -(n as int) else n;
    if -0x8000_0000_0000_0000 <= v < 0x8000_0000_0000_0000 then Some(v) else None
  }

  lemma IntegerBody(text: string)
    requires IsNumberText(text) && '.' !in text
    ensures forall i :: 0 <= i < |Unsigned(text)| ==> IsDigit(Unsigned(text)[i])
  {
    var body := Unsigned(text);
    forall i | 0 <= i < |body| ensures IsDigit(body[i]) {
      assert body[i] in text;
    }
  }

  function Pow10(k: nat): nat { if k == 0 then 1 else 10 * Pow10(k - 1) }

  /** The positional value of a digit string: each digit times ten to the number of digits after it. */
  function Positional(s: string): int
    requires forall i :: 0 <= i < |s| ==> IsDigit(s[i])
  {
    if s == [] then 0 else (s[0] as int - '0' as int) * Pow10(|s| - 1) + Positional(s[1..])
  }

  lemma {:induction false} PositionalPush(s: string, c: char)
    requires IsDigit(c) && forall i :: 0 <= i < |s| ==> IsDigit(s[i])
    ensures Positional(s + [c]) == 10 * Positional(s) + DigitValue(c)
  {
    if s == [] {
      assert (s + [c])[1..] == [];
      assert Pow10(0) == 1;
    } else {
      PositionalPush(s[1..], c);
      assert (s + [c])[1..] == s[1..] + [c];
      TenTimes(s[0] as int - '0' as int, Pow10(|s| - 1));
    }
  }

  lemma TenTimes(d: int, p: int)
    ensures d * (10 * p) == 10 * (d * p)
  {
  }

  lemma {:induction false} ReadIsPositional(s: string)
    requires forall i :: 0 <= i < |s| ==> IsDigit(s[i])
    ensures ReadNat(s) == Positional(s)
  {
    if s != [] {
      ReadIsPositional(s[..|s| - 1]);
      PositionalPush(s[..|s| - 1], s[|s| - 1]);
      assert s == s[..|s| - 1] + [s[|s| - 1]];
    }
  }

  /** An integer token reads as its positional value with its sign, and is refused exactly when that is no int64. */
  lemma StollIsExact(text: string, v: int)
    requires IsNumberText(text) && '.' !in text
    ensures forall i :: 0 <= i < |Unsigned(text)| ==> IsDigit(Unsigned(text)[i])
    ensures v == (if text[0] == '-' then -Positional(text[1..]) else Positional(text)) ==>
      Stoll(text) == if -0x8000_0000_0000_0000 <= v < 0x8000_0000_0000_0000 then Some(v) else None
  {
    IntegerBody(text);
    ReadIsPositional(Unsigned(text));
  }

  lemma {:induction false} ReadUndoesPrintNat(n: nat)
    ensures ReadNat(PrintNat(n)) == n
  {
    if n >= 10 {
      ReadUndoesPrintNat(n / 10);
      assert PrintNat(n)[..|PrintNat(n)| - 1] == PrintNat(n / 10);
    }
  }

  /** Printing an int64 gives an integer token, and reading the token gives the int64 back. */
  lemma StollUndoesPrint(x: int64)
    ensures IsNumberText(Print(x)) && '.' !in Print(x)
    ensures Stoll(Print(x)) == Some(x)
  {
    var n: nat := if x < 0 then -(x as int) else x;
    var s := PrintNat(n);
    ReadUndoesPrintNat(n);
    assert s[0] != '-';
    if x < 0 {
      assert Print(x)[1..] == s;
    }
    assert Unsigned(Print(x)) == s;
  }

  /** Different integers print differently. */
  lemma PrintIsInjective(x: int64, y: int64)
    requires Print(x) == Print(y)
    ensures x == y
  {
    StollUndoesPrint(x);
    StollUndoesPrint(y);
  }
}
