/** Run-length encoding: what a list of runs stands for, and the encoder. */
module Rle {
  import opened Machine
  import opened Rows

  /** The rows a list of runs stands for; a zero-length run stands for none. */
  function Expand(values: seq<int32>, lengths: seq<uint32>): seq<int32>
    requires |values| == |lengths|
  {
    if values == [] then []
    else Copies(values[0], lengths[0]) + Expand(values[1..], lengths[1..])
  }

  function SumLengths(lengths: seq<uint32>): nat {
    if lengths == [] then 0 else lengths[0] + SumLengths(lengths[1..])
  }

  /** What the encoder produces: no empty run, and equal neighbours only after a full run. */
  predicate Canonical(values: seq<int32>, lengths: seq<uint32>) {
    && |values| == |lengths|
    && (forall i :: 0 <= i < |lengths| ==> lengths[i] > 0)
    && (forall i :: 0 <= i < |values| - 1 && values[i] == values[i + 1] ==> lengths[i] == 0xFFFF_FFFF)
  }

  // ----- the encoder

  method RleEncode(data: seq<int32>) returns (values: seq<int32>, lengths: seq<uint32>)
    ensures Canonical(values, lengths)
    ensures Expand(values, lengths) == data
  {
    values, lengths := [], [];
    if data == [] {
      return;
    }
    var current := data[0];
    var runLen: uint32 := 1;
    assert data[..1] == Copies(current, 1);
    for i := 1 to |data|
      invariant |values| == |lengths| && runLen > 0
      invariant Canonical(values + [current], lengths + [runLen])
      invariant Expand(values, lengths) + Copies(current, runLen) == data[..i]
    {
      assert data[..i + 1] == data[..i] + [data[i]];
      if data[i] == current {
        if runLen == UINT32_MAX {
          CanonicalNextRun(values, lengths, current, runLen, current);
          ExpandPush(values, lengths, current, runLen);
          values, lengths := values + [current], lengths + [runLen];
          runLen := 0;
        } else {
          CanonicalLongerRun(values, lengths, current, runLen);
        }
        CopiesPush(current, runLen);
        runLen := runLen + 1;
      } else {
        CanonicalNextRun(values, lengths, current, runLen, data[i]);
        ExpandPush(values, lengths, current, runLen);
        values, lengths := values + [current], lengths + [runLen];
        current := data[i];
        runLen := 1;
        CopiesPush(current, 0);
      }
    }
    ExpandPush(values, lengths, current, runLen);
    values, lengths := values + [current], lengths + [runLen];
    assert data[..|data|] == data;
  }

  lemma CanonicalNextRun(values: seq<int32>, lengths: seq<uint32>, current: int32, runLen: uint32, next: int32)
    requires |values| == |lengths| && Canonical(values + [current], lengths + [runLen])
    requires next == current ==> runLen == UINT32_MAX
    ensures Canonical(values + [current] + [next], lengths + [runLen] + [1])
  {
    var vs, ls := values + [current], lengths + [runLen];
    forall i | 0 <= i < |vs| && (vs + [next])[i] == (vs + [next])[i + 1]
      ensures (ls + [1])[i] == UINT32_MAX
    {
      if i < |vs| - 1 {
        assert vs[i] == vs[i + 1];
      }
    }
  }

  lemma CanonicalLongerRun(values: seq<int32>, lengths: seq<uint32>, current: int32, runLen: uint32)
    requires |values| == |lengths| && Canonical(values + [current], lengths + [runLen])
    requires runLen < UINT32_MAX
    ensures Canonical(values + [current], lengths + [runLen + 1])
  {
    var ls := lengths + [runLen];
    var longer := ls[|lengths| := runLen + 1];
    assert longer == lengths + [runLen + 1];
    assert forall i :: 0 <= i < |lengths| ==> longer[i] == ls[i];
  }

  lemma CopiesPush(v: int32, n: nat)
    ensures Copies(v, n + 1) == Copies(v, n) + [v]
  {
  }

  lemma {:induction false} ExpandPush(values: seq<int32>, lengths: seq<uint32>, v: int32, n: uint32)
    requires |values| == |lengths|
    ensures Expand(values + [v], lengths + [n]) == Expand(values, lengths) + Copies(v, n)
  {
    var vs, ls := values + [v], lengths + [n];
    if values == [] {
      assert vs[1..] == [] && ls[1..] == [];
      assert Copies(v, n) + [] == [] + Copies(v, n);
    } else {
      ExpandPush(values[1..], lengths[1..], v, n);
      assert vs[1..] == values[1..] + [v] && ls[1..] == lengths[1..] + [n];
    }
  }

  lemma {:induction false} ExpandLength(values: seq<int32>, lengths: seq<uint32>)
    requires |values| == |lengths|
    ensures |Expand(values, lengths)| == SumLengths(lengths)
  {
    if values != [] {
      ExpandLength(values[1..], lengths[1..]);
    }
  }

  // ----- the encoding is unique and minimal

  /** A canonical list starts with the longest run a uint32 length can describe. */
  lemma FirstRunIsMaximal(values: seq<int32>, lengths: seq<uint32>, n: nat)
    requires Canonical(values, lengths) && values != []
    requires n <= UINT32_MAX && n <= |Expand(values, lengths)|
    requires forall i :: 0 <= i < n ==> Expand(values, lengths)[i] == Expand(values, lengths)[0]
    ensures n <= lengths[0]
  {
    var rows, rest := Expand(values, lengths), Expand(values[1..], lengths[1..]);
    assert rows == Copies(values[0], lengths[0]) + rest;
    assert rows[0] == values[0];
    if |values| > 1 {
      assert rest == Copies(values[1], lengths[1]) + Expand(values[1..][1..], lengths[1..][1..]);
      assert rows[lengths[0]] == rest[0] == values[1];
    }
  }

  lemma TailIsCanonical(values: seq<int32>, lengths: seq<uint32>)
    requires Canonical(values, lengths) && values != []
    ensures Canonical(values[1..], lengths[1..])
    ensures |Expand(values, lengths)| > 0 && Expand(values, lengths)[0] == values[0]
    ensures Expand(values, lengths)[lengths[0]..] == Expand(values[1..], lengths[1..])
  {
    var vs, ls := values[1..], lengths[1..];
    forall i | 0 <= i < |vs| - 1 && vs[i] == vs[i + 1] ensures ls[i] == UINT32_MAX {
      assert values[i + 1] == values[i + 2];
    }
  }

  /** Two canonical lists of the same rows are the same list, so re-encoding changes nothing. */
  lemma {:induction false} CanonicalIsUnique(v1: seq<int32>, l1: seq<uint32>, v2: seq<int32>, l2: seq<uint32>)
    requires Canonical(v1, l1) && Canonical(v2, l2)
    requires Expand(v1, l1) == Expand(v2, l2)
    ensures v1 == v2 && l1 == l2
  {
    if v1 == [] || v2 == [] {
      if v1 != [] { TailIsCanonical(v1, l1); }
      if v2 != [] { TailIsCanonical(v2, l2); }
    } else {
      TailIsCanonical(v1, l1);
      TailIsCanonical(v2, l2);
      FirstRunIsMaximal(v1, l1, l2[0]);
      FirstRunIsMaximal(v2, l2, l1[0]);
      CanonicalIsUnique(v1[1..], l1[1..], v2[1..], l2[1..]);
      assert v1 == [v1[0]] + v1[1..] && v2 == [v2[0]] + v2[1..];
      assert l1 == [l1[0]] + l1[1..] && l2 == [l2[0]] + l2[1..];
    }
  }

  /** No run list, whatever its lengths, describes the rows of a canonical list in fewer runs. */
  lemma CanonicalIsMinimal(v: seq<int32>, l: seq<uint32>, w: seq<int32>, m: seq<uint32>)
    requires Canonical(v, l) && |w| == |m|
    requires Expand(v, l) == Expand(w, m)
    ensures |v| <= |w|
  {
    assert Expand(w, m)[0..] == Expand(w, m);
    CanonicalStaysAhead(v, l, w, m, 0);
  }

  /** After k runs each, the canonical list has covered at least as many rows. */
  lemma {:induction false} CanonicalStaysAhead(v: seq<int32>, l: seq<uint32>, w: seq<int32>, m: seq<uint32>, d: nat)
    requires Canonical(v, l) && |w| == |m| && d <= |Expand(w, m)|
    requires Expand(v, l) == Expand(w, m)[d..]
    ensures |v| <= |w|
    decreases |w|
  {
    if v != [] {
      var rows, other := Expand(v, l), Expand(w, m);
      TailIsCanonical(v, l);
      assert w != [];
      var head, rest := Copies(w[0], m[0]), Expand(w[1..], m[1..]);
      assert other == head + rest;
      if d >= m[0] {
        assert rows == rest[d - m[0]..];
        CanonicalStaysAhead(v, l, w[1..], m[1..], d - m[0]);
      } else {
        var n := m[0] - d;
        assert forall i :: 0 <= i < n ==> rows[i] == other[d + i] == w[0];
        FirstRunIsMaximal(v, l, n);
        assert rows[l[0]..] == other[d + l[0]..] == rest[d + l[0] - m[0]..];
        CanonicalStaysAhead(v[1..], l[1..], w[1..], m[1..], d + l[0] - m[0]);
      }
    }
  }
}
