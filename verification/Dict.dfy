/** Dictionary encoding: the one-pass builder, the equality filter on codes, and count-distinct. */
module Dict {
  import opened Machine
  import opened Bitmap
  import opened Rows
  import opened Simd
  import FilterKernels

  const CODES: nat := 0x100

  /** The distinct values of a column, in order of first occurrence. */
  function Distinct<T(==)>(raw: seq<T>): (d: seq<T>)
    ensures |d| <= |raw|
  {
    if raw == [] then []
    else
      var d := Distinct(raw[..|raw| - 1]);
      if raw[|raw| - 1] in d then d else d + [raw[|raw| - 1]]
  }

  /** Distinct lists exactly the values that occur, each one once. */
  lemma {:induction false} DistinctIsExact<T>(raw: seq<T>)
    ensures forall v :: v in Distinct(raw) <==> v in raw
    ensures forall i, j :: 0 <= i < j < |Distinct(raw)| ==> Distinct(raw)[i] != Distinct(raw)[j]
    ensures |Distinct(raw)| == |set v | v in raw|
  {
    if raw != [] {
      var n := |raw| - 1;
      DistinctIsExact(raw[..n]);
      var last := raw[n];
      var before := set v | v in raw[..n];
      assert raw == raw[..n] + [last];
      assert (set v | v in raw) == before + {last};
    }
  }

  lemma DistinctMember<T>(raw: seq<T>, v: T)
    ensures v in Distinct(raw) <==> v in raw
  {
    DistinctIsExact(raw);
    hide Distinct;
  }

  /** The dictionary is in order of first occurrence: an earlier entry occurs before any later one does. */
  lemma {:induction false} DistinctInOrder<T>(raw: seq<T>, i: nat, j: nat)
    requires i < j < |Distinct(raw)|
    ensures exists p :: 0 <= p < |raw| && raw[p] == Distinct(raw)[i] && Distinct(raw)[j] !in raw[..p]
  {
    var n := |raw| - 1;
    var before, last := Distinct(raw[..n]), raw[n];
    if j < |before| {
      DistinctInOrder(raw[..n], i, j);
      var p :| 0 <= p < n && raw[..n][p] == before[i] && before[j] !in raw[..n][..p];
      assert raw[p] == before[i] && raw[..n][..p] == raw[..p];
    } else {
      var v := before[i];
      DistinctMember(raw[..n], v);
      DistinctMember(raw[..n], last);
      var p :| 0 <= p < n && raw[..n][p] == v;
      assert raw[p] == before[i] && raw[..p] == raw[..n][..p];
    }
  }

  /** The index of a value in a list without repetitions. */
  function IndexOf<T(==)>(d: seq<T>, v: T): (i: nat)
    requires v in d
    ensures i < |d| && d[i] == v
  {
    if d[0] == v then 0 else 1 + IndexOf(d[1..], v)
  }

  lemma {:induction false} IndexIsUnique<T>(d: seq<T>, i: nat)
    requires i < |d| && forall a, b :: 0 <= a < b < |d| ==> d[a] != d[b]
    ensures IndexOf(d, d[i]) == i
  {
    var k := IndexOf(d, d[i]);
    assert d[k] == d[i];
  }

  lemma {:induction false} IndexInPrefix<T>(d: seq<T>, more: seq<T>, v: T)
    requires v in d
    ensures v in d + more && IndexOf(d + more, v) == IndexOf(d, v)
  {
    if d[0] != v {
      assert (d + more)[1..] == d[1..] + more;
      IndexInPrefix(d[1..], more, v);
    }
  }

  /** The code of row i: the dictionary index, truncated to one byte. */
  predicate Encodes<T(==)>(codes: seq<uint8>, dict: seq<T>, raw: seq<T>) {
    && |codes| == |raw|
    && forall i :: 0 <= i < |raw| ==> raw[i] in dict && codes[i] == IndexOf(dict, raw[i]) % CODES
  }

  datatype DictColumn<T> = DictColumn(dict: seq<T>, codes: seq<uint8>)

  /** The builder's state after the rows: dictionary, codes and the value-to-index map agree. */
  ghost predicate Built<T>(rows: seq<T>, dict: seq<T>, codes: seq<uint8>, seen: map<T, nat>) {
    && dict == Distinct(rows)
    && Encodes(codes, dict, rows)
    && (forall v :: v in dict ==> v in seen)
    && (forall v :: v in seen ==> v in dict && seen[v] == IndexOf(dict, v))
  }

  lemma BuiltPush<T>(rows: seq<T>, dict: seq<T>, codes: seq<uint8>, seen: map<T, nat>, v: T)
    requires Built(rows, dict, codes, seen)
    ensures v in seen ==> Built(rows + [v], dict, codes + [seen[v] % CODES], seen)
    ensures v !in seen ==> Built(rows + [v], dict + [v], codes + [|dict| % CODES], seen[v := |dict|])
  {
    DistinctPush(rows, v);
    EncodesPush(codes, dict, rows, v);
    if v !in seen {
      SeenPush(seen, dict, v);
    }
  }

  method TryBuild<T(==)>(raw: seq<T>, maxCard: nat) returns (r: Option<DictColumn<T>>)
    ensures r.None? <==> |Distinct(raw)| > maxCard
    ensures r.Some? ==> r.value.dict == Distinct(raw) && Encodes(r.value.codes, r.value.dict, raw)
  {
    var dict: seq<T>, codes: seq<uint8>, seen: map<T, nat> := [], [], map[];
    for i := 0 to |raw|
      invariant Built(raw[..i], dict, codes, seen) && |dict| <= maxCard
    {
      hide Distinct, IndexOf, Encodes;
      var v := raw[i];
      assert raw[..i + 1] == raw[..i] + [v];
      BuiltPush(raw[..i], dict, codes, seen, v);
      var idx: nat;
      if v !in seen {
        idx := |dict|;
        if idx >= maxCard {
          DistinctGrows(raw, i + 1);
          return None;
        }
        dict := dict + [v];
        seen := seen[v := idx];
      } else {
        idx := seen[v];
      }
      codes := codes + [idx % CODES];
    }
    assert raw[..|raw|] == raw;
    r := Some(DictColumn(dict, codes));
  }

  lemma SeenPush<T>(seen: map<T, nat>, dict: seq<T>, v: T)
    requires v !in dict
    requires forall w :: w in seen <==> w in dict
    requires forall w :: w in seen ==> seen[w] == IndexOf(dict, w)
    ensures forall w :: w in seen[v := |dict|] <==> w in dict + [v]
    ensures forall w :: w in seen[v := |dict|] ==> seen[v := |dict|][w] == IndexOf(dict + [v], w)
  {
    forall w | w in seen[v := |dict|] ensures seen[v := |dict|][w] == IndexOf(dict + [v], w) {
      if w == v {
        IndexOfPushed(dict, v);
      } else {
        IndexInPrefix(dict, [v], w);
      }
    }
  }

  lemma DistinctPush<T>(rows: seq<T>, v: T)
    ensures Distinct(rows + [v]) == if v in Distinct(rows) then Distinct(rows) else Distinct(rows) + [v]
  {
    assert (rows + [v])[..|rows|] == rows;
  }

  lemma EncodesPush<T>(codes: seq<uint8>, dict: seq<T>, rows: seq<T>, v: T)
    requires Encodes(codes, dict, rows)
    ensures v in dict ==> Encodes(codes + [IndexOf(dict, v) % CODES], dict, rows + [v])
    ensures v !in dict ==> Encodes(codes + [|dict| % CODES], dict + [v], rows + [v])
  {
    if v !in dict {
      IndexOfPushed(dict, v);
      forall i | 0 <= i < |rows| ensures codes[i] == IndexOf(dict + [v], rows[i]) % CODES {
        IndexInPrefix(dict, [v], rows[i]);
      }
    }
  }

  lemma {:induction false} IndexOfPushed<T>(dict: seq<T>, v: T)
    requires v !in dict
    ensures IndexOf(dict + [v], v) == |dict|
  {
    assert forall i :: 0 <= i < |dict| ==> dict[i] != v;
  }

  lemma {:induction false} DistinctGrows<T>(raw: seq<T>, i: nat)
    requires i <= |raw|
    ensures Distinct(raw[..i]) <= Distinct(raw)
    decreases |raw| - i
  {
    if i < |raw| {
      DistinctGrows(raw, i + 1);
      assert raw[..i + 1][..i] == raw[..i];
    } else {
      assert raw[..i] == raw;
    }
  }

  // ----- decoding

  /** Every code names a dictionary entry. */
  predicate CodesInRange<T>(d: DictColumn<T>) {
    forall i :: 0 <= i < |d.codes| ==> d.codes[i] < |d.dict|
  }

  function Decoded<T>(d: DictColumn<T>): seq<T>
    requires CodesInRange(d)
  {
    seq(|d.codes|, i requires 0 <= i < |d.codes| => d.dict[d.codes[i]])
  }

  method Materialize<T>(d: DictColumn<T>) returns (out: seq<T>)
    requires CodesInRange(d)
    ensures out == Decoded(d)
  {
    out := [];
    for i := 0 to |d.codes|
      invariant out == Decoded(d)[..i]
    {
      out := out + [d.dict[d.codes[i]]];
    }
  }

  /** A built column decodes to its input exactly when the byte codes can tell its values apart. */
  lemma RoundTrip<T>(raw: seq<T>, d: DictColumn<T>)
    requires d.dict == Distinct(raw) && Encodes(d.codes, d.dict, raw)
    ensures CodesInRange(d)
    ensures Decoded(d) == raw <==> |Distinct(raw)| <= 256
  {
    DistinctIsExact(raw);
    hide Distinct;
    if |d.dict| > CODES {
      var v := d.dict[CODES];
      IndexIsUnique(d.dict, CODES);
      assert v in raw;
      var i :| 0 <= i < |raw| && raw[i] == v;
      assert d.codes[i] == 0;
      assert Decoded(d)[i] == d.dict[0] != raw[i];
    } else {
      forall i | 0 <= i < |raw| ensures d.codes[i] == IndexOf(d.dict, raw[i]) {
      }
    }
  }

  // ----- equality filter on codes

  method CodeFor<T(==)>(d: DictColumn<T>, v: T) returns (code: Option<uint8>)
    ensures code == if v in d.dict then Some(IndexOf(d.dict, v) % CODES) else None
  {
    for i := 0 to |d.dict|
      invariant v !in d.dict[..i]
    {
      if d.dict[i] == v {
        FirstOccurrence(d.dict, v, i);
        return Some(i % CODES);
      }
    }
    return None;
  }

  lemma {:induction false} FirstOccurrence<T>(d: seq<T>, v: T, i: nat)
    requires i < |d| && d[i] == v && v !in d[..i]
    ensures IndexOf(d, v) == i
  {
    if i > 0 {
      assert d[..i][0] == d[0] && d[1..][..i - 1] == d[..i][1..];
      FirstOccurrence(d[1..], v, i - 1);
    }
  }

  function Matches(codes: seq<uint8>, target: uint8): seq<bool> {
    seq(|codes|, i requires 0 <= i < |codes| => codes[i] == target)
  }

  /** Filtering the codes for code_for(v) marks exactly the raw rows that hold v. */
  lemma Pushdown<T>(raw: seq<T>, d: DictColumn<T>, v: T, code: Option<uint8>, i: nat)
    requires Encodes(d.codes, d.dict, raw) && |d.dict| <= CODES
    requires code == if v in d.dict then Some(IndexOf(d.dict, v) % CODES) else None
    requires i < |raw|
    ensures code.None? ==> raw[i] != v
    ensures code.Some? ==> Matches(d.codes, code.value)[i] == (raw[i] == v)
  {
    var k := IndexOf(d.dict, raw[i]);
    assert d.codes[i] == k;
    if code.Some? && code.value == k {
      assert d.dict[k] == v;
    }
  }

  method FilterDictEqScalar(codes: seq<uint8>, target: uint8, outBm: array<bv8>) returns (cnt: nat)
    requires ByteCount(|codes|) <= outBm.Length
    modifies outBm
    ensures outBm[..ByteCount(|codes|)] == Pack(Matches(codes, target))
    ensures outBm[ByteCount(|codes|)..] == old(outBm[ByteCount(|codes|)..])
    ensures cnt == Ones(Matches(codes, target))
  {
    var bytes := ByteCount(|codes|);
    ghost var p := Matches(codes, target);
    FilterKernels.ClearBitmap(outBm, bytes);
    MarksNothing(outBm[..bytes], p);
    cnt := CodeRegion(codes, 0, target, outBm, p, 0);
    MarksEverything(outBm[..bytes], p);
  }

  /** The code-at-a-time loop from row `from` on. */
  method CodeRegion(codes: seq<uint8>, from: nat, target: uint8, outBm: array<bv8>, ghost p: seq<bool>, start: nat)
    returns (cnt: nat)
    requires from <= |codes| == |p| && ByteCount(|p|) <= outBm.Length
    requires forall i :: 0 <= i < |p| ==> p[i] == (codes[i] == target)
    requires Marks(outBm[..ByteCount(|p|)], p, from) && start == Ones(p[0..from])
    modifies outBm
    ensures Marks(outBm[..ByteCount(|p|)], p, |p|)
    ensures outBm[ByteCount(|p|)..] == old(outBm[ByteCount(|p|)..])
    ensures cnt == Ones(p)
  {
    hide Marks, Ones;
    cnt := start;
    for i := from to |codes|
      invariant Marks(outBm[..ByteCount(|p|)], p, i)
      invariant outBm[ByteCount(|p|)..] == old(outBm[ByteCount(|p|)..])
      invariant cnt == Ones(p[0..i])
    {
      var hit := codes[i] == target;
      FilterKernels.RecordRow(outBm, i, hit, p);
      OnesPush(p, 0, i);
      if hit {
        cnt := cnt + 1;
      }
    }
    assert p[0..|p|] == p;
  }

  /** One 32-code compare: its mask holds four bitmap bytes, and its popcount counts their rows. */
  method CompareCodes(codes: seq<uint8>, i: nat, target: uint8, ghost p: seq<bool>) returns (m: bv32)
    requires i + 32 <= |codes| && p == Matches(codes, target)
    ensures forall q :: 0 <= q < 4 ==> ByteOf32(m, q) == PackByte(p, i + 8 * q)
    ensures PopCount32(m) == Ones(p[i..i + 32])
  {
    var v := Load8(codes, i);
    var eq := CmpEq8(v, Set8(target));
    m := MoveMask8(eq);
    ghost var tops := seq(32, k requires 0 <= k < 32 => eq[k] >= 0x80);
    assert tops == p[i..i + 32];
    forall q | 0 <= q < 4 ensures ByteOf32(m, q) == PackByte(p, i + 8 * q) {
      MoveMask8Bytes(eq, q);
      SubSlice(tops, p, i, 8 * q);
      FilterKernels.SameByte(tops, 8 * q, p, i + 8 * q);
    }
    FourByteCount(p, i);
  }

  lemma SubSlice(part: seq<bool>, p: seq<bool>, i: nat, o: nat)
    requires o + 8 <= |part| && i + |part| <= |p| && part == p[i..i + |part|]
    ensures part[o..o + 8] == p[i + o..i + o + 8]
  {
    var a, b := part[o..o + 8], p[i + o..i + o + 8];
    forall k | 0 <= k < 8 ensures a[k] == b[k] {
      assert part[o + k] == p[i..i + |part|][o + k];
    }
  }

  lemma {:induction false} PackByteCount(p: seq<bool>, o: nat, k: nat)
    requires k <= 8 && o + k <= |p|
    ensures CountBits(PackByte(p, o), k) == Ones(p[o..o + k])
  {
    if k > 0 {
      PackByteCount(p, o, k - 1);
      PackByteBit(p, o, k - 1);
      OnesPush(p, o, o + k - 1);
    }
  }

  lemma FourByteCount(p: seq<bool>, i: nat)
    requires i + 32 <= |p|
    ensures Ones(p[i..i + 32]) == PopCount(PackByte(p, i)) + PopCount(PackByte(p, i + 8))
                                  + PopCount(PackByte(p, i + 16)) + PopCount(PackByte(p, i + 24))
  {
    PackByteCount(p, i, 8);
    PackByteCount(p, i + 8, 8);
    PackByteCount(p, i + 16, 8);
    PackByteCount(p, i + 24, 8);
    OnesConcat(p[i..i + 8], p[i + 8..i + 16]);
    OnesConcat(p[i + 16..i + 24], p[i + 24..i + 32]);
    OnesConcat(p[i..i + 8] + p[i + 8..i + 16], p[i + 16..i + 24] + p[i + 24..i + 32]);
    assert p[i..i + 32] == (p[i..i + 8] + p[i + 8..i + 16]) + (p[i + 16..i + 24] + p[i + 24..i + 32]);
  }

  method VectorRegion(codes: seq<uint8>, target: uint8, outBm: array<bv8>, ghost p: seq<bool>)
    returns (i: nat, cnt: nat)
    requires p == Matches(codes, target) && ByteCount(|p|) <= outBm.Length
    requires FilterKernels.PackedTo(outBm[..ByteCount(|p|)], p, 0)
    modifies outBm
    ensures i <= |p| && i % 8 == 0 && cnt == Ones(p[0..i])
    ensures FilterKernels.PackedTo(outBm[..ByteCount(|p|)], p, i / 8)
    ensures outBm[ByteCount(|p|)..] == old(outBm[ByteCount(|p|)..])
  {
    hide FilterKernels.PackedTo, PopCount32, Ones;
    i, cnt := 0, 0;
    while i + 32 <= |codes|
      invariant i <= |p| && i % 8 == 0 && cnt == Ones(p[0..i])
      invariant FilterKernels.PackedTo(outBm[..ByteCount(|p|)], p, i / 8)
      invariant outBm[ByteCount(|p|)..] == old(outBm[ByteCount(|p|)..])
    {
      var hits := VectorStep(codes, i, target, outBm, p);
      OnesAppend(p, i, i + 32);
      cnt := cnt + hits;
      i := i + 32;
    }
  }

  /** Compares 32 codes, stores their four bitmap bytes and counts the matches. */
  method VectorStep(codes: seq<uint8>, i: nat, target: uint8, outBm: array<bv8>, ghost p: seq<bool>) returns (hits: nat)
    requires p == Matches(codes, target) && i + 32 <= |p| && i % 8 == 0 && ByteCount(|p|) <= outBm.Length
    requires FilterKernels.PackedTo(outBm[..ByteCount(|p|)], p, i / 8)
    modifies outBm
    ensures FilterKernels.PackedTo(outBm[..ByteCount(|p|)], p, i / 8 + 4)
    ensures outBm[ByteCount(|p|)..] == old(outBm[ByteCount(|p|)..])
    ensures hits == Ones(p[i..i + 32])
  {
    assert |p| == |codes|;
    hide FilterKernels.PackedTo, PopCount32, Ones, Matches, PackByte, ByteOf32;
    var m := CompareCodes(codes, i, target, p);
    StoreMask(outBm, i / 8, m, p);
    hits := PopCount32(m);
  }

  lemma OnesAppend(p: seq<bool>, i: nat, j: nat)
    requires i <= j <= |p|
    ensures Ones(p[0..j]) == Ones(p[0..i]) + Ones(p[i..j])
  {
    OnesConcat(p[0..i], p[i..j]);
    assert p[0..j] == p[0..i] + p[i..j];
  }

  /** Writes the four bytes of a compare mask. */
  method StoreMask(outBm: array<bv8>, b: nat, m: bv32, ghost p: seq<bool>)
    requires b + 4 <= ByteCount(|p|) <= outBm.Length
    requires FilterKernels.PackedTo(outBm[..ByteCount(|p|)], p, b)
    requires forall q :: 0 <= q < 4 ==> ByteOf32(m, q) == PackByte(p, 8 * b + 8 * q)
    modifies outBm
    ensures FilterKernels.PackedTo(outBm[..ByteCount(|p|)], p, b + 4)
    ensures outBm[ByteCount(|p|)..] == old(outBm[ByteCount(|p|)..])
  {
    outBm[b + 0] := ByteOf32(m, 0);
    outBm[b + 1] := ByteOf32(m, 1);
    outBm[b + 2] := ByteOf32(m, 2);
    outBm[b + 3] := ByteOf32(m, 3);
  }

  method FilterDictEqAvx2(codes: seq<uint8>, target: uint8, outBm: array<bv8>) returns (cnt: nat)
    requires ByteCount(|codes|) <= outBm.Length
    modifies outBm
    ensures outBm[..ByteCount(|codes|)] == Pack(Matches(codes, target))
    ensures outBm[ByteCount(|codes|)..] == old(outBm[ByteCount(|codes|)..])
    ensures cnt == Ones(Matches(codes, target))
  {
    var bytes := ByteCount(|codes|);
    ghost var p := Matches(codes, target);
    FilterKernels.ClearBitmap(outBm, bytes);
    var i;
    i, cnt := VectorRegion(codes, target, outBm, p);
    MarksBytes(outBm[..bytes], p, i);
    cnt := CodeRegion(codes, i, target, outBm, p, cnt);
    MarksEverything(outBm[..bytes], p);
  }

  // ----- count distinct

  /** The dictionary size of a built column is the number of distinct raw values. */
  method RunDict<T>(d: DictColumn<T>, ghost raw: seq<T>) returns (k: nat)
    requires d.dict == Distinct(raw)
    ensures k == |set v | v in raw|
  {
    DistinctIsExact(raw);
    k := |d.dict|;
  }

  method RunScalar<T(==)>(data: seq<T>) returns (k: nat)
    ensures k == |Distinct(data)|
  {
    var s: set<T> := {};
    for i := 0 to |data|
      invariant s == set v | v in data[..i]
    {
      assert data[..i + 1] == data[..i] + [data[i]];
      s := s + {data[i]};
    }
    assert data[..|data|] == data;
    DistinctIsExact(data);
    k := |s|;
  }

  /** The codes of the kept rows, as a set of dictionary slots. */
  ghost function SlotsOf(codes: seq<uint8>, keep: seq<bool>, n: nat): set<nat>
    requires n <= |codes| && n <= |keep|
  {
    set i | 0 <= i < n && keep[i] :: codes[i]
  }

  method RunDictFiltered<T>(d: DictColumn<T>, keepBm: seq<bv8>, n: nat) returns (k: nat)
    requires n <= |d.codes| && ByteCount(n) <= |keepBm| && CodesInRange(d)
    ensures k == |SlotsOf(d.codes, Bits(keepBm, n), n)|
  {
    hide Bits;
    var seen := new bool[|d.dict|](i => false);
    ghost var keep := Bits(keepBm, n);
    for i := 0 to n
      invariant forall s :: 0 <= s < seen.Length ==> seen[s] == (s in SlotsOf(d.codes, keep, i))
    {
      BitsAt(keepBm, n, i);
      if TestBit(keepBm[i / 8], i % 8) {
        seen[d.codes[i]] := true;
      }
    }
    k := 0;
    ghost var slots: set<nat> := {};
    for s := 0 to seen.Length
      invariant slots == set t | t in SlotsOf(d.codes, keep, n) && t < s
      invariant k == |slots|
    {
      if seen[s] {
        slots := slots + {s};
        k := k + 1;
      }
    }
    assert slots == SlotsOf(d.codes, keep, n);
  }

  lemma {:induction false} KeptMembers<T>(rows: seq<T>, keep: seq<bool>, v: T)
    requires |rows| == |keep|
    ensures v in Kept(rows, keep) <==> exists i :: 0 <= i < |rows| && keep[i] && rows[i] == v
  {
    if rows != [] {
      var n := |rows| - 1;
      KeptMembers(rows[..n], keep[..n], v);
      if v in Kept(rows[..n], keep[..n]) {
        var i :| 0 <= i < n && keep[..n][i] && rows[..n][i] == v;
        assert keep[i] && rows[i] == v;
      }
      if i :| 0 <= i < |rows| && keep[i] && rows[i] == v && i < n {
        assert keep[..n][i] && rows[..n][i] == v;
      }
    }
  }

  lemma {:induction false} ImageSize<T>(dict: seq<T>, slots: set<nat>)
    requires forall s :: s in slots ==> s < |dict|
    requires forall a, b :: 0 <= a < b < |dict| ==> dict[a] != dict[b]
    ensures |set s | s in slots :: dict[s]| == |slots|
    decreases |slots|
  {
    if slots != {} {
      var x :| x in slots;
      ImageSize(dict, slots - {x});
      assert (set s | s in slots :: dict[s]) == (set s | s in slots - {x} :: dict[s]) + {dict[x]};
      assert slots == (slots - {x}) + {x};
    }
  }

  /** The slots the filtered count-distinct counts are as many as the distinct raw values among the kept rows. */
  lemma FilteredCountIsDistinct<T>(raw: seq<T>, d: DictColumn<T>, keep: seq<bool>)
    requires d.dict == Distinct(raw) && Encodes(d.codes, d.dict, raw) && |d.dict| <= CODES
    requires |keep| == |raw|
    ensures |SlotsOf(d.codes, keep, |raw|)| == |Distinct(Kept(raw, keep))|
  {
    var slots := SlotsOf(d.codes, keep, |raw|);
    DistinctIsExact(raw);
    DistinctIsExact(Kept(raw, keep));
    RoundTrip(raw, d);
    ImageSize(d.dict, slots);
    SlotValues(raw, d.dict, d.codes, keep);
  }

  lemma SlotValues<T>(raw: seq<T>, dict: seq<T>, codes: seq<uint8>, keep: seq<bool>)
    requires |codes| == |raw| == |keep|
    requires forall i :: 0 <= i < |raw| ==> codes[i] < |dict| && dict[codes[i]] == raw[i]
    ensures (set s | s in SlotsOf(codes, keep, |raw|) :: dict[s]) == set v | v in Kept(raw, keep)
  {
    var slots := SlotsOf(codes, keep, |raw|);
    forall s | s in slots ensures dict[s] in Kept(raw, keep) {
      var i :| 0 <= i < |raw| && keep[i] && codes[i] == s;
      KeptMembers(raw, keep, dict[s]);
      assert keep[i] && raw[i] == dict[s];
    }
    forall v | v in Kept(raw, keep) ensures v in set s | s in slots :: dict[s] {
      KeptMembers(raw, keep, v);
      var i :| 0 <= i < |raw| && keep[i] && raw[i] == v;
      assert codes[i] in slots && dict[codes[i]] == v;
    }
  }

  // ----- the dictionary path as a whole

  /** The decisions of an equality filter over the raw rows. */
  function Equals<T(==)>(raw: seq<T>, v: T): seq<bool> {
    seq(|raw|, i requires 0 <= i < |raw| => raw[i] == v)
  }

  lemma MatchesAreEqual<T>(raw: seq<T>, d: DictColumn<T>, v: T)
    requires Encodes(d.codes, d.dict, raw) && |d.dict| <= CODES
    ensures v in d.dict ==> Matches(d.codes, IndexOf(d.dict, v) % CODES) == Equals(raw, v)
  {
    if v in d.dict {
      var code := IndexOf(d.dict, v) % CODES;
      forall i | 0 <= i < |raw| ensures Matches(d.codes, code)[i] == Equals(raw, v)[i] {
        Pushdown(raw, d, v, Some(code), i);
      }
    }
  }

  /** Build, look the value up, filter the codes: the bitmap is that of filtering the raw rows. */
  method FilterByValue<T(==)>(raw: seq<T>, maxCard: nat, v: T, avx2: bool, outBm: array<bv8>)
    returns (built: bool, found: bool, cnt: nat)
    requires maxCard <= CODES && ByteCount(|raw|) <= outBm.Length
    modifies outBm
    ensures built <==> |Distinct(raw)| <= maxCard
    ensures built ==> (found <==> v in raw)
    ensures built && found ==> outBm[..ByteCount(|raw|)] == Pack(Equals(raw, v)) && cnt == Ones(Equals(raw, v))
    ensures built && !found ==> cnt == 0 && forall i :: 0 <= i < |raw| ==> raw[i] != v
    ensures outBm[ByteCount(|raw|)..] == old(outBm[ByteCount(|raw|)..])
    ensures !(built && found) ==> outBm[..] == old(outBm[..])
  {
    hide Distinct, Encodes, Pack, Ones, Matches, Equals;
    built, found, cnt := false, false, 0;
    var d := TryBuild(raw, maxCard);
    if d == None {
      return;
    }
    built := true;
    DistinctIsExact(raw);
    var code := CodeFor(d.value, v);
    if code == None {
      return;
    }
    found := true;
    BuiltLength(raw, d.value);
    MatchesAreEqual(raw, d.value, v);
    if avx2 {
      cnt := FilterDictEqAvx2(d.value.codes, code.value, outBm);
    } else {
      cnt := FilterDictEqScalar(d.value.codes, code.value, outBm);
    }
  }

  lemma BuiltLength<T>(raw: seq<T>, d: DictColumn<T>)
    requires Encodes(d.codes, d.dict, raw)
    ensures |d.codes| == |raw|
  {
  }

  /** Build, then count distinct codes under a bitmap: the number of distinct raw values among the kept rows. */
  method CountDistinctKept<T(==)>(raw: seq<T>, maxCard: nat, keepBm: seq<bv8>) returns (k: Option<nat>)
    requires maxCard <= CODES && ByteCount(|raw|) <= |keepBm|
    ensures k.None? <==> |Distinct(raw)| > maxCard
    ensures k.Some? ==> k.value == |Distinct(Kept(raw, Bits(keepBm, |raw|)))|
  {
    hide Distinct, Encodes, Bits, Kept;
    var d := TryBuild(raw, maxCard);
    if d == None {
      return None;
    }
    BuiltLength(raw, d.value);
    RoundTrip(raw, d.value);
    FilteredCountIsDistinct(raw, d.value, Bits(keepBm, |raw|));
    var count := RunDictFiltered(d.value, keepBm, |raw|);
    k := Some(count);
  }
}
