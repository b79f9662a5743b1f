/**
 Rounding an integer to a 53-bit significand, ties to even (binary64, sections 3.6 and 4.3.1 of
 IEEE 754-2008), and which integers rounding merges with a neighbour.
 */
module Binary64 {
  import opened Machine

  /** Every integer up to this magnitude is a double. */
  const EXACT: int := 0x20_0000_0000_0000

  predicate InExactRange(x: int) { -EXACT <= x <= EXACT }

  /** The distance between neighbouring doubles at magnitude m. */
  function Unit(m: nat): (u: nat)
    ensures u >= 1
  {
    if m < EXACT then 1 else 2 * Unit(m / 2)
  }

  /** m is rounded up to the next multiple of its unit: it lies above the middle, or in the middle of an odd interval. */
  predicate RoundsUp(m: nat) {
    var u := Unit(m);
    2 * (m % u) > u || (2 * (m % u) == u && m / u % 2 == 1)
  }

  function Abs(x: int): nat { if x >= 0 then x else 0 - x }

  function RoundMagnitude(m: nat): nat {
    if RoundsUp(m) then m - m % Unit(m) + Unit(m) else m - m % Unit(m)
  }

  function Round(x: int): int {
    if x >= 0 then RoundMagnitude(x) else 0 - RoundMagnitude(0 - x)
  }

  function Pow2(k: nat): nat { if k == 0 then 1 else 2 * Pow2(k - 1) }

  /** The unit leaves a significand of 53 bits, its top bit set unless the magnitude is small. */
  lemma {:induction false} SignificandFits(m: nat, k: nat)
    requires m < EXACT * Pow2(k) && (k > 0 ==> m >= EXACT * Pow2(k - 1))
    ensures Unit(m) == Pow2(k)
  {
    if k > 0 {
      SignificandFits(m / 2, k - 1);
    }
  }

  /** x is a multiple of the unit at its magnitude, that is, a double. */
  predicate Survives(x: int) { Abs(x) % Unit(Abs(x)) == 0 }

  lemma SurvivorsAreFixed(x: int)
    ensures Round(x) == x <==> Survives(x)
  {
  }

  // ----- division

  lemma DivisionIsUnique(m: nat, u: nat, q: nat, r: nat)
    requires u >= 1 && m == u * q + r && r < u
    ensures m / u == q && m % u == r
  {
    var d := m / u - q;
    MultipleIsFar(u, d);
    assert m == u * (m / u) + m % u;
    assert u * d == r - m % u;
  }

  lemma MultipleIsFar(u: nat, d: int)
    requires u >= 1
    ensures d >= 1 ==> u * d >= u
    ensures d <= -1 ==> u * d <= -(u as int)
  {
  }

  /** r is the q-th multiple of u, no multiple is nearer to m, and q is even if another one is as near. */
  ghost predicate IsNearest(m: nat, u: nat, q: int, r: int) {
    && r == u * q && 2 * (r - m) <= u && 2 * (m - r) <= u
    && (2 * (r - m) == u || 2 * (m - r) == u ==> q % 2 == 0)
  }

  /** Rounding goes to a nearest multiple of the unit, and to the even one when two are equally near. */
  lemma RoundIsNearest(m: nat)
    ensures IsNearest(m, Unit(m), m / Unit(m) + if RoundsUp(m) then 1 else 0, RoundMagnitude(m))
  {
    hide Unit, IsNearest;
    Divided(m, Unit(m));
    NearestMultiple(m, Unit(m), m / Unit(m), m % Unit(m));
  }

  lemma Divided(m: nat, u: nat)
    requires u >= 1
    ensures m == u * (m / u) + m % u && 0 <= m % u < u
  {
  }

  lemma NearestMultiple(m: nat, u: nat, q: int, rest: int)
    requires m == u * q + rest && 0 <= rest < u
    ensures 2 * rest > u || (2 * rest == u && q % 2 == 1) ==> IsNearest(m, u, q + 1, m - rest + u)
    ensures !(2 * rest > u || (2 * rest == u && q % 2 == 1)) ==> IsNearest(m, u, q, m - rest)
  {
    assert u * (q + 1) == u * q + u;
  }

  lemma NextRemainder(m: nat, u: nat)
    requires u >= 1
    ensures m % u + 1 < u ==> (m + 1) % u == m % u + 1 && (m + 1) / u == m / u
    ensures m % u + 1 == u ==> (m + 1) % u == 0
  {
    if m % u + 1 < u {
      DivisionIsUnique(m + 1, u, m / u, m % u + 1);
    } else {
      DivisionIsUnique(m + 1, u, m / u + 1, 0);
    }
  }

  lemma DoubledRemainder(m: nat, u: nat, b: nat)
    requires u >= 1 && b < 2
    ensures (2 * m + b) % (2 * u) == 2 * (m % u) + b
  {
    assert 2 * m + b == (2 * u) * (m / u) + (2 * (m % u) + b);
    DivisionIsUnique(2 * m + b, 2 * u, m / u, 2 * (m % u) + b);
  }

  // ----- rounding is monotone

  /** The unit only grows where a whole interval ends. */
  lemma {:induction false} UnitStep(m: nat)
    ensures Unit(m + 1) == Unit(m) || (m % Unit(m) + 1 == Unit(m) && (m + 1) % Unit(m + 1) == 0)
  {
    if m + 1 > EXACT && m % 2 == 1 {
      var h := m / 2;
      UnitStep(h);
      assert m == 2 * h + 1 && (m + 1) / 2 == h + 1;
      DoubledRemainder(h, Unit(h), 1);
      DoubledRemainder(h + 1, Unit(h + 1), 0);
    } else if m + 1 > EXACT {
      assert (m + 1) / 2 == m / 2;
    }
  }

  lemma RoundsNext(m: nat)
    ensures RoundMagnitude(m) <= RoundMagnitude(m + 1)
  {
    UnitStep(m);
    NextRemainder(m, Unit(m));
  }

  lemma {:induction false} MagnitudesAreMonotone(a: nat, b: nat)
    requires a <= b
    ensures RoundMagnitude(a) <= RoundMagnitude(b)
    decreases b - a
  {
    if a < b {
      RoundsNext(a);
      MagnitudesAreMonotone(a + 1, b);
    }
  }

  lemma RoundIsMonotone(a: int, b: int)
    requires a <= b
    ensures Round(a) <= Round(b)
  {
    if a >= 0 {
      MagnitudesAreMonotone(a, b);
    } else if b < 0 {
      MagnitudesAreMonotone(-b, -a);
    }
  }

  // ----- which integers keep their distance

  lemma NarrowUnits(m: nat)
    ensures m < EXACT ==> RoundMagnitude(m) == m
    ensures EXACT <= m < 2 * EXACT ==> Unit(m) == 2
    ensures EXACT <= m < 2 * EXACT ==> RoundMagnitude(m) == if m % 4 == 1 then m - 1 else if m % 4 == 3 then m + 1 else m
    ensures m == 2 * EXACT ==> RoundMagnitude(m) == m
  {
    if m < EXACT {
      assert Unit(m) == 1;
    } else if m < 2 * EXACT {
      assert Unit(m) == 2;
    } else if m == 2 * EXACT {
      assert Unit(m) == 4;
    }
    hide Unit;
  }

  lemma SmallIntegersAreExact(x: int)
    requires InExactRange(x)
    ensures Round(x) == x
  {
    hide RoundMagnitude;
    NarrowUnits(Abs(x));
  }

  lemma {:induction false} WideUnits(m: nat)
    requires m >= 2 * EXACT
    ensures Unit(m) >= 4
  {
    if m >= 4 * EXACT {
      WideUnits(m / 2);
    }
  }

  /** No other integer rounds to what n rounds to. */
  predicate Separated(n: int) {
    -EXACT < n < EXACT || (-2 * EXACT < n < 2 * EXACT && n % 4 == 2)
  }

  lemma SeparatedMagnitude(m: nat)
    requires Separated(m)
    ensures RoundMagnitude(m) == m < RoundMagnitude(m + 1)
    ensures m > 0 ==> RoundMagnitude(m - 1) < m
  {
    hide RoundMagnitude, Unit;
    NarrowUnits(m);
    NarrowUnits(m + 1);
    if m > 0 {
      NarrowUnits(m - 1);
    }
  }

  lemma SeparatedFromNext(n: int)
    requires Separated(n)
    ensures Round(n) == n && Round(n - 1) < n < Round(n + 1)
  {
    hide RoundMagnitude;
    SeparatedMagnitude(Abs(n));
    if n == 0 {
      NarrowUnits(1);
    }
  }

  /** Rounding keeps every other integer on its side of a separated one. */
  lemma SeparatedKeepsOrder(a: int, n: int)
    requires Separated(n)
    ensures a < n <==> Round(a) < Round(n)
    ensures a > n <==> Round(a) > Round(n)
  {
    SeparatedFromNext(n);
    if a < n {
      RoundIsMonotone(a, n - 1);
    } else if a > n {
      RoundIsMonotone(n + 1, a);
    }
  }

  /** A neighbour that rounds to the same double, within int64. */
  function MergedMagnitude(m: nat): int {
    if m < 0x7FFF_FFFF_FFFF_FFFF && (m % Unit(m) == 0 || RoundsUp(m)) then m + 1 else m - 1
  }

  function MergedWith(n: int): int {
    if n >= 0 then MergedMagnitude(n) else 0 - MergedMagnitude(0 - n)
  }

  lemma MagnitudeMerges(m: nat)
    requires EXACT <= m <= 0x8000_0000_0000_0000 && !(m < 2 * EXACT && m % 4 == 2)
    ensures MergedMagnitude(m) > 0 && RoundMagnitude(MergedMagnitude(m)) == RoundMagnitude(m)
  {
    hide RoundMagnitude;
    if m < 2 * EXACT {
      NarrowMerges(m);
    } else if m >= 0x7FFF_FFFF_FFFF_FFFF {
      LargestMagnitudes();
    } else {
      WideMerges(m);
    }
  }

  lemma NarrowMerges(m: nat)
    requires EXACT <= m < 2 * EXACT && m % 4 != 2
    ensures RoundMagnitude(MergedMagnitude(m)) == RoundMagnitude(m)
  {
    NarrowUnits(m);
    assert MergedMagnitude(m) == if m % 4 == 1 then m - 1 else m + 1;
    NarrowUnits(MergedMagnitude(m));
  }

  lemma WideMerges(m: nat)
    requires 2 * EXACT <= m < 0x7FFF_FFFF_FFFF_FFFF
    ensures RoundMagnitude(MergedMagnitude(m)) == RoundMagnitude(m)
  {
    WideUnits(m);
    UnitStep(m);
    NextRemainder(m, Unit(m));
    UnitStep(m - 1);
    NextRemainder(m - 1, Unit(m - 1));
  }

  lemma LargestMagnitudes()
    ensures RoundMagnitude(0x7FFF_FFFF_FFFF_FFFE) == 0x8000_0000_0000_0000
    ensures RoundMagnitude(0x7FFF_FFFF_FFFF_FFFF) == 0x8000_0000_0000_0000
    ensures RoundMagnitude(0x8000_0000_0000_0000) == 0x8000_0000_0000_0000
  {
    assert Pow2(5) == 32 && Pow2(9) == 512 && Pow2(10) == 1024 && Pow2(11) == 2048;
    SignificandFits(0x7FFF_FFFF_FFFF_FFFE, 10);
    SignificandFits(0x7FFF_FFFF_FFFF_FFFF, 10);
    SignificandFits(0x8000_0000_0000_0000, 11);
    hide Unit;
  }

  lemma RoundOfLeast()
    ensures Round(-0x8000_0000_0000_0000) == -0x8000_0000_0000_0000
  {
    hide RoundMagnitude;
    LargestMagnitudes();
  }

  /** Every other integer shares its double with a neighbour. */
  lemma OthersMerge(n: int64)
    requires !Separated(n)
    ensures MergedWith(n) != n && Round(MergedWith(n)) == Round(n)
    ensures MergedWith(n) in {n - 1, n + 1} && -0x8000_0000_0000_0000 <= MergedWith(n) < 0x8000_0000_0000_0000
  {
    MagnitudeMerges(Abs(n));
  }
}
