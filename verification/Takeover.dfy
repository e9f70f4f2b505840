/** Inverse-square takeover difficulty, kinetic-core/src/physics.rs. */
module Takeover {
  import opened Numbers

  /** `a * b` on u128 as an optimised build computes it. */
  function MulU128(a: nat, b: nat): nat { Mul(a, b) % U128_LIMIT }

  /** `takeover_iterations`, with every machine step explicit. */
  function TakeoverIterations(target: u64, base: u64, idle: u64): u64 {
    var idlePlus := SaturatingAdd(idle, 1);
    var multiplier :=
      if target > idlePlus then IdleRatio(MulU128(target, target), MulU128(idlePlus, idlePlus)) else 1;
    var difficulty := MulU128(base, Max(1, multiplier));
    if difficulty > U64_LIMIT - 1 then U64_LIMIT - 1 else difficulty
  }

  /** u128 division; a zero divisor, which cannot arise below, stands for the abort. */
  function IdleRatio(a: nat, b: nat): nat { if b == 0 then 0 else Div(a, b) }

  /** The documented curve: base times the floor of (target / (idle+1))^2, at least base, capped at 64 bits. */
  function Curve(target: nat, base: nat, idle: u64): nat {
    Min(U64_LIMIT - 1, Mul(base, Multiplier(target, SaturatingAdd(idle, 1))))
  }

  function Multiplier(target: nat, idlePlus: nat): (m: nat)
    requires idlePlus >= 1
    ensures m >= 1
  {
    SquarePositive(idlePlus);
    Max(1, Div(Mul(target, target), Mul(idlePlus, idlePlus)))
  }

  lemma SquarePositive(a: nat)
    requires a >= 1
    ensures Mul(a, a) >= 1
  {
    MulMonotone(a, 1, a);
  }

  lemma SquareMonotone(a: nat, b: nat)
    requires a <= b
    ensures Mul(a, a) <= Mul(b, b)
  {
    MulMonotone(a, a, b);
    MulMonotone(b, a, b);
    assert a * b == b * a;
  }

  lemma MulBound(a: nat, b: nat, x: nat, y: nat)
    requires a <= x && b <= y
    ensures Mul(a, b) <= x * y
  {
    MulMonotone(a, b, y);
    MulMonotone(y, a, x);
    assert a * y == y * a && x * y == y * x;
  }

  lemma SquareFitsU128(a: u64)
    ensures Mul(a, a) < U128_LIMIT
  {
    MulBound(a, a, U64_LIMIT - 1, U64_LIMIT - 1);
  }

  lemma DivMonotone(a: nat, b: nat, c: nat)
    requires 0 < b <= c
    ensures Div(a, c) <= Div(a, b)
  {
    var q := Div(a, c);
    DivModLaw(a, c);
    MulMonotone(q, b, c);
    assert q * b <= a;
    DivModLaw(a, b);
    var r := Div(a, b);
    assert b * (r + 1) == b * r + b;
    if r < q {
      MulMonotone(b, r + 1, q);
      assert false;
    }
  }

  /** Past the target the ratio is at most one, so both branches of the code agree with the curve. */
  lemma PastTarget(target: nat, idlePlus: nat)
    requires 1 <= idlePlus && target <= idlePlus
    ensures Multiplier(target, idlePlus) == 1
  {
    SquareMonotone(target, idlePlus);
    SquarePositive(idlePlus);
    RatioOfSmaller(Mul(target, target), Mul(idlePlus, idlePlus));
  }

  lemma RatioOfSmaller(a: nat, b: nat)
    requires 1 <= b && a <= b
    ensures Div(a, b) <= 1
  {
    DivBelow(a, b, 2);
  }

  /** The multiplier is the floor of the squared ratio, and at least one. */
  lemma MultiplierIsFloor(target: nat, idlePlus: nat)
    requires idlePlus >= 1
    ensures var m, t, s := Multiplier(target, idlePlus), target * target, idlePlus * idlePlus;
            (m == 1 && t < 2 * s) || (m * s <= t < (m + 1) * s)
  {
    SquarePositive(idlePlus);
    var t, s := Mul(target, target), Mul(idlePlus, idlePlus);
    var d := Div(t, s);
    DivModLaw(t, s);
    assert (d + 1) * s == d * s + s;
  }

  lemma MultiplierBound(target: nat, idlePlus: nat)
    requires idlePlus >= 1 && target <= U32_LIMIT
    ensures Multiplier(target, idlePlus) <= U64_LIMIT
  {
    SquarePositive(idlePlus);
    MulBound(target, target, U32_LIMIT, U32_LIMIT);
    DivMonotone(Mul(target, target), 1, Mul(idlePlus, idlePlus));
    assert Div(Mul(target, target), 1) == Mul(target, target);
  }

  /** The product of base and multiplier before the cap. */
  function Product(target: u64, base: u64, idle: u64): nat { Mul(base, Multiplier(target, SaturatingAdd(idle, 1))) }

  /** The final product stays within u128; the squares always do. */
  predicate ProductFits(target: u64, base: u64, idle: u64) { Product(target, base, idle) < U128_LIMIT }

  /** The squares never overflow, so the code caps the wrapped product. */
  lemma CapsWrappedProduct(target: u64, base: u64, idle: u64)
    ensures TakeoverIterations(target, base, idle) == Min(Product(target, base, idle) % U128_LIMIT, U64_LIMIT - 1)
  {
    hide Mul;
    hide Div;
    var idlePlus := SaturatingAdd(idle, 1);
    SquareFitsU128(target);
    SquareFitsU128(idlePlus);
    SquarePositive(idlePlus);
    if target <= idlePlus {
      PastTarget(target, idlePlus);
    }
  }

  /** The code computes the curve exactly when the product fits in 128 bits, or wraps to something the cap hides. */
  lemma ComputesCurveExactlyWhen(target: u64, base: u64, idle: u64)
    ensures TakeoverIterations(target, base, idle) == Curve(target, base, idle) <==>
            ProductFits(target, base, idle) || Product(target, base, idle) % U128_LIMIT >= U64_LIMIT - 1
  {
    hide TakeoverIterations;
    hide Multiplier;
    hide Mul;
    CapsWrappedProduct(target, base, idle);
    CurveIsCappedProduct(target, base, idle);
  }

  lemma CurveIsCappedProduct(target: u64, base: u64, idle: u64)
    ensures Curve(target, base, idle) == Min(U64_LIMIT - 1, Product(target, base, idle))
  {
  }

  lemma FitsUpTo(target: u64, base: u64, idle: u64)
    requires target <= U32_LIMIT
    ensures ProductFits(target, base, idle)
  {
    var m := Multiplier(target, SaturatingAdd(idle, 1));
    MultiplierBound(target, SaturatingAdd(idle, 1));
    MulBound(base, m, U64_LIMIT - 1, U64_LIMIT);
  }

  /** The code is overflow-free on every input exactly for targets up to 2^32. */
  lemma OverflowFreeExactlyUpTo(target: u64)
    ensures (forall base: u64, idle: u64 :: ProductFits(target, base, idle)) <==> target <= U32_LIMIT
  {
    hide Mul;
    hide Div;
    if target <= U32_LIMIT {
      forall base: u64, idle: u64
        ensures ProductFits(target, base, idle)
      {
        FitsUpTo(target, base, idle);
      }
    } else {
      LargeTargetOverflows(target);
    }
  }

  lemma LargeTargetOverflows(target: u64)
    requires target > U32_LIMIT
    ensures !ProductFits(target, U64_LIMIT - 1, 0)
  {
    SquareMonotone(U32_LIMIT + 1, target);
    var m := Mul(target, target);
    assert m >= 0x1_0000_0002_0000_0001;
    assert Multiplier(target, 1) == m by { assert Mul(1, 1) == 1 && Div(m, 1) == m; }
    MulMonotone(U64_LIMIT - 1, 0x1_0000_0002_0000_0001, m);
  }

  /** With such a target the wrapped product can even be zero: no effort at all. */
  lemma WrappedDifficulty()
    ensures TakeoverIterations(0x2_0000_0000, 0x4000_0000_0000_0000, 0) == 0
  {
    assert Mul(0x2_0000_0000, 0x2_0000_0000) == 0x4_0000_0000_0000_0000;
    assert Mul(1, 1) == 1;
    assert Div(0x4_0000_0000_0000_0000, 1) == 0x4_0000_0000_0000_0000;
    assert Mul(0x4000_0000_0000_0000, 0x4_0000_0000_0000_0000) == U128_LIMIT;
  }

  lemma ProductFallsWithIdle(target: u64, base: u64, idle: u64, idle': u64)
    requires idle <= idle'
    ensures Product(target, base, idle') <= Product(target, base, idle)
  {
    var i, j := SaturatingAdd(idle, 1), SaturatingAdd(idle', 1);
    SquarePositive(i);
    SquarePositive(j);
    SquareMonotone(i, j);
    DivMonotone(Mul(target, target), Mul(i, i), Mul(j, j));
    MulMonotone(base, Multiplier(target, j), Multiplier(target, i));
  }

  lemma ProductRisesWithBase(target: u64, base: u64, base': u64, idle: u64)
    requires base <= base'
    ensures Product(target, base, idle) <= Product(target, base', idle)
  {
    var m := Multiplier(target, SaturatingAdd(idle, 1));
    MulMonotone(m, base, base');
    assert Mul(base, m) == m * base && Mul(base', m) == m * base';
  }

  lemma CurveAboveBase(target: nat, base: u64, idle: u64)
    ensures base <= Curve(target, base, idle)
  {
    MulMonotone(base, 1, Multiplier(target, SaturatingAdd(idle, 1)));
  }

  lemma CurveDecayedExactlyWhen(target: nat, base: u64, idle: u64)
    ensures var i := SaturatingAdd(idle, 1);
            Curve(target, base, idle) == base <==>
              base == 0 || base == U64_LIMIT - 1 || 2 * Mul(i, i) > Mul(target, target)
  {
    hide Mul;
    var i := SaturatingAdd(idle, 1);
    SquarePositive(i);
    var t, s := Mul(target, target), Mul(i, i);
    RatioBelowTwo(t, s);
    MulByMultiplier(base, Multiplier(target, i));
  }

  lemma RatioBelowTwo(t: nat, s: nat)
    requires s >= 1
    ensures Div(t, s) < 2 <==> t < 2 * s
  {
    DivModLaw(t, s);
    var q := Div(t, s);
    if t < 2 * s {
      DivBelow(t, s, 2);
    } else if q < 2 {
      MulMonotone(s, q, 1);
      assert false;
    }
  }

  lemma MulByMultiplier(base: nat, m: nat)
    requires m >= 1
    ensures m == 1 ==> Mul(base, m) == base
    ensures m >= 2 ==> Mul(base, m) >= 2 * base
    ensures base == 0 ==> Mul(base, m) == 0
    ensures Mul(base, m) >= base
  {
    MulMonotone(base, 1, m);
    if m >= 2 {
      MulMonotone(base, 2, m);
    }
  }

  // ----- What the code promises wherever the product fits, which for targets up to 2^32 is everywhere -----

  /** The effort never rises as the name stays idle longer. */
  lemma NonincreasingInIdle(target: u64, base: u64, idle: u64, idle': u64)
    requires ProductFits(target, base, idle) && idle <= idle'
    ensures ProductFits(target, base, idle')
    ensures TakeoverIterations(target, base, idle') <= TakeoverIterations(target, base, idle)
  {
    hide TakeoverIterations;
    hide Curve;
    hide Multiplier;
    ProductFallsWithIdle(target, base, idle, idle');
    ComputesCurveExactlyWhen(target, base, idle);
    ComputesCurveExactlyWhen(target, base, idle');
    CurveIsCappedProduct(target, base, idle);
    CurveIsCappedProduct(target, base, idle');
  }

  /** The effort never falls as the base rises. */
  lemma NondecreasingInBase(target: u64, base: u64, base': u64, idle: u64)
    requires ProductFits(target, base', idle) && base <= base'
    ensures ProductFits(target, base, idle)
    ensures TakeoverIterations(target, base, idle) <= TakeoverIterations(target, base', idle)
  {
    hide TakeoverIterations;
    hide Curve;
    hide Multiplier;
    ProductRisesWithBase(target, base, base', idle);
    ComputesCurveExactlyWhen(target, base, idle);
    ComputesCurveExactlyWhen(target, base', idle);
    CurveIsCappedProduct(target, base, idle);
    CurveIsCappedProduct(target, base', idle);
  }

  /** The effort is never below the base. */
  lemma NeverBelowBase(target: u64, base: u64, idle: u64)
    requires ProductFits(target, base, idle)
    ensures base <= TakeoverIterations(target, base, idle)
  {
    hide TakeoverIterations;
    hide Curve;
    hide ProductFits;
    ComputesCurveExactlyWhen(target, base, idle);
    CurveAboveBase(target, base, idle);
  }

  /** The effort has decayed to the base exactly when 2*(idle+1)^2 exceeds target^2 (or the base is degenerate). */
  lemma DecayedExactlyWhen(target: u64, base: u64, idle: u64)
    requires ProductFits(target, base, idle)
    ensures var i := SaturatingAdd(idle, 1);
            TakeoverIterations(target, base, idle) == base <==>
              base == 0 || base == U64_LIMIT - 1 || 2 * Mul(i, i) > Mul(target, target)
  {
    hide TakeoverIterations;
    hide Curve;
    hide Mul;
    hide ProductFits;
    ComputesCurveExactlyWhen(target, base, idle);
    CurveDecayedExactlyWhen(target, base, idle);
  }
}
