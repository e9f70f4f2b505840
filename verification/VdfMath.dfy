/** The arithmetic behind the blockwise Wesolowski prover: weighted digit sums, bit slices and long division. */
module VdfMath {
  import opened Numbers

  /** `BigUint::modpow` */
  function ModPow(b: nat, e: nat, m: nat): (r: nat)
    requires m > 0
    ensures r < m
  {
    Pow(b, e) % m
  }

  lemma ModPowZero(b: nat, m: nat)
    requires m > 1
    ensures ModPow(b, 0, m) == 1
  {
  }

  lemma ModPowAdd(x: nat, e: nat, f: nat, n: nat)
    requires n > 0
    ensures (ModPow(x, e, n) * ModPow(x, f, n)) % n == ModPow(x, e + f, n)
  {
    PowModAdd(x, e, f, n);
  }

  lemma ModPowMul(x: nat, e: nat, f: nat, n: nat)
    requires n > 0
    ensures e * f >= 0 && ModPow(ModPow(x, e, n), f, n) == ModPow(x, e * f, n)
  {
    PowModMul(x, e, f, n);
  }

  function ShiftLeft(v: nat, j: nat): nat { Mul(v, Pow2(j)) }

  function ShiftRight(v: nat, j: nat): nat { Div(v, Pow2(j)) }

  /** `BigUint::bit` */
  predicate Bit(v: nat, j: nat) { ShiftRight(v, j) % 2 == 1 }

  /** 2^(i*B), the place value of digit i in base 2^B. */
  function Place(i: nat, B: nat): (r: nat)
    ensures r >= 1
  {
    if i == 0 then 1 else MulPositive(Place(i - 1, B), Pow2(B)); Place(i - 1, B) * Pow2(B)
  }

  lemma MulPositive(a: nat, b: nat)
    requires a >= 1 && b >= 1
    ensures a * b >= 1
  {
  }

  lemma {:induction false} PlaceIsPow2(i: nat, B: nat)
    ensures i * B >= 0 && Place(i, B) == Pow2(i * B)
  {
    if i == 0 {
      assert 0 * B == 0;
    } else {
      PlaceIsPow2(i - 1, B);
      assert i * B == (i - 1) * B + B;
      Pow2Add((i - 1) * B, B);
    }
  }

  /** The number whose base-2^B digits, least significant first, are digits[..m]. */
  function Weighted(digits: seq<nat>, B: nat, m: nat): nat
    requires m <= |digits|
  {
    if m == 0 then 0 else Weighted(digits, B, m - 1) + Place(m - 1, B) * digits[m - 1]
  }

  /** The same sum with every digit shifted right by j bits. */
  function Shifted(digits: seq<nat>, B: nat, j: nat, m: nat): nat
    requires m <= |digits|
  {
    if m == 0 then 0 else Shifted(digits, B, j, m - 1) + Place(m - 1, B) * ShiftRight(digits[m - 1], j)
  }

  /** The same sum with every digit replaced by its bit j. */
  function BitSlice(digits: seq<nat>, B: nat, j: nat, m: nat): nat
    requires m <= |digits|
  {
    if m == 0 then 0
    else BitSlice(digits, B, j, m - 1) + (if Bit(digits[m - 1], j) then Place(m - 1, B) else 0)
  }

  lemma HalfSplit(w: nat, h: nat)
    ensures w * h == 2 * (w * (h / 2)) + (if h % 2 == 1 then w else 0)
  {
    assert h == 2 * (h / 2) + h % 2;
  }

  /** Horner over bits: shifting by one bit less doubles the sum and adds that bit slice. */
  lemma {:induction false} ShiftStep(digits: seq<nat>, B: nat, j: nat, m: nat)
    requires m <= |digits|
    ensures Shifted(digits, B, j, m) == 2 * Shifted(digits, B, j + 1, m) + BitSlice(digits, B, j, m)
  {
    if m == 0 {
    } else {
      ShiftStep(digits, B, j, m - 1);
      DivDiv(digits[m - 1], Pow2(j), 2);
      HalfSplit(Place(m - 1, B), ShiftRight(digits[m - 1], j));
    }
  }

  /** Nothing is left of digits below 2^B once B bits are shifted out. */
  lemma {:induction false} ShiftedOut(digits: seq<nat>, B: nat, m: nat)
    requires m <= |digits|
    requires forall i :: 0 <= i < m ==> digits[i] < Pow2(B)
    ensures Shifted(digits, B, B, m) == 0
  {
    if m == 0 {
    } else {
      ShiftedOut(digits, B, m - 1);
      DivModUnique(digits[m - 1], Pow2(B), 0, digits[m - 1]);
    }
  }

  lemma {:induction false} ShiftedByZero(digits: seq<nat>, B: nat, m: nat)
    requires m <= |digits|
    ensures Shifted(digits, B, 0, m) == Weighted(digits, B, m)
  {
    if m == 0 {
    } else {
      ShiftedByZero(digits, B, m - 1);
      assert digits[m - 1] / 1 == digits[m - 1];
    }
  }

  /** The number whose base-2^B digits, most significant first, are `digits`. */
  function Horner(digits: seq<nat>, B: nat): nat {
    if |digits| == 0 then 0
    else Pow2(B) * Horner(digits[..|digits| - 1], B) + digits[|digits| - 1]
  }

  function Reverse(s: seq<nat>): (r: seq<nat>)
    ensures |r| == |s|
    ensures forall i :: 0 <= i < |s| ==> r[i] == s[|s| - 1 - i]
  {
    if |s| == 0 then [] else [s[|s| - 1]] + Reverse(s[..|s| - 1])
  }

  lemma Regroup(p: nat, s: nat, w: nat, t: nat)
    ensures p * s + w * p * t == p * (s + w * t)
  {
  }

  lemma {:induction false} WeightedCons(d: nat, rest: seq<nat>, B: nat, m: nat)
    requires m <= |rest|
    ensures Weighted([d] + rest, B, m + 1) == d + Pow2(B) * Weighted(rest, B, m)
  {
    var all := [d] + rest;
    if m == 0 {
      assert Weighted(all, B, 1) == Weighted(all, B, 0) + Place(0, B) * d;
    } else {
      WeightedCons(d, rest, B, m - 1);
      assert all[m] == rest[m - 1];
      Regroup(Pow2(B), Weighted(rest, B, m - 1), Place(m - 1, B), rest[m - 1]);
    }
  }

  /** Reading digits back to front turns the Horner value into the weighted sum. */
  lemma {:induction false} ReverseWeighted(s: seq<nat>, B: nat)
    ensures Weighted(Reverse(s), B, |s|) == Horner(s, B)
  {
    if |s| == 0 {
    } else {
      var front := s[..|s| - 1];
      ReverseWeighted(front, B);
      WeightedCons(s[|s| - 1], Reverse(front), B, |front|);
    }
  }

  lemma ScaleDivision(v: nat, r: nat, l: nat, p: nat, q: nat, s: nat)
    requires r * p == q * l + s
    ensures (p * v + q) * l + s == (v * l + r) * p
  {
    assert (p * v + q) * l == p * v * l + q * l;
    assert (v * l + r) * p == v * l * p + r * p;
    assert p * v * l == v * l * p;
  }

  lemma MulStrict(p: nat, r: nat, l: nat)
    requires p >= 1 && r < l
    ensures r * p < p * l
  {
    MulMonotone(p, r + 1, l);
    assert p * (r + 1) == p * r + p;
    assert p * r == r * p;
  }

  /** One long-division step: bringing down `shift` more bits of a power of two. */
  lemma DivisionStep(v: nat, r: nat, l: nat, bits: nat, shift: nat)
    requires l > 0 && r < l && v * l + r == Pow2(bits)
    ensures Div(ShiftLeft(r, shift), l) < Pow2(shift)
    ensures (Pow2(shift) * v + Div(ShiftLeft(r, shift), l)) * l + ShiftLeft(r, shift) % l == Pow2(bits + shift)
  {
    var p := Pow2(shift);
    var dividend := ShiftLeft(r, shift);
    DivModLaw(dividend, l);
    ScaleDivision(v, r, l, p, dividend / l, dividend % l);
    Pow2Add(bits, shift);
    MulStrict(p, r, l);
    DivBelow(dividend, l, p);
  }

  /** The verifier's equation: pi^l * x^r = x^(q*l + r). */
  lemma WesolowskiEquation(x: nat, q: nat, l: nat, r: nat, n: nat)
    requires n > 0
    ensures q * l + r >= 0
    ensures (ModPow(ModPow(x, q, n), l, n) * ModPow(x, r, n)) % n == ModPow(x, q * l + r, n)
  {
    ModPowMul(x, q, l, n);
    ModPowAdd(x, q * l, r, n);
  }
}
