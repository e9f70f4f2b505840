/** Powers, residues and the few laws of division that the other modules lean on. */
module Numbers {

  const U32_LIMIT: nat := 0x1_0000_0000
  const U64_LIMIT: nat := 0x1_0000_0000_0000_0000
  const U128_LIMIT: nat := 0x1_0000_0000_0000_0000_0000_0000_0000_0000

  /** An unsigned 64-bit machine integer. */
  type u64 = x: int | 0 <= x < 0x1_0000_0000_0000_0000

  /** `a + b` on u64 as an optimised build computes it: silently modulo 2^64. */
  function WrapAdd(a: u64, b: u64): (r: u64)
    ensures a + b < U64_LIMIT ==> r == a + b
    ensures a + b >= U64_LIMIT ==> r == a + b - U64_LIMIT
  {
    if a + b < U64_LIMIT then a + b else a + b - U64_LIMIT
  }

  /** A running total kept in a u64 is the true total modulo 2^64. */
  lemma WrapAddTracksSum(total: u64, a: u64, sum: nat)
    requires total == sum % U64_LIMIT
    ensures WrapAdd(total, a) == (sum + a) % U64_LIMIT
  {
    var q := sum / U64_LIMIT;
    if total + a < U64_LIMIT {
      DivModUnique(sum + a, U64_LIMIT, q, total + a);
    } else {
      DivModUnique(sum + a, U64_LIMIT, q + 1, total + a - U64_LIMIT);
    }
  }

  function SaturatingAdd(a: u64, b: u64): (r: u64)
    ensures r == Min(a + b, U64_LIMIT - 1)
  {
    if a + b < U64_LIMIT then a + b else U64_LIMIT - 1
  }

  function SaturatingSub(a: u64, b: u64): (r: u64) {
    if a < b then 0 else a - b
  }

  function Min(a: int, b: int): int { if a <= b then a else b }

  function Max(a: int, b: int): int { if a <= b then b else a }

  function Pow(b: nat, e: nat): nat
    decreases e
  {
    if e == 0 then 1 else b * Pow(b, e - 1)
  }

  function Pow2(e: nat): (r: nat)
    ensures r >= 1
  {
    if e == 0 then 1 else 2 * Pow2(e - 1)
  }

  /** Division is the only way to write `a` as `q * n + r` with a proper remainder. */
  lemma DivModUnique(a: int, n: int, q: int, r: int)
    requires n > 0 && 0 <= r < n && a == q * n + r
    ensures a / n == q && a % n == r
  {
    var d := a / n - q;
    assert a == (a / n) * n + a % n;
    assert d * n == r - a % n by { assert d * n == (a / n) * n - q * n; }
    assert d >= 1 ==> d * n >= n;
    assert d <= -1 ==> d * n <= -n;
  }

  lemma DivModLaw(a: int, n: int)
    requires n > 0
    ensures a == (a / n) * n + a % n && 0 <= a % n < n
  {
  }

  lemma DivNonnegative(a: int, n: int)
    requires a >= 0 && n > 0
    ensures a / n >= 0
  {
    var q := a / n;
    DivModLaw(a, n);
    assert q <= -1 ==> q * n <= -n;
  }

  /** Division of naturals, known to be a natural. */
  function Div(a: nat, n: nat): nat
    requires n > 0
  {
    DivNonnegative(a, n);
    a / n
  }

  function Mul(a: nat, b: nat): nat { MulMonotone(a, 0, b); a * b }

  lemma ModAddMultiple(r: int, k: int, n: int)
    requires n > 0
    ensures (k * n + r) % n == r % n
  {
    DivModLaw(r, n);
    assert k * n + r == (k + r / n) * n + r % n;
    DivModUnique(k * n + r, n, k + r / n, r % n);
  }

  /** A factor may be replaced by its residue. */
  lemma ModMulLeft(a: int, b: int, n: int)
    requires n > 0
    ensures ((a % n) * b) % n == (a * b) % n
  {
    DivModLaw(a, n);
    var q, r := a / n, a % n;
    assert a * b == (q * b) * n + r * b by {
      assert a * b == (q * n + r) * b;
      assert (q * n + r) * b == q * n * b + r * b;
      assert q * n * b == (q * b) * n;
    }
    ModAddMultiple(r * b, q * b, n);
  }

  lemma ModMul(a: int, b: int, n: int)
    requires n > 0
    ensures ((a % n) * (b % n)) % n == (a * b) % n
  {
    ModMulLeft(a, b % n, n);
    assert a * (b % n) == (b % n) * a;
    ModMulLeft(b, a, n);
    assert b * a == a * b;
  }

  lemma MulAssociative(a: nat, b: nat, c: nat)
    ensures a * (b * c) == (a * b) * c
  {
  }

  lemma {:induction false} PowAdd(b: nat, e: nat, f: nat)
    ensures Pow(b, e + f) == Pow(b, e) * Pow(b, f)
    decreases e
  {
    if e == 0 {
    } else {
      PowAdd(b, e - 1, f);
      assert Pow(b, e + f) == b * Pow(b, e - 1 + f);
      MulAssociative(b, Pow(b, e - 1), Pow(b, f));
    }
  }

  lemma {:induction false} PowMul(b: nat, e: nat, f: nat)
    ensures e * f >= 0 && Pow(Pow(b, e), f) == Pow(b, e * f)
    decreases f
  {
    if f == 0 {
      assert e * f == 0;
    } else {
      PowMul(b, e, f - 1);
      assert e * f == e + e * (f - 1);
      PowAdd(b, e, e * (f - 1));
    }
  }

  /** Raising a residue to a power gives the residue of the power. */
  lemma {:induction false} PowModBase(b: nat, e: nat, n: nat)
    requires n > 0
    ensures Pow(b % n, e) % n == Pow(b, e) % n
    decreases e
  {
    if e == 0 {
    } else {
      PowModBase(b, e - 1, n);
      ModMul(b % n, Pow(b % n, e - 1), n);
      ModMul(b % n, Pow(b, e - 1), n);
      ModMulLeft(b, Pow(b, e - 1), n);
    }
  }

  /** The law every step of the delay function uses: residues of powers multiply by adding exponents. */
  lemma PowModAdd(x: nat, e: nat, f: nat, n: nat)
    requires n > 0
    ensures ((Pow(x, e) % n) * (Pow(x, f) % n)) % n == Pow(x, e + f) % n
  {
    ModMul(Pow(x, e), Pow(x, f), n);
    PowAdd(x, e, f);
  }

  lemma PowModMul(x: nat, e: nat, f: nat, n: nat)
    requires n > 0
    ensures e * f >= 0 && Pow(Pow(x, e) % n, f) % n == Pow(x, e * f) % n
  {
    PowModBase(Pow(x, e), f, n);
    PowMul(x, e, f);
  }

  lemma {:induction false} Pow2Add(e: nat, f: nat)
    ensures Pow2(e + f) == Pow2(e) * Pow2(f)
    decreases e
  {
    if e == 0 {
    } else {
      Pow2Add(e - 1, f);
      assert Pow2(e + f) == 2 * Pow2(e - 1 + f);
      MulAssociative(2, Pow2(e - 1), Pow2(f));
    }
  }

  lemma {:induction false} Pow2IsPow(e: nat)
    ensures Pow2(e) == Pow(2, e)
  {
    if e == 0 {
    } else {
      Pow2IsPow(e - 1);
    }
  }

  lemma {:induction false} Pow2Monotone(e: nat, f: nat)
    requires e <= f
    ensures Pow2(e) <= Pow2(f)
    decreases f
  {
    if e == f {
    } else {
      Pow2Monotone(e, f - 1);
    }
  }

  /** 2^e for the exponents used as literals elsewhere. */
  lemma Pow2Literals()
    ensures Pow2(8) == 256
  {
  }

  /** Dividing twice is dividing once by the product. */
  lemma DivDiv(a: nat, b: nat, c: nat)
    requires b > 0 && c > 0
    ensures b * c > 0 && (a / b) / c == a / (b * c)
  {
    var q, r := a / b, a % b;
    DivModLaw(a, b);
    DivModLaw(q, c);
    var qq, s := q / c, q % c;
    assert b * c >= b * 1 by { MulMonotone(b, 1, c); }
    assert a == qq * (b * c) + (s * b + r) by {
      assert q * b == (qq * c + s) * b;
      assert (qq * c + s) * b == qq * c * b + s * b;
      assert qq * c * b == qq * (b * c);
    }
    assert s * b + r < b * c by {
      MulMonotone(b, s, c - 1);
      assert b * (c - 1) == b * c - b;
      assert s * b == b * s;
    }
    DivModUnique(a, b * c, qq, s * b + r);
  }

  lemma MulMonotone(a: nat, b: int, c: int)
    requires b <= c
    ensures a * b <= a * c
  {
    assert a * c - a * b == a * (c - b);
  }

  lemma DivBelow(a: nat, n: nat, bound: nat)
    requires n > 0 && a < bound * n
    ensures a / n < bound
  {
    DivModLaw(a, n);
    assert (a / n) * n == n * (a / n) && bound * n == n * bound;
    if a / n >= bound {
      MulMonotone(n, bound, a / n);
      assert false;
    }
  }
}
