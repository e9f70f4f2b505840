/** Byte strings and the integer encodings the repository uses: big-endian and little-endian,
    fixed-width and minimal. */
module ByteStrings {
  import opened Numbers

  type byte = x: int | 0 <= x < 256

  type Bytes = seq<byte>

  /** A 32-byte SHA-256 digest, a network salt, or any other 32-byte array. */
  type Hash = b: Bytes | |b| == 32 witness seq(32, _ => 0)

  lemma SliceOfPrefix<T>(s: seq<T>, n: nat, i: nat, j: nat)
    requires i <= j <= n <= |s|
    ensures s[..n][i..j] == s[i..j]
  {
  }

  function Zeros(n: nat): (r: Bytes)
    ensures |r| == n
  {
    seq(n, _ => 0)
  }

  /** The value of a big-endian byte string (`BigUint::from_bytes_be`, `u64::from_be_bytes`). */
  function FromBE(b: Bytes): nat {
    if |b| == 0 then 0 else 256 * FromBE(b[..|b| - 1]) + b[|b| - 1]
  }

  /** The shortest big-endian form, one zero byte for zero (`BigUint::to_bytes_be`). */
  function ToBE(v: nat): (r: Bytes)
    ensures |r| >= 1
  {
    if v < 256 then [v] else ToBE(v / 256) + [v % 256]
  }

  /** The low `w` bytes of `v`, most significant first (`to_be_bytes` after a narrowing cast). */
  function FixedBE(v: nat, w: nat): (r: Bytes)
    ensures |r| == w
    decreases w
  {
    if w == 0 then [] else FixedBE(v / 256, w - 1) + [v % 256]
  }

  /** The low `w` bytes of `v`, least significant first (`to_le_bytes` after a narrowing cast). */
  function FixedLE(v: nat, w: nat): (r: Bytes)
    ensures |r| == w
    decreases w
  {
    if w == 0 then [] else [v % 256] + FixedLE(v / 256, w - 1)
  }

  function FromLE(b: Bytes): nat {
    if |b| == 0 then 0 else b[0] + 256 * FromLE(b[1..])
  }

  /** 256^n, the number of byte strings of length n. */
  function Pow256(n: nat): (r: nat)
    ensures r >= 1
  {
    if n == 0 then 1 else 256 * Pow256(n - 1)
  }

  lemma {:induction false} Pow256IsPow2(n: nat)
    ensures Pow256(n) == Pow2(8 * n)
  {
    if n == 0 {
    } else {
      Pow256IsPow2(n - 1);
      Pow2Add(8, 8 * (n - 1));
      Pow2Literals();
    }
  }

  lemma {:induction false} FromBEBound(b: Bytes)
    ensures FromBE(b) < Pow256(|b|)
  {
    if |b| == 0 {
    } else {
      FromBEBound(b[..|b| - 1]);
    }
  }

  lemma {:induction false} FromLEBound(b: Bytes)
    ensures FromLE(b) < Pow256(|b|)
  {
    if |b| == 0 {
    } else {
      FromLEBound(b[1..]);
    }
  }

  /** Writing a number and reading it back. */
  lemma {:induction false} ToBERoundTrip(v: nat)
    ensures FromBE(ToBE(v)) == v
  {
    if v < 256 {
      assert ToBE(v)[..0] == [];
    } else {
      ToBERoundTrip(v / 256);
      var r := ToBE(v);
      assert r[..|r| - 1] == ToBE(v / 256);
    }
  }

  /** The shortest form fits in `n` bytes exactly when the number is below 256^n. */
  lemma {:induction false} ToBELength(v: nat, n: nat)
    requires n >= 1
    ensures |ToBE(v)| <= n <==> v < Pow256(n)
    decreases n
  {
    if v < 256 {
      assert Pow256(n) == 256 * Pow256(n - 1);
    } else if n == 1 {
      assert Pow256(1) == 256 * Pow256(0);
      assert |ToBE(v)| == |ToBE(v / 256)| + 1;
    } else {
      ToBELength(v / 256, n - 1);
      assert |ToBE(v)| == |ToBE(v / 256)| + 1;
    }
  }

  /** Concatenation shifts the front by the length of the back. */
  lemma {:induction false} FromBESplit(a: Bytes, b: Bytes)
    ensures FromBE(a + b) == FromBE(a) * Pow256(|b|) + FromBE(b)
    decreases |b|
  {
    if |b| == 0 {
      assert a + b == a;
    } else {
      var front := b[..|b| - 1];
      FromBESplit(a, front);
      assert (a + b)[..|a + b| - 1] == a + front;
      assert 256 * (FromBE(a) * Pow256(|front|)) == FromBE(a) * (256 * Pow256(|front|));
    }
  }

  lemma {:induction false} FromBEFront(b: Bytes)
    requires |b| > 0
    ensures FromBE(b) == b[0] * Pow256(|b| - 1) + FromBE(b[1..])
    decreases |b|
  {
    if |b| == 1 {
      assert b[..0] == [];
    } else {
      var front := b[..|b| - 1];
      FromBEFront(front);
      assert front[1..] == b[1..][..|b| - 2];
      assert 256 * (b[0] * Pow256(|b| - 2)) == b[0] * (256 * Pow256(|b| - 2));
    }
  }

  lemma FromBELast(b: Bytes)
    requires |b| > 0
    ensures FromBE(b) == 256 * FromBE(b[..|b| - 1]) + b[|b| - 1]
  {
  }

  lemma {:induction false} LeadingZerosVanish(k: nat, b: Bytes)
    ensures FromBE(Zeros(k) + b) == FromBE(b)
    decreases k + |b|
  {
    var z := Zeros(k) + b;
    if |b| > 0 {
      assert z[..|z| - 1] == Zeros(k) + b[..|b| - 1];
      LeadingZerosVanish(k, b[..|b| - 1]);
    } else if k > 0 {
      assert z[..|z| - 1] == Zeros(k - 1) + b;
      LeadingZerosVanish(k - 1, b);
    }
  }

  lemma {:induction false} FixedBERoundTrip(v: nat, w: nat)
    requires v < Pow256(w)
    ensures FromBE(FixedBE(v, w)) == v
    decreases w
  {
    if w == 0 {
    } else {
      FixedBERoundTrip(v / 256, w - 1);
      var r := FixedBE(v, w);
      assert r[..|r| - 1] == FixedBE(v / 256, w - 1);
    }
  }

  lemma {:induction false} FixedBETruncates(v: nat, w: nat)
    ensures FromBE(FixedBE(v, w)) == v % Pow256(w)
    decreases w
  {
    if w == 0 {
    } else {
      FixedBETruncates(v / 256, w - 1);
      var r := FixedBE(v, w);
      assert r[..|r| - 1] == FixedBE(v / 256, w - 1);
      SplitMod(v, Pow256(w - 1));
    }
  }

  lemma FixedBEInjective(v: nat, v': nat, w: nat)
    requires v < Pow256(w) && v' < Pow256(w)
    ensures FixedBE(v, w) == FixedBE(v', w) <==> v == v'
  {
    hide FixedBE;
    FixedBERoundTrip(v, w);
    FixedBERoundTrip(v', w);
  }

  /** Byte strings of one length are equal exactly when their values are. */
  lemma FromBEInjective(a: Bytes, b: Bytes)
    requires |a| == |b|
    ensures FromBE(a) == FromBE(b) <==> a == b
  {
    hide FromBE;
    hide FixedBE;
    FixedBEOfFromBE(a);
    FixedBEOfFromBE(b);
  }

  lemma {:induction false} FixedBEOfFromBE(b: Bytes)
    ensures FixedBE(FromBE(b), |b|) == b
  {
    if |b| == 0 {
    } else {
      FixedBEOfFromBE(b[..|b| - 1]);
      assert b == b[..|b| - 1] + [b[|b| - 1]];
    }
  }

  /** A cast to u32 before `to_le_bytes` loses exactly the high part. */
  lemma {:induction false} FixedLETruncates(v: nat, w: nat)
    ensures FromLE(FixedLE(v, w)) == v % Pow256(w)
    decreases w
  {
    if w == 0 {
    } else {
      FixedLETruncates(v / 256, w - 1);
      var r := FixedLE(v, w);
      assert r[1..] == FixedLE(v / 256, w - 1);
      SplitMod(v, Pow256(w - 1));
    }
  }

  lemma SplitMod(v: nat, m: nat)
    requires m >= 1
    ensures 256 * ((v / 256) % m) + v % 256 == v % (256 * m)
  {
    var h := v / 256;
    DivModLaw(h, m);
    var q, r := h / m, h % m;
    assert v == q * (256 * m) + (256 * r + v % 256) by {
      assert 256 * h == 256 * (q * m + r) == q * (256 * m) + 256 * r;
    }
    assert 256 * r + v % 256 < 256 * m;
    DivModUnique(v, 256 * m, q, 256 * r + v % 256);
  }

  lemma Pow256Literals()
    ensures Pow256(1) == 256 && Pow256(4) == U32_LIMIT && Pow256(8) == U64_LIMIT
  {
    assert Pow256(1) == 256 * Pow256(0);
    assert Pow256(2) == 256 * Pow256(1);
    assert Pow256(3) == 256 * Pow256(2);
    assert Pow256(4) == 256 * Pow256(3);
    assert Pow256(5) == 256 * Pow256(4);
    assert Pow256(6) == 256 * Pow256(5);
    assert Pow256(7) == 256 * Pow256(6);
  }
}
