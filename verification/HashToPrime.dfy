/** The Fiat-Shamir divisor of kinetic-vdf/src/hash_to_prime.rs: a first-success search over a 64-bit counter. */
module HashToPrime {
  import opened Numbers
  import opened ByteStrings
  import opened Results

  /** The two foreign primitives: SHA-256 and the Miller-Rabin verdict. */
  datatype Oracle = Oracle(sha256: Bytes -> Hash, isPrime: nat -> bool)

  /** `b |= 1` */
  function SetLowestBit(b: byte): byte { if b % 2 == 0 then b + 1 else b }

  /** `b |= 0x80` */
  function SetHighestBit(b: byte): byte { if b < 128 then b + 128 else b }

  /** What is hashed: challenge and output in their shortest forms, unframed, and the counter. */
  function Preimage(x: nat, y: nat, counter: nat): Bytes { ToBE(x) + ToBE(y) + FixedBE(counter, 8) }

  function Digest(o: Oracle, x: nat, y: nat, counter: nat): Hash { o.sha256(Preimage(x, y, counter)) }

  function ForceEndBits(h: Hash): Bytes {
    h[31 := SetLowestBit(h[31])][0 := SetHighestBit(h[0])]
  }

  function Candidate(o: Oracle, x: nat, y: nat, counter: nat): nat {
    FromBE(ForceEndBits(Digest(o, x, y, counter)))
  }

  function Candidates(o: Oracle, x: nat, y: nat): nat -> nat {
    (counter: nat) => Candidate(o, x, y, counter)
  }

  /** The first accepted candidate from `counter` on; None when the 64-bit counter is exhausted,
      where the Rust loop aborts on overflow or starts over and never returns. */
  function SearchFrom(candidate: nat -> nat, accept: nat -> bool, counter: nat): Option<nat>
    decreases U64_LIMIT - counter
  {
    if counter >= U64_LIMIT then None
    else if accept(candidate(counter)) then Some(candidate(counter))
    else SearchFrom(candidate, accept, counter + 1)
  }

  /** `v` is the candidate of the least accepted counter at or after `from`. */
  ghost predicate IsFirstAccepted(candidate: nat -> nat, accept: nat -> bool, from: nat, v: nat) {
    exists c: nat :: from <= c < U64_LIMIT && v == candidate(c) && accept(v)
                     && forall d: nat :: from <= d < c ==> !accept(candidate(d))
  }

  /** The search finds the candidate of the least accepted counter, and fails only when there is none. */
  lemma {:induction false} SearchFindsFirst(candidate: nat -> nat, accept: nat -> bool, from: nat)
    requires from <= U64_LIMIT
    ensures match SearchFrom(candidate, accept, from)
            case None => forall c: nat :: from <= c < U64_LIMIT ==> !accept(candidate(c))
            case Some(v) => IsFirstAccepted(candidate, accept, from, v)
    decreases U64_LIMIT - from
  {
    if from < U64_LIMIT && !accept(candidate(from)) {
      SearchFindsFirst(candidate, accept, from + 1);
      match SearchFrom(candidate, accept, from + 1)
      case None =>
      case Some(v) =>
        var c: nat :| from + 1 <= c < U64_LIMIT && v == candidate(c) && accept(v)
                      && forall d: nat :: from + 1 <= d < c ==> !accept(candidate(d));
        assert forall d: nat :: from <= d < c ==> !accept(candidate(d));
    }
  }

  function PrimeL(o: Oracle, x: nat, y: nat): (l: Option<nat>)
    ensures l.Some? ==> l.value > 1
  {
    FoundIsLarge(o, x, y);
    SearchFrom(Candidates(o, x, y), o.isPrime, 0)
  }

  /** There is no divisor exactly when no 64-bit counter yields an accepted candidate. */
  lemma NoDivisorExactlyWhen(o: Oracle, x: nat, y: nat)
    ensures PrimeL(o, x, y).None? <==> forall c: nat :: c < U64_LIMIT ==> !o.isPrime(Candidate(o, x, y, c))
  {
    hide Candidate;
    SearchFindsFirst(Candidates(o, x, y), o.isPrime, 0);
    assert forall c: nat :: Candidates(o, x, y)(c) == Candidate(o, x, y, c);
  }

  /** One round of the loop: hash, force the two end bits in place, read the number. */
  method NextCandidate(o: Oracle, xBytes: Bytes, yBytes: Bytes, counter: nat, ghost x: nat, ghost y: nat)
    returns (candidate: nat)
    requires xBytes == ToBE(x) && yBytes == ToBE(y)
    ensures candidate == Candidate(o, x, y, counter)
  {
    var candidateBytes: Bytes := o.sha256(xBytes + yBytes + FixedBE(counter, 8));
    candidateBytes := candidateBytes[31 := SetLowestBit(candidateBytes[31])];
    candidateBytes := candidateBytes[0 := SetHighestBit(candidateBytes[0])];
    candidate := FromBE(candidateBytes);
  }

  method GeneratePrimeL(o: Oracle, x: nat, y: nat) returns (l: Option<nat>)
    ensures l == PrimeL(o, x, y)
  {
    hide SearchFrom;
    hide Candidate;
    hide ToBE;
    ghost var candidates := Candidates(o, x, y);
    var xBytes, yBytes := ToBE(x), ToBE(y);
    var counter := 0;
    while counter < U64_LIMIT
      invariant 0 <= counter <= U64_LIMIT
      invariant PrimeL(o, x, y) == SearchFrom(candidates, o.isPrime, counter)
    {
      var candidate := NextCandidate(o, xBytes, yBytes, counter, x, y);
      SearchStep(candidates, o.isPrime, counter);
      if o.isPrime(candidate) {
        return Some(candidate);
      }
      counter := counter + 1;
    }
    SearchStep(candidates, o.isPrime, counter);
    l := None;
  }

  /** The search, one counter on. */
  lemma SearchStep(candidate: nat -> nat, accept: nat -> bool, counter: nat)
    ensures SearchFrom(candidate, accept, counter)
         == if counter >= U64_LIMIT then None
            else if accept(candidate(counter)) then Some(candidate(counter))
            else SearchFrom(candidate, accept, counter + 1)
  {
  }

  /** A set top bit and a set bottom bit, in a byte string of any length. */
  lemma EndBitsRange(b: Bytes)
    requires |b| >= 1 && b[0] >= 128 && b[|b| - 1] % 2 == 1
    ensures 128 * Pow256(|b| - 1) <= FromBE(b) < Pow256(|b|) && FromBE(b) % 2 == 1
  {
    hide Pow256;
    hide FromBE;
    FromBEBound(b);
    TopByte(b);
    BottomBit(b);
  }

  lemma BottomBit(b: Bytes)
    requires |b| >= 1
    ensures FromBE(b) % 2 == b[|b| - 1] % 2
  {
    FromBELast(b);
    hide FromBE;
    var h, c := FromBE(b[..|b| - 1]), b[|b| - 1];
    ModAddMultiple(c, 128 * h, 2);
    assert 128 * h * 2 + c == 256 * h + c;
  }

  lemma {:induction false} TopByte(b: Bytes)
    requires |b| >= 1 && b[0] >= 128
    ensures 128 * Pow256(|b| - 1) <= FromBE(b)
  {
    if |b| == 1 {
      assert b[..0] == [];
    } else {
      TopByte(b[..|b| - 1]);
    }
  }

  /** Forcing the two end bits makes every candidate odd and exactly 256 bits long. */
  lemma CandidateIs256BitsAndOdd(o: Oracle, x: nat, y: nat, counter: nat)
    ensures Pow2(255) <= Candidate(o, x, y, counter) < Pow2(256)
    ensures Candidate(o, x, y, counter) % 2 == 1
  {
    EndBitsRange(ForceEndBits(Digest(o, x, y, counter)));
    Pow256IsPow2(32);
    Pow256IsPow2(31);
    Pow2Add(7, 248);
  }

  lemma FoundCandidate(o: Oracle, x: nat, y: nat) returns (c: nat)
    requires SearchFrom(Candidates(o, x, y), o.isPrime, 0).Some?
    ensures var v := SearchFrom(Candidates(o, x, y), o.isPrime, 0).value;
            v == Candidate(o, x, y, c) && o.isPrime(v)
  {
    var candidates := Candidates(o, x, y);
    SearchFindsFirst(candidates, o.isPrime, 0);
    var v := SearchFrom(candidates, o.isPrime, 0).value;
    assert IsFirstAccepted(candidates, o.isPrime, 0, v);
    c :| v == candidates(c) && o.isPrime(v);
  }

  lemma FoundIsLarge(o: Oracle, x: nat, y: nat)
    ensures var l := SearchFrom(Candidates(o, x, y), o.isPrime, 0); l.Some? ==> l.value > 1
  {
    if SearchFrom(Candidates(o, x, y), o.isPrime, 0).Some? {
      var c := FoundCandidate(o, x, y);
      CandidateIs256BitsAndOdd(o, x, y, c);
      Pow2Monotone(1, 255);
    }
  }

  /** Every divisor the search can return is accepted by the primality test, odd, and in [2^255, 2^256). */
  lemma PrimeLRange(o: Oracle, x: nat, y: nat)
    requires PrimeL(o, x, y).Some?
    ensures Pow2(255) <= PrimeL(o, x, y).value < Pow2(256)
    ensures PrimeL(o, x, y).value % 2 == 1 && o.isPrime(PrimeL(o, x, y).value)
  {
    var c := FoundCandidate(o, x, y);
    CandidateIs256BitsAndOdd(o, x, y, c);
  }

  /** Forcing the end bits changes nothing else: it adds the missing top bit and the missing bottom bit. */
  lemma ForcedValue(h: Hash)
    ensures FromBE(ForceEndBits(h))
         == FromBE(h) + (if FromBE(h) < Pow2(255) then Pow2(255) else 0) + (if FromBE(h) % 2 == 0 then 1 else 0)
  {
    hide FromBE;
    hide Pow256;
    hide Pow2;
    var f := ForceEndBits(h);
    EndBytes(h);
    EndBytes(f);
    assert f[1..31] == h[1..31];
    TopBitTest(h);
    BottomBit(h);
    TopBitValue();
    Distributes(f[0] - h[0], h[0], Pow256(31));
  }

  lemma Distributes(a: int, b: int, c: int)
    ensures (a + b) * c == a * c + b * c
  {
  }

  lemma TopBitValue()
    ensures 128 * Pow256(31) == Pow2(255)
  {
    hide Pow256;
    Pow256IsPow2(31);
    Pow2Add(7, 248);
    assert Pow2(7) == 128;
  }

  lemma EndBytes(h: Bytes)
    requires |h| == 32
    ensures FromBE(h) == h[0] * Pow256(31) + 256 * FromBE(h[1..31]) + h[31]
  {
    hide FromBE;
    hide Pow256;
    FromBEFront(h);
    FromBELast(h[1..]);
    assert h[1..][..30] == h[1..31];
  }

  lemma TopBitTest(h: Bytes)
    requires |h| == 32
    ensures h[0] < 128 <==> FromBE(h) < Pow2(255)
  {
    hide FromBE;
    hide Pow256;
    hide Pow2;
    TopBitValue();
    if h[0] >= 128 {
      TopByte(h);
    } else {
      FromBEFront(h);
      FromBEBound(h[1..]);
      MulMonotone(Pow256(31), h[0] + 1, 128);
      Distributes(h[0], 1, Pow256(31));
    }
  }

  /** Preimages are equal exactly when the counters are and the digits of challenge and output, written one after the
      other, have one length and one value. */
  lemma PreimagesEqualExactlyWhen(x: nat, y: nat, c: nat, x': nat, y': nat, c': nat)
    requires c < U64_LIMIT && c' < U64_LIMIT
    ensures Preimage(x, y, c) == Preimage(x', y', c') <==>
            && c == c'
            && |ToBE(x)| + |ToBE(y)| == |ToBE(x')| + |ToBE(y')|
            && x * Pow256(|ToBE(y)|) + y == x' * Pow256(|ToBE(y')|) + y'
  {
    hide ToBE;
    hide FromBE;
    hide FixedBE;
    hide Pow256;
    var a, b := ToBE(x) + ToBE(y), ToBE(x') + ToBE(y');
    Pow256Literals();
    FixedBEInjective(c, c', 8);
    PairValue(x, y);
    PairValue(x', y');
    var p, p' := Preimage(x, y, c), Preimage(x', y', c');
    assert p == a + FixedBE(c, 8) && p' == b + FixedBE(c', 8);
    if p == p' {
      assert p[..|a|] == a && p'[..|b|] == b && p[|a|..] == FixedBE(c, 8) && p'[|b|..] == FixedBE(c', 8);
    }
    if |a| == |b| {
      FromBEInjective(a, b);
    }
  }

  lemma PairValue(x: nat, y: nat)
    ensures FromBE(ToBE(x) + ToBE(y)) == x * Pow256(|ToBE(y)|) + y
  {
    hide ToBE;
    hide FromBE;
    FromBESplit(ToBE(x), ToBE(y));
    ToBERoundTrip(x);
    ToBERoundTrip(y);
  }

  /** Two pairs of challenge and output are written with the same digits. */
  predicate SamePair(x: nat, y: nat, x': nat, y': nat) {
    && |ToBE(x)| + |ToBE(y)| == |ToBE(x')| + |ToBE(y')|
    && x * Pow256(|ToBE(y)|) + y == x' * Pow256(|ToBE(y')|) + y'
  }

  /** Between challenges of one length only equal pairs are written alike. */
  lemma EqualLengthsBindPair(x: nat, y: nat, x': nat, y': nat)
    requires |ToBE(x)| == |ToBE(x')|
    ensures SamePair(x, y, x', y') <==> x == x' && y == y'
  {
    hide ToBE;
    hide Pow256;
    var p := Pow256(|ToBE(y)|);
    ToBELength(y, |ToBE(y)|);
    ToBELength(y', |ToBE(y')|);
    if SamePair(x, y, x', y') {
      DivModUnique(x * p + y, p, x, y);
      DivModUnique(x * p + y, p, x', y');
    }
  }

  /** Between others not: nothing separates the digits of challenge and output. */
  lemma UnframedPairsShare()
    ensures SamePair(1, 0x203, 0x102, 3)
  {
    assert ToBE(0x203) == ToBE(2) + [3];
    assert ToBE(0x102) == ToBE(1) + [2];
    assert Pow256(1) == 256 * Pow256(0) && Pow256(2) == 256 * Pow256(1);
  }

  /** A hash that singles out one preimage, in a byte that forcing the end bits leaves alone. */
  function Singling(target: Bytes): Bytes -> Hash {
    (m: Bytes) => if m == target then Zeros(30) + [1, 0] else Zeros(32)
  }

  lemma SinglingDiffers(target: Bytes, m: Bytes)
    requires m != target
    ensures FromBE(ForceEndBits(Singling(target)(m))) != FromBE(ForceEndBits(Singling(target)(target)))
  {
    var f, g := ForceEndBits(Singling(target)(m)), ForceEndBits(Singling(target)(target));
    assert f[30] == 0 && g[30] == 1;
    FromBEInjective(f, g);
  }

  /** The divisor depends on challenge and output through their digits, and on nothing less: two pairs give one divisor
      under every hash and primality test exactly when they are written alike. */
  lemma DivisorBindsExactly(x: nat, y: nat, x': nat, y': nat)
    ensures (forall o :: PrimeL(o, x, y) == PrimeL(o, x', y')) <==> SamePair(x, y, x', y')
  {
    hide PrimeL;
    hide ToBE;
    hide Pow256;
    if SamePair(x, y, x', y') {
      forall o
        ensures PrimeL(o, x, y) == PrimeL(o, x', y')
      {
        SameCandidates(o, x, y, x', y');
      }
    } else {
      var o := Oracle(Singling(Preimage(x, y, 0)), (v: nat) => true);
      FirstCandidate(o, x, y);
      FirstCandidate(o, x', y');
      PreimagesEqualExactlyWhen(x, y, 0, x', y', 0);
      SinglingDiffers(Preimage(x, y, 0), Preimage(x', y', 0));
    }
  }

  lemma FirstCandidate(o: Oracle, x: nat, y: nat)
    requires forall v :: o.isPrime(v)
    ensures PrimeL(o, x, y) == Some(FromBE(ForceEndBits(o.sha256(Preimage(x, y, 0)))))
  {
    SearchStep(Candidates(o, x, y), o.isPrime, 0);
  }

  lemma SameCandidates(o: Oracle, x: nat, y: nat, x': nat, y': nat)
    requires SamePair(x, y, x', y')
    ensures PrimeL(o, x, y) == PrimeL(o, x', y')
  {
    hide Preimage;
    hide SamePair;
    hide SearchFrom;
    forall c: nat | c < U64_LIMIT
      ensures Candidates(o, x, y)(c) == Candidates(o, x', y')(c)
    {
      SamePreimages(x, y, x', y', c);
    }
    SearchAgrees(Candidates(o, x, y), Candidates(o, x', y'), o.isPrime, 0);
  }

  lemma SamePreimages(x: nat, y: nat, x': nat, y': nat, c: nat)
    requires SamePair(x, y, x', y') && c < U64_LIMIT
    ensures Preimage(x, y, c) == Preimage(x', y', c)
  {
    PreimagesEqualExactlyWhen(x, y, c, x', y', c);
  }

  lemma {:induction false} SearchAgrees(f: nat -> nat, g: nat -> nat, accept: nat -> bool, from: nat)
    requires forall c: nat :: c < U64_LIMIT ==> f(c) == g(c)
    ensures SearchFrom(f, accept, from) == SearchFrom(g, accept, from)
    decreases U64_LIMIT - from
  {
    if from < U64_LIMIT {
      SearchAgrees(f, g, accept, from + 1);
    }
  }

  /** For one challenge, different outputs and different counters are told apart. */
  lemma OutputAndCounterMatter(x: nat, y: nat, y': nat, c: nat, c': nat)
    requires c < U64_LIMIT && c' < U64_LIMIT
    ensures y != y' ==> exists o :: PrimeL(o, x, y) != PrimeL(o, x, y')
    ensures c != c' ==> exists o :: Candidate(o, x, y, c) != Candidate(o, x, y, c')
  {
    hide PrimeL;
    hide ToBE;
    hide Pow256;
    hide SamePair;
    DivisorBindsExactly(x, y, x, y');
    EqualLengthsBindPair(x, y, x, y');
    if c != c' {
      PreimagesEqualExactlyWhen(x, y, c, x, y, c');
      var o := Oracle(Singling(Preimage(x, y, c)), (v: nat) => true);
      SinglingDiffers(Preimage(x, y, c), Preimage(x, y, c'));
      assert Candidate(o, x, y, c) != Candidate(o, x, y, c');
    }
  }
}
