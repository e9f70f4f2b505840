/** The RSA Wesolowski delay function of kinetic-vdf/src/lib.rs: the blockwise prover and its verifier. */
module RsaVdf {
  import opened Numbers
  import opened ByteStrings
  import opened HashToPrime
  import opened VdfMath

  datatype VdfError = InvalidChallenge | InvalidProof | ProofGenerationError

  /** What a call does: return a value, return an error, or (when the prime search is exhausted) not return. */
  datatype Outcome<+T> = Ok(value: T) | Err(error: VdfError) | NoReturn

  /** The engine: a modulus of at most 2048 bits, and the two foreign primitives. */
  datatype Engine = Engine(n: nat, oracle: Oracle) {
    ghost predicate Valid() { 1 < n <= Pow256(256) }
  }

  const MAX_CHECKPOINTS: nat := 300_000
  const TEST_BLOCK_SIZE: nat := 1_000

  function BlockSize(iterations: nat): (b: nat)
    requires iterations >= 1
    ensures 1 <= b <= iterations
  {
    if iterations > MAX_CHECKPOINTS * TEST_BLOCK_SIZE then iterations / MAX_CHECKPOINTS
    else if iterations > TEST_BLOCK_SIZE then TEST_BLOCK_SIZE
    else iterations
  }

  function NeededCheckpoints(iterations: nat): nat
    requires iterations >= 1
  {
    RoundedUp(iterations, BlockSize(iterations))
  }

  function RoundedUp(a: nat, b: nat): nat
    requires b >= 1
  {
    if a % b > 0 then Div(a, b) + 1 else Div(a, b)
  }

  lemma LargeRunBlocks(iterations: nat, b: nat)
    requires iterations > 300_000_000 && b == iterations / 300_000
    ensures b >= 1_000 && Div(iterations, b) < 300_300
  {
    assert iterations < 300_000 * b + 300 * b;
    DivBelow(iterations, b, 300_300);
  }

  lemma MediumRunBlocks(iterations: nat)
    requires iterations <= 300_000_000
    ensures Div(iterations, 1_000) <= 300_000
  {
  }

  lemma BlocksBound(iterations: nat)
    requires iterations >= 1
    ensures Div(iterations, BlockSize(iterations)) < 300_300
  {
    hide Div;
    if iterations > MAX_CHECKPOINTS * TEST_BLOCK_SIZE {
      LargeRunBlocks(iterations, BlockSize(iterations));
    } else if iterations > TEST_BLOCK_SIZE {
      MediumRunBlocks(iterations);
    } else {
      DivOnce(iterations);
    }
  }

  lemma DivOnce(a: nat)
    requires a >= 1
    ensures Div(a, a) == 1
  {
    DivModUnique(a, a, 1, 0);
  }

  /** The prover never stores more than 300,300 checkpoints. */
  lemma CheckpointBound(iterations: nat)
    requires iterations >= 1
    ensures 1 <= NeededCheckpoints(iterations) <= 300_300
  {
    hide Div;
    hide BlockSize;
    BlocksBound(iterations);
    AtLeastOneBlock(iterations, BlockSize(iterations));
  }

  lemma AtLeastOneBlock(iterations: nat, b: nat)
    requires 1 <= b <= iterations
    ensures Div(iterations, b) >= 1
  {
    DivModLaw(iterations, b);
    var k := iterations / b;
    assert k == 0 ==> k * b == 0;
  }

  /** The bound is reached, 300 above the limit the source's comment names. */
  lemma CheckpointBoundIsTight()
    ensures NeededCheckpoints(300_299_999) == 300_300
  {
    assert BlockSize(300_299_999) == 1_000;
  }

  /** Entry i of the checkpoint list is x^(2^(i*B)) mod n. */
  ghost predicate AreCheckpoints(cs: seq<nat>, x: nat, B: nat, n: nat)
    requires n > 0
  {
    forall i :: 0 <= i < |cs| ==> cs[i] == ModPow(x, Place(i, B), n)
  }

  lemma NextMultiple(i: nat, B: nat)
    requires B >= 1
    ensures (i + 1) % B == 0 ==> (i + 1) / B == i / B + 1 && i + 1 == (i / B + 1) * B
    ensures (i + 1) % B != 0 ==> (i + 1) / B == i / B
  {
    DivModLaw(i, B);
    var q, r := i / B, i % B;
    if r + 1 < B {
      DivModUnique(i + 1, B, q, r + 1);
    } else {
      assert i + 1 == (q + 1) * B + 0;
      DivModUnique(i + 1, B, q + 1, 0);
    }
  }

  /** The delay loop: T sequential squarings, keeping every B-th value while it is needed. */
  method DelayLoop(x: nat, n: nat, iterations: nat) returns (y: nat, checkpoints: seq<nat>)
    requires n > 1 && iterations >= 1
    ensures y == Output(x, iterations, n)
    ensures |checkpoints| == NeededCheckpoints(iterations)
    ensures AreCheckpoints(checkpoints, x, BlockSize(iterations), n)
  {
    var B := BlockSize(iterations);
    var needed := NeededCheckpoints(iterations);
    CheckpointBound(iterations);
    y := x % n;
    assert y == ModPow(x, Pow2(0), n) by { assert Pow(x, 1) == x * Pow(x, 0); }
    hide ModPow;
    checkpoints := [y];
    DivModUnique(0, B, 0, 0);
    for i := 0 to iterations
      invariant y == ModPow(x, Pow2(i), n)
      invariant |checkpoints| == Min(needed, i / B + 1)
      invariant AreCheckpoints(checkpoints, x, B, n)
    {
      ModPowAdd(x, Pow2(i), Pow2(i), n);
      NextMultiple(i, B);
      y := (y * y) % n;
      if (i + 1) % B == 0 {
        var checkpointIdx := (i + 1) / B;
        if checkpointIdx < needed {
          PlaceIsPow2(checkpointIdx, B);
          checkpoints := checkpoints + [y];
        }
      }
    }
  }

  /** The digits of 2^T / l in base 2^B, least significant first, the odd-sized leading block last. */
  ghost predicate AreQuotientDigits(digits: seq<nat>, iterations: nat, l: nat)
    requires iterations >= 1 && l > 0
  {
    var B := BlockSize(iterations);
    && |digits| == NeededCheckpoints(iterations)
    && (forall i :: 0 <= i < iterations / B ==> digits[i] < Pow2(B))
    && Weighted(digits, B, |digits|) == Pow2(iterations) / l
  }

  /** Long division in progress: the digits so far, most significant first, and the remainder they leave. */
  ghost predicate Dividing(q: seq<nat>, r: nat, B: nat, l: nat, bits: nat) {
    r < l && Horner(q, B) * l + r == Pow2(bits)
  }

  lemma BringDown(q: seq<nat>, r: nat, B: nat, l: nat, bits: nat, shift: nat)
    requires l > 0 && Dividing(q, r, B, l, bits)
    requires shift == B || q == []
    ensures Div(ShiftLeft(r, shift), l) < Pow2(shift)
    ensures Dividing(q + [Div(ShiftLeft(r, shift), l)], ShiftLeft(r, shift) % l, B, l, bits + shift)
  {
    hide Pow2;
    hide ShiftLeft;
    hide Div;
    hide Horner;
    DivisionStep(Horner(q, B), r, l, bits, shift);
    HornerNext(q, Div(ShiftLeft(r, shift), l), B, shift);
  }

  /** One more digit; a leading digit may have any size. */
  lemma HornerNext(q: seq<nat>, d: nat, B: nat, shift: nat)
    requires shift == B || q == []
    ensures Horner(q + [d], B) == Pow2(shift) * Horner(q, B) + d
  {
    hide Pow2;
    assert (q + [d])[..|q|] == q;
  }

  /** `count` equal-sized blocks, each brought down and divided in turn. */
  method DivideBlocks(lead: seq<nat>, r0: nat, B: nat, l: nat, count: nat, ghost bits: nat)
    returns (q: seq<nat>, ghost r: nat)
    requires l > 0 && Dividing(lead, r0, B, l, bits)
    ensures |q| == |lead| + count
    ensures forall i :: |lead| <= i < |q| ==> q[i] < Pow2(B)
    ensures count * B >= 0 && Dividing(q, r, B, l, bits + count * B)
  {
    hide Dividing;
    hide Pow2;
    hide ShiftLeft;
    hide Div;
    q := lead;
    var rest: nat := r0;
    ghost var done := bits;
    for j := 0 to count
      invariant |q| == |lead| + j && done == bits + j * B
      invariant forall i :: |lead| <= i < |q| ==> q[i] < Pow2(B)
      invariant Dividing(q, rest, B, l, done)
    {
      BringDown(q, rest, B, l, done, B);
      var dividend := ShiftLeft(rest, B);
      q := q + [Div(dividend, l)];
      rest := dividend % l;
      done := done + B;
      assert (j + 1) * B == j * B + B;
    }
    r := rest;
  }

  lemma StartDividing(B: nat, l: nat)
    requires l > 1
    ensures Dividing([], 1, B, l, 0)
  {
  }

  /** With all bits brought down, the digits have the quotient's value. */
  lemma DivisionDone(q: seq<nat>, r: nat, B: nat, l: nat, iterations: nat)
    requires l > 0 && Dividing(q, r, B, l, iterations)
    ensures Weighted(Reverse(q), B, |q|) == Pow2(iterations) / l
  {
    hide Pow2;
    hide Horner;
    hide Weighted;
    DivModUnique(Pow2(iterations), l, Horner(q, B), r);
    ReverseWeighted(q, B);
  }

  method LongDivision(iterations: nat, l: nat) returns (digits: seq<nat>)
    requires iterations >= 1 && l > 1
    ensures AreQuotientDigits(digits, iterations, l)
  {
    hide Dividing;
    hide Pow2;
    hide ShiftLeft;
    hide Weighted;
    hide BlockSize;
    var B := BlockSize(iterations);
    var k, rBlock := iterations / B, iterations % B;
    DivModLaw(iterations, B);
    var lead: seq<nat>, r := [], 1;
    StartDividing(B, l);
    if rBlock > 0 {
      BringDown(lead, r, B, l, 0, rBlock);
      var dividend := ShiftLeft(r, rBlock);
      lead := [Div(dividend, l)];
      r := dividend % l;
      assert [] + lead == lead;
    }
    var q, rest := DivideBlocks(lead, r, B, l, k, rBlock);
    DivisionDone(q, rest, B, l, iterations);
    digits := Reverse(q);
  }

  /** One bit of every digit at once: the product of the checkpoints whose digit has bit j set. */
  method BatchMultiply(x: nat, n: nat, B: nat, digits: seq<nat>, checkpoints: seq<nat>, k: nat, j: nat)
    returns (batch: nat)
    requires n > 1 && k <= |digits| && k <= |checkpoints|
    requires AreCheckpoints(checkpoints, x, B, n)
    ensures batch == ModPow(x, BitSlice(digits, B, j, k), n)
  {
    hide ModPow;
    hide Place;
    batch := 1;
    ModPowZero(x, n);
    for i := 0 to k
      invariant batch == ModPow(x, BitSlice(digits, B, j, i), n)
    {
      if Bit(digits[i], j) {
        ModPowAdd(x, BitSlice(digits, B, j, i), Place(i, B), n);
        batch := (batch * checkpoints[i]) % n;
      }
    }
  }

  /** The bit-sliced simultaneous exponentiation of all checkpoints. */
  method MultiExponentiate(x: nat, n: nat, B: nat, digits: seq<nat>, checkpoints: seq<nat>, k: nat)
    returns (pi: nat)
    requires n > 1 && k <= |digits| && k <= |checkpoints|
    requires AreCheckpoints(checkpoints, x, B, n)
    requires forall i :: 0 <= i < k ==> digits[i] < Pow2(B)
    ensures pi == ModPow(x, Weighted(digits, B, k), n)
  {
    hide ModPow;
    hide Pow2;
    hide Shifted;
    hide BitSlice;
    pi := 1;
    ModPowZero(x, n);
    ShiftedOut(digits, B, k);
    for j := B downto 0
      invariant pi == ModPow(x, Shifted(digits, B, j, k), n)
    {
      var e := Shifted(digits, B, j + 1, k);
      ModPowAdd(x, e, e, n);
      pi := (pi * pi) % n;
      var batch := BatchMultiply(x, n, B, digits, checkpoints, k, j);
      ModPowAdd(x, 2 * e, BitSlice(digits, B, j, k), n);
      ShiftStep(digits, B, j, k);
      pi := (pi * batch) % n;
    }
    ShiftedByZero(digits, B, k);
  }

  /** All blocks together give the naive proof x^(2^T / l) mod n. */
  method BlockwiseProof(x: nat, n: nat, iterations: nat, l: nat, checkpoints: seq<nat>) returns (pi: nat)
    requires n > 1 && iterations >= 1 && l > 1
    requires |checkpoints| == NeededCheckpoints(iterations)
    requires AreCheckpoints(checkpoints, x, BlockSize(iterations), n)
    ensures pi == QuotientPower(x, iterations, l, n)
  {
    var B := BlockSize(iterations);
    var k, rBlock := iterations / B, iterations % B;
    var digits := LongDivision(iterations, l);
    pi := MultiExponentiate(x, n, B, digits, checkpoints, k);
    if rBlock > 0 {
      var piRem := ModPow(checkpoints[k], digits[k], n);
      ModPowMul(x, Place(k, B), digits[k], n);
      ModPowAdd(x, Weighted(digits, B, k), Place(k, B) * digits[k], n);
      pi := (pi * piRem) % n;
    }
  }

  /** y and pi, each right-aligned in 256 bytes. */
  function Pack(y: nat, pi: nat): (proof: Bytes)
    requires |ToBE(y)| <= 256 && |ToBE(pi)| <= 256
    ensures |proof| == 512
  {
    Zeros(256 - |ToBE(y)|) + ToBE(y) + Zeros(256 - |ToBE(pi)|) + ToBE(pi)
  }

  lemma PackRoundTrip(y: nat, pi: nat)
    requires |ToBE(y)| <= 256 && |ToBE(pi)| <= 256
    ensures FromBE(Pack(y, pi)[0..256]) == y && FromBE(Pack(y, pi)[256..512]) == pi
  {
    hide ToBE;
    hide FromBE;
    var p := Pack(y, pi);
    assert p[0..256] == Zeros(256 - |ToBE(y)|) + ToBE(y);
    assert p[256..512] == Zeros(256 - |ToBE(pi)|) + ToBE(pi);
    LeadingZerosVanish(256 - |ToBE(y)|, ToBE(y));
    LeadingZerosVanish(256 - |ToBE(pi)|, ToBE(pi));
    ToBERoundTrip(y);
    ToBERoundTrip(pi);
  }

  method Package(y: nat, pi: nat) returns (r: Outcome<Bytes>)
    ensures r == PackResult(y, pi)
  {
    var yBytes, piBytes := ToBE(y), ToBE(pi);
    if |yBytes| > 256 || |piBytes| > 256 {
      return Err(ProofGenerationError);
    }
    var proofBytes := Zeros(512);
    var yStart := 256 - |yBytes|;
    proofBytes := proofBytes[..yStart] + yBytes + proofBytes[256..];
    var piStart := 512 - |piBytes|;
    proofBytes := proofBytes[..piStart] + piBytes + proofBytes[512..];
    assert proofBytes == Pack(y, pi);
    r := Ok(proofBytes);
  }

  function PackResult(y: nat, pi: nat): Outcome<Bytes> {
    if |ToBE(y)| <= 256 && |ToBE(pi)| <= 256 then Ok(Pack(y, pi)) else Err(ProofGenerationError)
  }

  /** The delay function's output, x^(2^T) mod n. */
  function Output(x: nat, iterations: nat, n: nat): (y: nat)
    requires n > 0
    ensures y < n
  {
    ModPow(x, Pow2(iterations), n)
  }

  /** Wesolowski's proof, x^(2^T / l) mod n. */
  function QuotientPower(x: nat, iterations: nat, l: nat, n: nat): (pi: nat)
    requires n > 0 && l > 0
    ensures pi < n
  {
    ModPow(x, Pow2(iterations) / l, n)
  }

  /** The textbook prover: exponentiate by the whole quotient at once. */
  function NaiveProver(e: Engine, challenge: Hash, iterations: nat): Outcome<Bytes>
    requires e.n > 0
  {
    var x := FromBE(challenge);
    if iterations == 0 || x == 0 then Err(InvalidChallenge)
    else
      var y := Output(x, iterations, e.n);
      match PrimeL(e.oracle, x, y)
      case None => NoReturn
      case Some(l) => PackResult(y, QuotientPower(x, iterations, l, e.n))
  }

  /** `evaluate`: the blockwise prover refines the textbook one, on every input. */
  method Evaluate(e: Engine, challenge: Hash, iterations: u64) returns (r: Outcome<Bytes>)
    requires e.Valid()
    ensures r == NaiveProver(e, challenge, iterations)
    ensures r.Ok? ==> Verify(e, challenge, r.value, iterations) == Ok(true)
  {
    var x := FromBE(challenge);
    if iterations == 0 || x == 0 {
      return Err(InvalidChallenge);
    }
    var y, checkpoints := DelayLoop(x, e.n, iterations);
    var l := GeneratePrimeL(e.oracle, x, y);
    if l.None? {
      return NoReturn;
    }
    var pi := BlockwiseProof(x, e.n, iterations, l.value, checkpoints);
    r := Package(y, pi);
    Completeness(e, challenge, iterations);
  }

  /** pi^l * x^(2^T mod l) = y (mod n) */
  predicate WesolowskiCheck(n: nat, x: nat, y: nat, pi: nat, l: nat, iterations: nat)
    requires n > 0 && l > 0
  {
    CheckValue(n, x, pi, l, iterations) == y
  }

  /** The left-hand side of the equation: the one output that `pi` supports under this divisor. */
  function CheckValue(n: nat, x: nat, pi: nat, l: nat, iterations: nat): nat
    requires n > 0 && l > 0
  {
    var r := ModPow(2, iterations, l);
    (ModPow(pi, l, n) * ModPow(x, r, n)) % n
  }

  lemma HonestPairPassesCheck(n: nat, x: nat, l: nat, iterations: nat)
    requires n > 0 && l > 0
    ensures WesolowskiCheck(n, x, Output(x, iterations, n), QuotientPower(x, iterations, l, n), l, iterations)
  {
    Pow2IsPow(iterations);
    DivModLaw(Pow2(iterations), l);
    WesolowskiEquation(x, Pow2(iterations) / l, l, Pow2(iterations) % l, n);
  }

  /** `verify` */
  function Verify(e: Engine, challenge: Hash, proof: Bytes, iterations: nat): Outcome<bool>
    requires e.n > 0
  {
    if |proof| != 512 || iterations == 0 then Err(InvalidProof)
    else
      var x := FromBE(challenge);
      var y := FromBE(proof[0..256]);
      var pi := FromBE(proof[256..512]);
      match PrimeL(e.oracle, x, y)
      case None => NoReturn
      case Some(l) =>
        Ok(WesolowskiCheck(e.n, x, y, pi, l, iterations))
  }

  /** Every outcome of `verify`, from the bytes alone: malformed input, a search that never ends, or the verdict on
      pi^l * x^(2^T mod l) = y modulo n. */
  lemma VerifyOutcome(e: Engine, challenge: Hash, proof: Bytes, iterations: nat)
    requires e.n > 0
    ensures var r := Verify(e, challenge, proof, iterations);
            && (r.Err? ==> r.error == InvalidProof)
            && (r.Err? <==> |proof| != 512 || iterations == 0)
    ensures |proof| == 512 && iterations > 0 ==>
              var x, y, pi := FromBE(challenge), FromBE(proof[0..256]), FromBE(proof[256..512]);
              var l := PrimeL(e.oracle, x, y);
              && (l.None? ==> Verify(e, challenge, proof, iterations) == NoReturn)
              && (l.Some? ==>
                    Verify(e, challenge, proof, iterations)
                    == Ok(Mul(Pow(pi, l.value), Pow(x, Pow(2, iterations) % l.value)) % e.n == y))
  {
    hide PrimeL;
    hide FromBE;
    hide Pow;
    if |proof| == 512 && iterations > 0 {
      var x, y, pi := FromBE(challenge), FromBE(proof[0..256]), FromBE(proof[256..512]);
      var l := PrimeL(e.oracle, x, y);
      if l.Some? {
        ModMul(Pow(pi, l.value), Pow(x, Pow(2, iterations) % l.value), e.n);
      }
    }
  }

  /** The prover refuses exactly the zero challenge and zero iterations. */
  lemma ProverRefusesExactlyWhen(e: Engine, challenge: Hash, iterations: nat)
    requires e.Valid()
    ensures var r := NaiveProver(e, challenge, iterations);
            && (r.Err? ==> r.error == InvalidChallenge)
            && (r.Err? <==> iterations == 0 || FromBE(challenge) == 0)
  {
    hide PrimeL;
    hide FromBE;
    hide ToBE;
    hide ModPow;
    hide Pow2;
    var x := FromBE(challenge);
    if iterations > 0 && x > 0 {
      ResidueFits(e, x, Pow2(iterations));
      var l := PrimeL(e.oracle, x, Output(x, iterations, e.n));
      if l.Some? {
        DivNonnegative(Pow2(iterations), l.value);
        ResidueFits(e, x, Pow2(iterations) / l.value);
      }
    }
  }

  /** Residues modulo the engine's modulus always fit the 256-byte slots. */
  lemma ResidueFits(e: Engine, b: nat, k: nat)
    requires e.Valid()
    ensures |ToBE(ModPow(b, k, e.n))| <= 256
  {
    ToBELength(ModPow(b, k, e.n), 256);
  }

  /** Verifying a packed pair is checking the equation on that pair, with the divisor derived from it. */
  lemma VerifyPacked(e: Engine, challenge: Hash, y: nat, pi: nat, iterations: nat)
    requires e.n > 0 && iterations > 0 && |ToBE(y)| <= 256 && |ToBE(pi)| <= 256
    ensures Verify(e, challenge, Pack(y, pi), iterations) ==
            match PrimeL(e.oracle, FromBE(challenge), y)
            case None => NoReturn
            case Some(l) => Ok(WesolowskiCheck(e.n, FromBE(challenge), y, pi, l, iterations))
  {
    PackRoundTrip(y, pi);
  }

  /** Completeness: an honest proof always verifies, and for every nonzero challenge and positive iteration
      count the prover produces one unless the prime search itself never ends. */
  lemma Completeness(e: Engine, challenge: Hash, iterations: nat)
    requires e.Valid()
    ensures var x := FromBE(challenge);
            NaiveProver(e, challenge, iterations).Ok? <==>
              iterations > 0 && x > 0 && PrimeL(e.oracle, x, Output(x, iterations, e.n)).Some?
    ensures var r := NaiveProver(e, challenge, iterations);
            r.Ok? ==> |r.value| == 512 && Verify(e, challenge, r.value, iterations) == Ok(true)
  {
    hide PrimeL;
    hide ModPow;
    hide Pow2;
    hide ToBE;
    hide FromBE;
    hide WesolowskiCheck;
    var x := FromBE(challenge);
    if iterations > 0 && x > 0 {
      var y := Output(x, iterations, e.n);
      ResidueFits(e, x, Pow2(iterations));
      match PrimeL(e.oracle, x, y)
      case None =>
      case Some(l) =>
        var pi := QuotientPower(x, iterations, l, e.n);
        ResidueFits(e, x, Pow2(iterations) / l);
        VerifyPacked(e, challenge, y, pi, iterations);
        HonestPairPassesCheck(e.n, x, l, iterations);
    }
  }

  // ----- Which outputs and which proof bytes are accepted -----

  /** The equation reads the proof modulo n. */
  lemma CheckReadsResidue(n: nat, x: nat, pi: nat, pi': nat, l: nat, iterations: nat)
    requires n > 0 && l > 0 && pi % n == pi' % n
    ensures CheckValue(n, x, pi, l, iterations) == CheckValue(n, x, pi', l, iterations)
  {
    PowModBase(pi, l, n);
    PowModBase(pi', l, n);
  }

  /** Scaling a proof by d scales the output it supports by d^l. */
  lemma CheckScales(n: nat, x: nat, pi: nat, d: nat, l: nat, iterations: nat)
    requires n > 0 && l > 0
    ensures CheckValue(n, x, Mul(pi, d) % n, l, iterations) == Mul(CheckValue(n, x, pi, l, iterations), Pow(d, l)) % n
  {
    var c := ModPow(x, ModPow(2, iterations, l), n);
    CheckAsPower(n, x, Mul(pi, d) % n, l, iterations);
    CheckAsPower(n, x, pi, l, iterations);
    PowOfProduct(pi, d, l);
    hide CheckValue;
    hide ModPow;
    ScalePower(Mul(pi, d), Pow(pi, l), Pow(d, l), c, l, n);
  }

  lemma ScalePower(base: nat, a: nat, b: nat, c: nat, l: nat, n: nat)
    requires n > 0 && Pow(base, l) == a * b
    ensures Mul(Pow(base % n, l), c) % n == Mul(Mul(a, c) % n, b) % n
  {
    PowModBase(base, l, n);
    ModMulLeft(Pow(base % n, l), c, n);
    ModMulLeft(a * b, c, n);
    ModMulLeft(a * c, b, n);
    MulAssociative(a, b, c);
    MulAssociative(a, c, b);
  }

  lemma CheckAsPower(n: nat, x: nat, pi: nat, l: nat, iterations: nat)
    requires n > 0 && l > 0
    ensures CheckValue(n, x, pi, l, iterations) == Mul(Pow(pi, l), ModPow(x, ModPow(2, iterations, l), n)) % n
  {
    ModMulLeft(Pow(pi, l), ModPow(x, ModPow(2, iterations, l), n), n);
  }

  lemma SwapMiddle(a: nat, b: nat, p: nat, q: nat)
    ensures (a * b) * (p * q) == (a * p) * (b * q)
  {
    MulAssociative(a * b, p, q);
    MulAssociative(a, b, p);
    MulAssociative(a, p, b);
    MulAssociative(a * p, b, q);
  }

  lemma {:induction false} PowOfProduct(a: nat, b: nat, e: nat)
    ensures Pow(Mul(a, b), e) == Pow(a, e) * Pow(b, e)
    decreases e
  {
    if e > 0 {
      PowOfProduct(a, b, e - 1);
      SwapMiddle(a, b, Pow(a, e - 1), Pow(b, e - 1));
    }
  }

  lemma {:induction false} PowOfOne(e: nat)
    ensures Pow(1, e) == 1
  {
    if e > 0 {
      PowOfOne(e - 1);
    }
  }

  /** The inverse of a power is the power of the inverse. */
  lemma InverseOfPower(x: nat, inverse: nat, k: nat, n: nat)
    requires n > 1 && Mul(x, inverse) % n == 1
    ensures Mul(Pow(x, k), Pow(inverse, k)) % n == 1
  {
    PowOfProduct(x, inverse, k);
    PowModBase(Mul(x, inverse), k, n);
    PowOfOne(k);
    DivModUnique(1, n, 0, 1);
  }

  /** With an invertible q every number is, modulo n, a multiple of q. */
  lemma Quotient(pi: nat, p: nat, p': nat, n: nat) returns (d: nat)
    requires n > 0 && Mul(p, p') % n == 1
    ensures Mul(p % n, d) % n == pi % n
  {
    d := Mul(pi, p');
    ModMulLeft(p, d, n);
    assert p * (pi * p') == (p * p') * pi;
    ModMulLeft(p * p', pi, n);
  }

  lemma ScaledProofSupports(n: nat, x: nat, d: nat, l: nat, iterations: nat)
    requires n > 0 && l > 0
    ensures CheckValue(n, x, Mul(QuotientPower(x, iterations, l, n), d) % n, l, iterations)
         == Mul(Output(x, iterations, n), Pow(d, l)) % n
  {
    HonestPairPassesCheck(n, x, l, iterations);
    CheckScales(n, x, QuotientPower(x, iterations, l, n), d, l, iterations);
  }

  lemma SupportedIsScaled(n: nat, x: nat, inverse: nat, pi: nat, l: nat, iterations: nat) returns (d: nat)
    requires n > 1 && l > 0 && Mul(x, inverse) % n == 1
    ensures CheckValue(n, x, pi, l, iterations) == Mul(Output(x, iterations, n), Pow(d, l)) % n
  {
    DivNonnegative(Pow2(iterations), l);
    var k: nat := Pow2(iterations) / l;
    InverseOfPower(x, inverse, k, n);
    d := Quotient(pi, Pow(x, k), Pow(inverse, k), n);
    assert QuotientPower(x, iterations, l, n) == Pow(x, k) % n;
    hide CheckValue;
    hide QuotientPower;
    hide Output;
    hide Mul;
    var scaled := Mul(QuotientPower(x, iterations, l, n), d) % n;
    ModOfMod(pi, n);
    CheckReadsResidue(n, x, scaled, pi, l, iterations);
    ScaledProofSupports(n, x, d, l, iterations);
  }

  lemma ModOfMod(a: nat, n: nat)
    requires n > 0
    ensures 0 <= a % n < n && (a % n) % n == a % n
  {
    DivModUnique(a % n, n, 0, a % n);
  }

  /** For a challenge invertible modulo n, the outputs that verification accepts with some proof are exactly the true
      output times an l-th power, l being the divisor derived from the accepted output itself. */
  lemma AcceptedExactlyWhen(e: Engine, challenge: Hash, inverse: nat, y: nat, iterations: nat)
    requires e.Valid() && iterations > 0 && |ToBE(y)| <= 256 && Mul(FromBE(challenge), inverse) % e.n == 1
    requires PrimeL(e.oracle, FromBE(challenge), y).Some?
    ensures var x, l := FromBE(challenge), PrimeL(e.oracle, FromBE(challenge), y).value;
            (exists pi: nat :: |ToBE(pi)| <= 256 && Verify(e, challenge, Pack(y, pi), iterations) == Ok(true)) <==>
            (exists d: nat :: y == Mul(Output(x, iterations, e.n), Pow(d, l)) % e.n)
  {
    hide PrimeL;
    hide CheckValue;
    hide QuotientPower;
    hide Output;
    hide Verify;
    hide Mul;
    hide ToBE;
    hide FromBE;
    hide Pow;
    var x := FromBE(challenge);
    var l := PrimeL(e.oracle, x, y).value;
    if d: nat :| y == Mul(Output(x, iterations, e.n), Pow(d, l)) % e.n {
      var pi := Mul(QuotientPower(x, iterations, l, e.n), d) % e.n;
      ScaledProofSupports(e.n, x, d, l, iterations);
      ToBELength(pi, 256);
      VerifyPacked(e, challenge, y, pi, iterations);
    }
    if pi: nat :| |ToBE(pi)| <= 256 && Verify(e, challenge, Pack(y, pi), iterations) == Ok(true) {
      VerifyPacked(e, challenge, y, pi, iterations);
      var d := SupportedIsScaled(e.n, x, inverse, pi, l, iterations);
    }
  }

  /** The proof half is read modulo n: replacing it by a congruent number never changes the verdict. */
  lemma VerdictReadsResidue(e: Engine, challenge: Hash, y: nat, pi: nat, pi': nat, iterations: nat)
    requires e.n > 0 && iterations > 0 && |ToBE(y)| <= 256 && |ToBE(pi)| <= 256 && |ToBE(pi')| <= 256
    requires pi % e.n == pi' % e.n
    ensures Verify(e, challenge, Pack(y, pi), iterations) == Verify(e, challenge, Pack(y, pi'), iterations)
  {
    hide PrimeL;
    hide CheckValue;
    hide Verify;
    hide ToBE;
    hide FromBE;
    VerifyPacked(e, challenge, y, pi, iterations);
    VerifyPacked(e, challenge, y, pi', iterations);
    var l := PrimeL(e.oracle, FromBE(challenge), y);
    if l.Some? {
      CheckReadsResidue(e.n, FromBE(challenge), pi, pi', l.value, iterations);
    }
  }

  /** Another number that fits in the proof half and reads the same modulo n. */
  predicate SecondForm(n: nat, pi: nat, other: nat)
    requires n > 0
  {
    other != pi && |ToBE(other)| <= 256 && other % n == pi % n
  }

  /** A proof half has a second form exactly when it is not reduced or its sum with n still fits in 256 bytes. */
  lemma SecondFormExactlyWhen(n: nat, pi: nat)
    requires n > 0 && |ToBE(pi)| <= 256
    ensures (exists other: nat :: SecondForm(n, pi, other)) <==> pi >= n || pi + n < Pow256(256)
  {
    hide ToBE;
    hide Pow256;
    ToBELength(pi, 256);
    if pi >= n {
      ShiftedForm(n, pi, pi - n);
    } else if pi + n < Pow256(256) {
      ShiftedForm(n, pi, pi + n);
    } else {
      forall other: nat
        ensures !SecondForm(n, pi, other)
      {
        ToBELength(other, 256);
        if |ToBE(other)| <= 256 && other % n == pi % n {
          OnlyForm(n, pi, other);
        }
      }
    }
  }

  lemma ShiftedForm(n: nat, pi: nat, other: nat)
    requires n > 0 && (other == pi + n || pi == other + n) && other < Pow256(256)
    ensures SecondForm(n, pi, other)
  {
    hide ToBE;
    hide Pow256;
    ToBELength(other, 256);
    var low := if other < pi then other else pi;
    ModAddMultiple(low, 1, n);
    assert 1 * n + low == n + low;
  }

  lemma OnlyForm(n: nat, pi: nat, other: nat)
    requires pi < n && other < pi + n && other % n == pi % n
    ensures other == pi
  {
    DivModUnique(pi, n, 0, pi);
    if other < n {
      DivModUnique(other, n, 0, other);
    } else {
      DivModUnique(other, n, 1, other - n);
    }
  }

  // ----- The negated output -----

  /** An odd power of -q is minus that power of q, modulo n. */
  lemma {:induction false} OddPowerNegates(q: nat, n: nat, l: nat) returns (t: int)
    requires q <= n && l % 2 == 1
    ensures Pow(n - q, l) + Pow(q, l) == t * n
    decreases l
  {
    hide Pow;
    var m := n - q;
    if l == 1 {
      FirstPower(m);
      FirstPower(q);
      t := 1;
    } else {
      var t' := OddPowerNegates(q, n, l - 2);
      PowTwoMore(m, l - 2);
      PowTwoMore(q, l - 2);
      t := NegatedSquareStep(m, q, n, Pow(m, l - 2), Pow(q, l - 2), t');
    }
  }

  lemma FirstPower(b: nat)
    ensures Pow(b, 1) == b
  {
    assert Pow(b, 1) == b * Pow(b, 0);
  }

  lemma PowTwoMore(b: nat, e: nat)
    ensures Pow(b, e + 2) == b * (b * Pow(b, e))
  {
    assert Pow(b, e + 2) == b * Pow(b, e + 1);
    assert Pow(b, e + 1) == b * Pow(b, e);
  }

  lemma Distribute(a: int, b: int, c: int)
    ensures (a + b) * c == a * c + b * c
  {
  }

  lemma Reassociate(a: int, b: int, c: int)
    ensures (a * b) * c == a * (b * c) && (a * b) * c == (b * c) * a
  {
  }

  lemma NegatedSquareStep(m: nat, q: nat, n: nat, a: nat, b: nat, t: int) returns (t': int)
    requires m == n - q && a + b == t * n
    ensures m * (m * a) + q * (q * b) == t' * n
  {
    NegatedSquare(m, q, n);
    MulAssociative(m, m, a);
    MulAssociative(q, q, b);
    t' := NegatedSum(n, m - q, q * q, a, b, t);
  }

  lemma NegatedSquare(m: nat, q: nat, n: nat)
    requires m == n - q
    ensures m * m == n * (m - q) + q * q
  {
    Distribute(m, q, m - q);
    assert m * (m - q) == m * m - m * q && q * (m - q) == q * m - q * q;
  }

  lemma NegatedSum(n: nat, u: int, s: nat, a: nat, b: nat, t: int) returns (t': int)
    requires a + b == t * n
    ensures (n * u + s) * a + s * b == t' * n
  {
    t' := u * a + s * t;
    Distribute(n * u, s, a);
    Distribute(a, b, s);
    Distribute(u * a, s * t, n);
    Reassociate(n, u, a);
    Reassociate(s, t, n);
  }

  /** Complementary residues: if u + v is a multiple of n and v is not, u's residue is what v's lacks. */
  lemma Complement(a: nat, b: nat, c: nat, n: nat, t: int)
    requires n > 0 && a + b == t * n && Mul(b, c) % n > 0
    ensures Mul(a, c) % n == n - Mul(b, c) % n
  {
    var r, q := (b * c) % n, (b * c) / n;
    DivModLaw(b * c, n);
    Distribute(a, b, c);
    Reassociate(t, n, c);
    Reassociate(t, c, n);
    Distribute(t * c, -q - 1, n);
    assert (-q - 1) * n == -(q * n) - n by { Distribute(-q, -1, n); }
    assert n * c == c * n;
    assert a * c == (t * c - q - 1) * n + (n - r);
    DivModUnique(a * c, n, t * c - q - 1, n - r);
  }

  /** Which output the honest proof and its negation support: for an odd divisor, the true output and its negation,
      and nothing else. */
  lemma HonestProofSupportsExactly(n: nat, x: nat, y: nat, l: nat, iterations: nat)
    requires n > 0 && l % 2 == 1 && Output(x, iterations, n) > 0
    ensures var q, out := QuotientPower(x, iterations, l, n), Output(x, iterations, n);
            && (WesolowskiCheck(n, x, y, q, l, iterations) <==> y == out)
            && 0 < q < n
            && (WesolowskiCheck(n, x, y, n - q, l, iterations) <==> y == n - out)
  {
    var q, c := QuotientPower(x, iterations, l, n), ModPow(x, ModPow(2, iterations, l), n);
    HonestPairPassesCheck(n, x, l, iterations);
    ZeroProofSupportsZero(n, x, l, iterations);
    CheckAsPower(n, x, q, l, iterations);
    CheckAsPower(n, x, n - q, l, iterations);
    var t := OddPowerNegates(q, n, l);
    hide CheckValue;
    Complement(Pow(n - q, l), Pow(q, l), c, n, t);
  }

  lemma ZeroProofSupportsZero(n: nat, x: nat, l: nat, iterations: nat)
    requires n > 0 && l > 0
    ensures CheckValue(n, x, 0, l, iterations) == 0
  {
    assert Pow(0, l) == 0 * Pow(0, l - 1);
    DivModUnique(0, n, 0, 0);
  }

  /** The equation holds up to sign: for every challenge with a nonzero output, the negated output with the negated
      proof for its own divisor is accepted like the true one. */
  lemma NegatedOutputVerifies(e: Engine, challenge: Hash, iterations: nat, y: nat, l: nat, pi: nat)
    requires e.Valid() && iterations > 0 && Output(FromBE(challenge), iterations, e.n) > 0
    requires y == e.n - Output(FromBE(challenge), iterations, e.n)
    requires PrimeL(e.oracle, FromBE(challenge), y).Some? && PrimeL(e.oracle, FromBE(challenge), y).value == l
    requires pi == e.n - QuotientPower(FromBE(challenge), iterations, l, e.n)
    ensures |ToBE(y)| <= 256 && |ToBE(pi)| <= 256 && Verify(e, challenge, Pack(y, pi), iterations) == Ok(true)
  {
    hide PrimeL;
    hide QuotientPower;
    hide Output;
    hide CheckValue;
    hide Verify;
    hide ToBE;
    hide FromBE;
    hide Pow2;
    hide Pow256;
    PrimeLRange(e.oracle, FromBE(challenge), y);
    HonestProofSupportsExactly(e.n, FromBE(challenge), y, l, iterations);
    ToBELength(y, 256);
    ToBELength(pi, 256);
    VerifyPacked(e, challenge, y, pi, iterations);
  }

  /** The pair of zeros satisfies the equation for every challenge. */
  lemma ZeroPairSatisfiesEquation(e: Engine, challenge: Hash, iterations: nat)
    requires e.n > 0 && iterations > 0
    ensures Verify(e, challenge, Zeros(512), iterations)
         == if PrimeL(e.oracle, FromBE(challenge), 0).None? then NoReturn else Ok(true)
  {
    hide PrimeL;
    hide FromBE;
    hide CheckValue;
    var x := FromBE(challenge);
    assert Zeros(512)[0..256] == Zeros(256) + [] && Zeros(512)[256..512] == Zeros(256) + [];
    LeadingZerosVanish(256, []);
    assert FromBE([]) == 0 by { EmptyIsZero(); }
    if PrimeL(e.oracle, x, 0).Some? {
      ZeroProofSupportsZero(e.n, x, PrimeL(e.oracle, x, 0).value, iterations);
    }
  }

  lemma EmptyIsZero()
    ensures FromBE([]) == 0
  {
  }
}
