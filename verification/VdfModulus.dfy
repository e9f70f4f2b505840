/** The engine as the repository instantiates it, over the 1991 RSA-2048 challenge number. */
module RsaModulus {
  import opened Numbers
  import opened ByteStrings
  import opened HashToPrime
  import opened RsaVdf

  const RSA_2048_MODULUS: nat :=
    25195908475657893494027183240048398571429282126204032027777137836043662020707595556264018525880784406918290641249515082189298559149176184502808489120072844992687392807287776735971418347270261896375014971824691165077613379859095700097330459748808428401797429100642458691817195118746121515172654632282216869987549182422433637259085141865462043576798423387184774447920739934236584823824281198163815010674810451660377306056201619676256133844143603833904414952634432190114657544454178424020924616515723350778707749817125772467962926386356373289912154831438167899885040445364023527381951378636564391212010397122822120720357

  /** `RsaVdfEngine::new` */
  function NewEngine(o: Oracle): Engine { Engine(RSA_2048_MODULUS, o) }

  lemma {:induction false} Pow256Double(n: nat)
    ensures Pow256(2 * n) == Pow256(n) * Pow256(n)
  {
    Pow256IsPow2(2 * n);
    Pow256IsPow2(n);
    Pow2Add(8 * n, 8 * n);
  }

  lemma SquareLiteral(n: nat, p: nat, q: nat)
    requires Pow256(n) == p && p * p == q
    ensures Pow256(2 * n) == q
  {
    Pow256Double(n);
  }

  /** The hard-coded modulus is odd and has exactly 2048 bits, so completeness applies to the engine in use. */
  lemma NewEngineIsValid(o: Oracle)
    ensures NewEngine(o).Valid() && NewEngine(o).oracle == o
    ensures 2 * NewEngine(o).n >= Pow256(256) && NewEngine(o).n % 2 == 1
  {
    hide Pow256;
    Pow256Literals();
    SquareLiteral(8, 0x1_0000_0000_0000_0000, 0x100000000000000000000000000000000);
    SquareLiteral(16, 0x100000000000000000000000000000000, 0x10000000000000000000000000000000000000000000000000000000000000000);
    SquareLiteral(32, 0x10000000000000000000000000000000000000000000000000000000000000000, 0x100000000000000000000000000000000000000000000000000000000000000000000000000000000000000000000000000000000000000000000000000000000);
    SquareLiteral(64, 0x100000000000000000000000000000000000000000000000000000000000000000000000000000000000000000000000000000000000000000000000000000000, 0x10000000000000000000000000000000000000000000000000000000000000000000000000000000000000000000000000000000000000000000000000000000000000000000000000000000000000000000000000000000000000000000000000000000000000000000000000000000000000000000000000000000000000000);
    SquareLiteral(128, 0x10000000000000000000000000000000000000000000000000000000000000000000000000000000000000000000000000000000000000000000000000000000000000000000000000000000000000000000000000000000000000000000000000000000000000000000000000000000000000000000000000000000000000000, 0x100000000000000000000000000000000000000000000000000000000000000000000000000000000000000000000000000000000000000000000000000000000000000000000000000000000000000000000000000000000000000000000000000000000000000000000000000000000000000000000000000000000000000000000000000000000000000000000000000000000000000000000000000000000000000000000000000000000000000000000000000000000000000000000000000000000000000000000000000000000000000000000000000000000000000000000000000000000000000000000000000000000000000000000000000000000);
  }
}
