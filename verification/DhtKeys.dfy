/** Hash preimages of kinetic-types: replicated DHT keys and delay-function commitments. */
module DhtKeys {
  import opened ByteStrings
  import opened Records

  const M_REDUNDANCY: nat := 32

  datatype Kind = Storage | HeartbeatKey

  function KindTag(k: Kind): Bytes { Ascii(if k.Storage? then "storage" else "heartbeat") }

  /** `norm` is `name` without its trailing dots. */
  ghost predicate IsStripped(norm: string, name: string) {
    && |norm| <= |name|
    && (forall i :: 0 <= i < |norm| ==> norm[i] == name[i])
    && (forall i :: |norm| <= i < |name| ==> name[i] == '.')
    && (|norm| > 0 ==> norm[|norm| - 1] != '.')
  }

  /** `normalize_name` after lower-casing: trailing dots popped one by one. */
  method StripTrailingDots(name: string) returns (norm: string)
    ensures IsStripped(norm, name)
  {
    norm := name;
    while |norm| > 0 && norm[|norm| - 1] == '.'
      invariant |norm| <= |name| && norm == name[..|norm|]
      invariant forall i :: |norm| <= i < |name| ==> name[i] == '.'
    {
      norm := norm[..|norm| - 1];
    }
  }

  lemma StrippedNotLonger(a: string, b: string, name: string)
    requires IsStripped(a, name) && IsStripped(b, name)
    ensures |a| <= |b|
  {
  }

  /** Stripping has one possible answer. */
  lemma StrippedIsUnique(a: string, b: string, name: string)
    requires IsStripped(a, name) && IsStripped(b, name)
    ensures a == b
  {
    StrippedNotLonger(a, b, name);
    StrippedNotLonger(b, a, name);
  }

  function Dots(n: nat): string { seq(n, _ => '.') }

  /** Names that differ only in trailing dots strip alike. */
  lemma TrailingDotsDoNotMatter(a: string, b: string, m: string, dots: nat)
    requires IsStripped(a, m) && IsStripped(b, m + Dots(dots))
    ensures a == b
  {
    var long := m + Dots(dots);
    forall i | |a| <= i < |long|
      ensures long[i] == '.'
    {
      assert i >= |m| ==> long[i] == Dots(dots)[i - |m|];
    }
    assert IsStripped(a, long);
    StrippedIsUnique(a, b, long);
  }

  /** Names that strip alike differ only in trailing dots. */
  lemma StripsAlikeExactlyWhen(m: string, n: string, a: string, b: string)
    requires IsStripped(a, m) && IsStripped(b, n) && |m| <= |n|
    ensures a == b <==> n == m + Dots(|n| - |m|)
  {
    if a == b {
      forall i | 0 <= i < |n|
        ensures n[i] == (m + Dots(|n| - |m|))[i]
      {
      }
    } else if n == m + Dots(|n| - |m|) {
      TrailingDotsDoNotMatter(a, b, m, |n| - |m|);
      assert false;
    }
  }

  function Preimage(k: Kind, networkSalt: Hash, name: Bytes, index: byte): Bytes {
    networkSalt + KindTag(k) + name + [index]
  }

  /** `derive_storage_keys` and `derive_heartbeat_keys` on an already normalized name. */
  method DeriveKeys(k: Kind, networkSalt: Hash, name: Bytes, sha256: Bytes -> Hash) returns (keys: seq<Hash>)
    ensures |keys| == 32
    ensures forall i :: 0 <= i < 32 ==> keys[i] == sha256(Preimage(k, networkSalt, name, i))
  {
    keys := [];
    for i := 0 to M_REDUNDANCY
      invariant |keys| == i
      invariant forall j :: 0 <= j < i ==> keys[j] == sha256(Preimage(k, networkSalt, name, j))
    {
      var data: Bytes := [];
      data := data + networkSalt;
      data := data + KindTag(k);
      data := data + name;
      data := data + [i];
      assert data == Preimage(k, networkSalt, name, i);
      keys := keys + [sha256(data)];
    }
  }

  /** A DHT preimage determines its kind, network, name and replica index. */
  lemma PreimageInjective(k: Kind, saltA: Hash, m: Bytes, i: byte, k': Kind, saltB: Hash, n: Bytes, j: byte)
    ensures Preimage(k, saltA, m, i) == Preimage(k', saltB, n, j) <==> k == k' && saltA == saltB && m == n && i == j
  {
    var x, y := Preimage(k, saltA, m, i), Preimage(k', saltB, n, j);
    if x == y {
      assert x[..32] == saltA && y[..32] == saltB;
      assert x[32] == KindTag(k)[0] && y[32] == KindTag(k')[0];
      assert k == k';
      var at := 32 + |KindTag(k)|;
      assert x[at..|x| - 1] == m && y[at..|y| - 1] == n;
      assert x[|x| - 1] == i && y[|y| - 1] == j;
    }
  }

  /** With a hash that does not collide on these preimages, no two names, kinds or replicas share a key. */
  lemma KeysNeverShared(k: Kind, salt: Hash, m: Bytes, i: byte, k': Kind, n: Bytes, j: byte, sha256: Bytes -> Hash)
    requires sha256(Preimage(k, salt, m, i)) == sha256(Preimage(k', salt, n, j)) ==>
               Preimage(k, salt, m, i) == Preimage(k', salt, n, j)
    ensures sha256(Preimage(k, salt, m, i)) == sha256(Preimage(k', salt, n, j)) <==> k == k' && m == n && i == j
  {
    PreimageInjective(k, salt, m, i, k', salt, n, j);
  }

  /** `Commitment::derive` hashes this; `drandRand` is the digest of the beacon signature. */
  function CommitmentPreimage(networkSalt: Hash, name: Bytes, userSalt: Hash, drandRand: Hash, pubkey: Bytes): Bytes {
    networkSalt + name + userSalt + drandRand + pubkey
  }

  /** With public keys of one length, the commitment preimage determines everything it binds. */
  lemma CommitmentInjective(
    saltA: Hash, m: Bytes, userA: Hash, randA: Hash, keyA: Bytes,
    saltB: Hash, n: Bytes, userB: Hash, randB: Hash, keyB: Bytes)
    requires |keyA| == |keyB|
    ensures CommitmentPreimage(saltA, m, userA, randA, keyA) == CommitmentPreimage(saltB, n, userB, randB, keyB)
       <==> saltA == saltB && m == n && userA == userB && randA == randB && keyA == keyB
  {
    var x := CommitmentPreimage(saltA, m, userA, randA, keyA);
    var y := CommitmentPreimage(saltB, n, userB, randB, keyB);
    if x == y {
      var a := 32 + |m|;
      assert x[..32] == saltA && y[..32] == saltB;
      assert x[32..a] == m && y[32..a] == n;
      assert x[a..a + 32] == userA && y[a..a + 32] == userB;
      assert x[a + 32..a + 64] == randA && y[a + 32..a + 64] == randB;
      assert x[a + 64..] == keyA && y[a + 64..] == keyB;
    }
  }

  /** Key lengths for which equal preimages always mean equal inputs. */
  ghost predicate BindsAtLengths(a: nat, b: nat) {
    forall saltA: Hash, m: Bytes, userA: Hash, randA: Hash, keyA: Bytes,
           saltB: Hash, n: Bytes, userB: Hash, randB: Hash, keyB: Bytes ::
      |keyA| == a && |keyB| == b
      && CommitmentPreimage(saltA, m, userA, randA, keyA) == CommitmentPreimage(saltB, n, userB, randB, keyB)
      ==> saltA == saltB && m == n && userA == userB && randA == randB && keyA == keyB
  }

  /** Name and key are not framed, so the commitment binds its inputs exactly between keys of the same length. */
  lemma CommitmentBindsExactlyAtEqualLengths(a: nat, b: nat)
    ensures BindsAtLengths(a, b) <==> a == b
  {
    if a == b {
      forall saltA: Hash, m: Bytes, userA: Hash, randA: Hash, keyA: Bytes,
             saltB: Hash, n: Bytes, userB: Hash, randB: Hash, keyB: Bytes |
        |keyA| == a && |keyB| == b
        && CommitmentPreimage(saltA, m, userA, randA, keyA) == CommitmentPreimage(saltB, n, userB, randB, keyB)
        ensures saltA == saltB && m == n && userA == userB && randA == randB && keyA == keyB
      {
        CommitmentInjective(saltA, m, userA, randA, keyA, saltB, n, userB, randB, keyB);
      }
    } else {
      var z: Hash := Zeros(32);
      var m, n := Zeros(if a < b then b - a else 0), Zeros(if b < a then a - b else 0);
      assert CommitmentPreimage(z, m, z, z, Zeros(a)) == CommitmentPreimage(z, n, z, z, Zeros(b));
      assert |Zeros(a)| == a && |Zeros(b)| == b && m != n;
    }
  }
}
