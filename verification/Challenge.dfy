/** Epoch-bound identity proof of work, kinetic-network/src/challenge.rs, and the host's re-verification cache,
    kinetic-host/src/hot_swap.rs. */
module Challenge {
  import opened Numbers
  import opened ByteStrings
  import opened Results

  const EPOCH_KYNS: nat := 1440

  /** `u8::leading_zeros` */
  function ByteZeros(b: byte): (z: nat)
    ensures z <= 8
    ensures b > 0 ==> z <= 7 && Pow2(7 - z) <= b < Pow2(8 - z)
  {
    PowersUpTo8();
    if b >= 128 then 0 else if b >= 64 then 1 else if b >= 32 then 2 else if b >= 16 then 3
    else if b >= 8 then 4 else if b >= 4 then 5 else if b >= 2 then 6 else if b >= 1 then 7 else 8
  }

  lemma PowersUpTo8()
    ensures Pow2(0) == 1 && Pow2(1) == 2 && Pow2(2) == 4 && Pow2(3) == 8 && Pow2(4) == 16
    ensures Pow2(5) == 32 && Pow2(6) == 64 && Pow2(7) == 128 && Pow2(8) == 256
  {
  }

  function ZeroBits(hash: Bytes): nat {
    if |hash| == 0 then 0
    else if hash[0] == 0 then 8 + ZeroBits(hash[1..])
    else ByteZeros(hash[0])
  }

  /** `leading_zeros` */
  method LeadingZeros(hash: Bytes) returns (zeros: nat)
    ensures zeros == ZeroBits(hash)
  {
    hide ByteZeros;
    zeros := 0;
    for i := 0 to |hash|
      invariant zeros + ZeroBits(hash[i..]) == ZeroBits(hash)
    {
      assert hash[i..][1..] == hash[i + 1..];
      if hash[i] == 0 {
        zeros := zeros + 8;
      } else {
        zeros := zeros + ByteZeros(hash[i]);
        return;
      }
    }
  }

  lemma EmptyIsZero()
    ensures FromBE([]) == 0
  {
  }

  lemma ScaleBounds(h: nat, p: nat, lo: nat, hi: nat, rest: nat)
    requires lo <= h < hi && rest < p
    ensures lo * p <= h * p + rest < hi * p
  {
    MulMonotone(p, lo, h);
    MulMonotone(p, h + 1, hi);
    assert p * (h + 1) == p * h + p;
    assert p * lo == lo * p && p * h == h * p && p * hi == hi * p;
  }

  /** A first nonzero byte with z leading zeros puts the value in [2^(bits-1-z), 2^(bits-z)). */
  lemma FirstByteRange(hash: Bytes)
    requires |hash| > 0 && hash[0] > 0
    ensures var z := ByteZeros(hash[0]); Pow2(8 * |hash| - 1 - z) <= FromBE(hash) < Pow2(8 * |hash| - z)
  {
    hide FromBE;
    hide Pow256;
    hide ByteZeros;
    hide Pow2;
    var z, tail := ByteZeros(hash[0]), hash[1..];
    FromBEFront(hash);
    FromBEBound(tail);
    var p := Pow256(|tail|);
    Pow256IsPow2(|tail|);
    ScaleBounds(hash[0], p, Pow2(7 - z), Pow2(8 - z), FromBE(tail));
    Pow2Add(7 - z, 8 * |tail|);
    Pow2Add(8 - z, 8 * |tail|);
  }

  lemma NonzeroFirstByte(hash: Bytes, d: nat)
    requires d <= 8 * |hash| && |hash| > 0 && hash[0] > 0
    ensures ByteZeros(hash[0]) >= d <==> FromBE(hash) < Pow2(8 * |hash| - d)
  {
    hide Pow2;
    hide ByteZeros;
    hide FromBE;
    var z := ByteZeros(hash[0]);
    FirstByteRange(hash);
    if d <= z {
      Pow2Monotone(8 * |hash| - z, 8 * |hash| - d);
    } else {
      Pow2Monotone(8 * |hash| - d, 8 * |hash| - 1 - z);
    }
  }

  lemma ZeroFirstByte(hash: Bytes)
    requires |hash| > 0 && hash[0] == 0
    ensures FromBE(hash) == FromBE(hash[1..]) < Pow2(8 * |hash| - 8)
  {
    hide Pow2;
    hide FromBE;
    hide Pow256;
    FromBEFront(hash);
    FromBEBound(hash[1..]);
    Pow256IsPow2(|hash| - 1);
  }

  /** At least d leading zero bits means exactly: the big-endian value is below 2^(bits - d). */
  lemma {:induction false} ZeroBitsMeanSmall(hash: Bytes, d: nat)
    requires d <= 8 * |hash|
    ensures ZeroBits(hash) >= d <==> FromBE(hash) < Pow2(8 * |hash| - d)
    decreases |hash|
  {
    hide Pow2;
    hide ByteZeros;
    hide FromBE;
    if |hash| == 0 {
      PowersUpTo8();
      EmptyIsZero();
    } else if hash[0] > 0 {
      NonzeroFirstByte(hash, d);
    } else {
      ZeroFirstByte(hash);
      if d > 8 {
        ZeroBitsMeanSmall(hash[1..], d - 8);
      } else {
        Pow2Monotone(8 * |hash| - 8, 8 * |hash| - d);
      }
    }
  }

  /** The last eight bytes of the peer id, right-aligned, reduced to one epoch. */
  function Offset(peer: Bytes): (o: nat)
    ensures o < EPOCH_KYNS
  {
    var bytes := if |peer| >= 8 then peer[|peer| - 8..] else Zeros(8 - |peer|) + peer;
    FromBE(bytes) % EPOCH_KYNS
  }

  /** The offset is the big-endian value of the whole peer id, cut to 64 bits and reduced to one epoch. */
  lemma OffsetIsValueOfPeer(peer: Bytes)
    ensures Offset(peer) == (FromBE(peer) % U64_LIMIT) % EPOCH_KYNS
  {
    hide FromBE;
    Pow256Literals();
    if |peer| >= 8 {
      var front, tail := peer[..|peer| - 8], peer[|peer| - 8..];
      assert peer == front + tail;
      FromBESplit(front, tail);
      FromBEBound(tail);
      DivModUnique(FromBE(peer), U64_LIMIT, FromBE(front), FromBE(tail));
    } else {
      LeadingZerosVanish(8 - |peer|, peer);
      FromBEBound(Zeros(8 - |peer|) + peer);
      DivModUnique(FromBE(peer), U64_LIMIT, 0, FromBE(peer));
    }
  }

  /** `staggered_epoch` */
  function StaggeredEpoch(peer: Bytes, kyn: u64): u64 {
    SaturatedTime(peer, kyn) / EPOCH_KYNS
  }

  function SaturatedTime(peer: Bytes, kyn: u64): (t: u64)
    ensures t == Min(kyn + Offset(peer), U64_LIMIT - 1)
  {
    var o := Offset(peer);
    if kyn + o < U64_LIMIT then kyn + o else U64_LIMIT - 1
  }

  /** Argon2id over (peer, epoch), None when it cannot allocate; the threshold; and development mode. */
  datatype Setup = Setup(powHash: (Bytes, u64) -> Option<Hash>, difficulty: nat, devMode: bool)

  /** The identity meets the threshold for one epoch. */
  predicate Meets(s: Setup, peer: Bytes, epoch: u64) {
    var h := s.powHash(peer, epoch);
    h.Some? && ZeroBits(h.value) >= s.difficulty
  }

  /** Valid in an epoch: proof of work for that epoch or the one before. */
  predicate ValidInEpoch(s: Setup, peer: Bytes, epoch: u64) {
    Meets(s, peer, epoch) || (epoch > 0 && Meets(s, peer, epoch - 1))
  }

  /** `verify_p2p_challenge` */
  function Verify(s: Setup, peer: Bytes, kyn: u64): bool {
    if s.devMode then true
    else if kyn == 0 then false
    else ValidInEpoch(s, peer, StaggeredEpoch(peer, kyn))
  }

  /** Meeting the threshold means a hash below 2^(256 - difficulty). */
  lemma MeetsExactlyWhen(s: Setup, peer: Bytes, epoch: u64)
    ensures Meets(s, peer, epoch) <==>
            && s.powHash(peer, epoch).Some? && s.difficulty <= 256
            && FromBE(s.powHash(peer, epoch).value) < Pow2(256 - s.difficulty)
  {
    hide FromBE;
    hide Pow2;
    var h := s.powHash(peer, epoch);
    if h.Some? {
      ZeroBitsAtMost(h.value);
      if s.difficulty <= 256 {
        ZeroBitsMeanSmall(h.value, s.difficulty);
      }
    }
  }

  lemma {:induction false} ZeroBitsAtMost(hash: Bytes)
    ensures ZeroBits(hash) <= 8 * |hash|
    decreases |hash|
  {
    hide ByteZeros;
    if |hash| > 0 && hash[0] == 0 {
      ZeroBitsAtMost(hash[1..]);
    }
  }

  /** Verification, from the hash values alone: development mode, or away from kyn zero a hash below 2^(256 -
      difficulty) for the current staggered epoch or the one before it. */
  lemma VerifyExactlyWhen(s: Setup, peer: Bytes, kyn: u64)
    ensures var epoch := Min(kyn + FromBE(peer) % U64_LIMIT % 1440, U64_LIMIT - 1) / 1440;
            Verify(s, peer, kyn) <==>
            || s.devMode
            || (kyn > 0 && s.difficulty <= 256 &&
                exists e: u64 :: (e == epoch || e == epoch - 1) && s.powHash(peer, e).Some? &&
                                 FromBE(s.powHash(peer, e).value) < Pow2(256 - s.difficulty))
  {
    hide FromBE;
    hide Pow2;
    hide Offset;
    hide Meets;
    OffsetIsValueOfPeer(peer);
    var epoch := StaggeredEpoch(peer, kyn);
    MeetsExactlyWhen(s, peer, epoch);
    if epoch > 0 {
      MeetsExactlyWhen(s, peer, epoch - 1);
    }
  }

  /** The i-th identity is the first to meet the threshold for its own epoch. */
  ghost predicate FirstToMeet(s: Setup, kyn: u64, generated: seq<Bytes>, i: nat) {
    && i < |generated| && Meets(s, generated[i], StaggeredEpoch(generated[i], kyn))
    && forall j :: 0 <= j < i ==> !Meets(s, generated[j], StaggeredEpoch(generated[j], kyn))
  }

  /** `solve_p2p_challenge` over the identities it generates, in order; None while it is still searching. */
  method Solve(s: Setup, kyn: u64, generated: seq<Bytes>) returns (peer: Option<Bytes>)
    requires kyn > 0 || s.devMode
    ensures peer.Some? && !s.devMode ==>
              exists i: nat :: FirstToMeet(s, kyn, generated, i) && peer.value == generated[i]
    ensures peer.None? ==> forall i :: 0 <= i < |generated| ==> !Meets(s, generated[i], StaggeredEpoch(generated[i], kyn))
    ensures s.devMode && |generated| > 0 ==> peer == Some(generated[0])
  {
    hide StaggeredEpoch;
    hide Meets;
    if s.devMode && |generated| > 0 {
      return Some(generated[0]);
    }
    for i := 0 to |generated|
      invariant forall j :: 0 <= j < i ==> !Meets(s, generated[j], StaggeredEpoch(generated[j], kyn))
    {
      if Meets(s, generated[i], StaggeredEpoch(generated[i], kyn)) {
        assert FirstToMeet(s, kyn, generated, i);
        return Some(generated[i]);
      }
    }
    peer := None;
  }

  /** One epoch of time moves the staggered epoch by at most one, even where the addition saturates. */
  lemma EpochAdvancesAtMostOne(peer: Bytes, k: u64, k': u64)
    requires k <= k' <= k + EPOCH_KYNS
    ensures StaggeredEpoch(peer, k) <= StaggeredEpoch(peer, k') <= StaggeredEpoch(peer, k) + 1
  {
    hide Offset;
    var t, t' := SaturatedTime(peer, k), SaturatedTime(peer, k');
    assert t <= t';
    assert t' - t <= 1440;
  }

  /** Any identity solved at kyn k verifies at every kyn from k to k + EPOCH_KYNS. */
  lemma SolvedStaysValid(s: Setup, peer: Bytes, k: u64, k': u64)
    requires k > 0 && k <= k' <= k + EPOCH_KYNS
    requires Meets(s, peer, StaggeredEpoch(peer, k))
    ensures Verify(s, peer, k')
  {
    hide StaggeredEpoch;
    hide Meets;
    EpochAdvancesAtMostOne(peer, k, k');
  }

  /** Which kyns accept the work of epoch e: exactly a window of two epochs, shifted by the peer's own offset. */
  lemma WorkAcceptedExactlyTwoEpochs(peer: Bytes, e: u64, k: u64)
    requires k + Offset(peer) < U64_LIMIT
    ensures StaggeredEpoch(peer, k) == e || StaggeredEpoch(peer, k) == e + 1
       <==> EPOCH_KYNS * e <= k + Offset(peer) < EPOCH_KYNS * (e + 2)
  {
    hide Offset;
  }

  /** Away from kyn zero, verification sees the kyn only through the staggered epoch. */
  lemma VerifyDependsOnEpoch(s: Setup, peer: Bytes, k: u64, k': u64)
    requires k > 0 && k' > 0 && StaggeredEpoch(peer, k) == StaggeredEpoch(peer, k')
    ensures Verify(s, peer, k) == Verify(s, peer, k')
  {
  }

  /** One heartbeat: the fetched kyn and the identity that would be mined if a swap is needed. */
  datatype Tick = Tick(kyn: u64, mined: Bytes)

  /** The heartbeat loop's state in `start_beacon_heartbeat`. */
  class Heartbeat {
    var peer: Bytes
    var lastVerified: Option<u64>
    const setup: Setup

    /** A cached epoch was verified for the current identity. */
    ghost predicate CacheSound()
      reads this
    {
      lastVerified.Some? ==> setup.devMode || ValidInEpoch(setup, peer, lastVerified.value)
    }

    constructor (s: Setup, initial: Bytes)
      ensures setup == s && peer == initial && lastVerified == None && CacheSound()
    {
      setup, peer, lastVerified := s, initial, None;
    }

    method OnTick(t: Tick) returns (swapped: bool)
      requires CacheSound()
      modifies this
      ensures CacheSound()
      ensures (peer, lastVerified) == CachedStep(setup, old(peer), old(lastVerified), t)
      ensures peer == if swapped then t.mined else old(peer)
      // The cached decision is the uncached one, except when a zero kyn hits a cached epoch.
      ensures swapped == !Verify(setup, old(peer), t.kyn) <==>
              !(t.kyn == 0 && !setup.devMode && old(lastVerified) == Some(StaggeredEpoch(old(peer), 0)))
      ensures swapped ==> lastVerified == None
      ensures !swapped ==> lastVerified == Some(StaggeredEpoch(peer, t.kyn))
    {
      hide StaggeredEpoch;
      hide ValidInEpoch;
      var epoch := StaggeredEpoch(peer, t.kyn);
      var needsValidation := lastVerified != Some(epoch);
      swapped := false;
      if needsValidation {
        var valid := Verify(setup, peer, t.kyn);
        if !valid {
          peer := t.mined;
          lastVerified := None;
          swapped := true;
        } else {
          lastVerified := Some(epoch);
        }
      }
    }
  }

  /** One cached heartbeat as a function of (identity, cache). */
  function CachedStep(s: Setup, peer: Bytes, cache: Option<u64>, t: Tick): (Bytes, Option<u64>) {
    var epoch := StaggeredEpoch(peer, t.kyn);
    if cache == Some(epoch) then (peer, cache)
    else if Verify(s, peer, t.kyn) then (peer, Some(epoch))
    else (t.mined, None)
  }

  function CachedRun(s: Setup, peer: Bytes, cache: Option<u64>, ticks: seq<Tick>): Bytes
    decreases |ticks|
  {
    if |ticks| == 0 then peer
    else
      var (peer', cache') := CachedStep(s, peer, cache, ticks[0]);
      CachedRun(s, peer', cache', ticks[1..])
  }

  /** A heartbeat loop that verifies on every tick. */
  function PlainRun(s: Setup, peer: Bytes, ticks: seq<Tick>): Bytes
    decreases |ticks|
  {
    if |ticks| == 0 then peer
    else PlainRun(s, if Verify(s, peer, ticks[0].kyn) then peer else ticks[0].mined, ticks[1..])
  }

  /** The cache never changes which identity the host ends up with, over any run of nonzero kyns. */
  lemma {:induction false} CacheRefinesPlainLoop(s: Setup, peer: Bytes, cache: Option<u64>, ticks: seq<Tick>)
    requires cache.Some? ==> s.devMode || ValidInEpoch(s, peer, cache.value)
    requires forall i :: 0 <= i < |ticks| ==> ticks[i].kyn > 0
    ensures CachedRun(s, peer, cache, ticks) == PlainRun(s, peer, ticks)
    decreases |ticks|
  {
    hide StaggeredEpoch;
    hide ValidInEpoch;
    if |ticks| > 0 {
      var (peer', cache') := CachedStep(s, peer, cache, ticks[0]);
      CacheRefinesPlainLoop(s, peer', cache', ticks[1..]);
    }
  }
}
