/** Pause bookkeeping measured against the set of paused kyns. */
module PauseAccounting {
  import opened Numbers
  import opened ActionCodec
  import opened Actions

  ghost predicate InPause(pauses: seq<(u64, u64)>, k: int) {
    exists i :: 0 <= i < |pauses| && pauses[i].0 <= k < pauses[i].1
  }

  /** The paused kyns at or after `target`: kyns inside some closed pause. */
  ghost function PausedKyns(pauses: seq<(u64, u64)>, target: u64): set<int> {
    set k | target <= k < U64_LIMIT && InPause(pauses, k)
  }

  /** Closed pauses in order, disjoint, none ending after `clock`. */
  ghost predicate OrderedPauses(pauses: seq<(u64, u64)>, clock: u64) {
    && (forall i :: 0 <= i < |pauses| ==> pauses[i].0 <= pauses[i].1 <= clock)
    && (forall i, j :: 0 <= i < j < |pauses| ==> pauses[i].1 <= pauses[j].0)
  }

  /** What holds of the bookkeeping in every state reachable by time `clock`. */
  ghost predicate PausesAccounted(s: State, clock: u64) {
    && OrderedPauses(s.pauses, clock)
    && (s.isHalted <==> s.haltStart.Some?)
    && (s.haltStart.Some? ==>
          s.haltStart.value <= clock && forall i :: 0 <= i < |s.pauses| ==> s.pauses[i].1 <= s.haltStart.value)
    && s.totalPaused == PausedSince(s.pauses, 0)
  }

  ghost function Interval(a: int, b: int): (s: set<int>)
    requires a <= b
    ensures forall k :: k in s <==> a <= k < b
    ensures |s| == b - a
    decreases b - a
  {
    if a == b then {} else Interval(a, b - 1) + {b - 1}
  }

  lemma {:induction false} SubsetSize(a: set<int>, b: set<int>)
    requires a <= b
    ensures |a| <= |b|
  {
    assert b == a + (b - a);
  }

  lemma OrderedPrefix(pauses: seq<(u64, u64)>, clock: u64)
    requires |pauses| > 0 && OrderedPauses(pauses, clock)
    ensures OrderedPauses(pauses[..|pauses| - 1], pauses[|pauses| - 1].0)
  {
  }

  /** The loop's total is the size of the set of paused kyns at or after the target. */
  lemma {:induction false} PausedSinceIsMeasure(pauses: seq<(u64, u64)>, target: u64, clock: u64)
    requires OrderedPauses(pauses, clock)
    ensures PausedSince(pauses, target) == |PausedKyns(pauses, target)|
    decreases |pauses|
  {
    if |pauses| == 0 {
      assert PausedKyns(pauses, target) == {};
    } else {
      var front := pauses[..|pauses| - 1];
      var (start, end) := pauses[|pauses| - 1];
      OrderedPrefix(pauses, clock);
      PausedSinceIsMeasure(front, target, start);
      LastPauseAdds(pauses, target, clock);
    }
  }

  lemma InLonger(pauses: seq<(u64, u64)>, k: int)
    requires |pauses| > 0
    ensures var last := pauses[|pauses| - 1];
            InPause(pauses, k) <==> InPause(pauses[..|pauses| - 1], k) || last.0 <= k < last.1
  {
    var front := pauses[..|pauses| - 1];
    if InPause(front, k) {
      var i :| 0 <= i < |front| && front[i].0 <= k < front[i].1;
      assert pauses[i].0 <= k < pauses[i].1;
    }
    if InPause(pauses, k) {
      var i :| 0 <= i < |pauses| && pauses[i].0 <= k < pauses[i].1;
      assert i < |front| ==> front[i].0 <= k < front[i].1;
    }
  }

  lemma EarlierPausesEndBefore(pauses: seq<(u64, u64)>, clock: u64, k: int)
    requires |pauses| > 0 && OrderedPauses(pauses, clock) && InPause(pauses[..|pauses| - 1], k)
    ensures k < pauses[|pauses| - 1].0
  {
    var front := pauses[..|pauses| - 1];
    var i :| 0 <= i < |front| && front[i].0 <= k < front[i].1;
    assert pauses[i].1 <= pauses[|front|].0;
  }

  lemma OverlapSize(p: (u64, u64), target: u64)
    requires p.0 <= p.1
    ensures Overlap(p, target) == p.1 - Min(Max(p.0, target), p.1)
  {
  }

  /** The part of a pause at or after the target. */
  ghost function After(p: (u64, u64), target: u64): set<int>
    requires p.0 <= p.1
  {
    Interval(Min(Max(p.0, target), p.1), p.1)
  }

  lemma LastPauseSplits(pauses: seq<(u64, u64)>, target: u64, clock: u64)
    requires |pauses| > 0 && OrderedPauses(pauses, clock)
    requires pauses[|pauses| - 1].0 <= pauses[|pauses| - 1].1
    ensures var front, last := PausedKyns(pauses[..|pauses| - 1], target), After(pauses[|pauses| - 1], target);
            PausedKyns(pauses, target) == front + last && front !! last
  {
    hide OrderedPauses;
    hide InPause;
    var front, last := pauses[..|pauses| - 1], pauses[|pauses| - 1];
    forall k
      ensures InPause(pauses, k) <==> InPause(front, k) || last.0 <= k < last.1
    {
      InLonger(pauses, k);
    }
    forall k | InPause(front, k)
      ensures k < last.0
    {
      EarlierPausesEndBefore(pauses, clock, k);
    }
  }

  /** A later pause adds exactly its overlap to the measure. */
  lemma LastPauseAdds(pauses: seq<(u64, u64)>, target: u64, clock: u64)
    requires |pauses| > 0 && OrderedPauses(pauses, clock)
    ensures |PausedKyns(pauses, target)|
         == |PausedKyns(pauses[..|pauses| - 1], target)| + Overlap(pauses[|pauses| - 1], target)
  {
    var last := pauses[|pauses| - 1];
    assert last.0 <= last.1;
    hide OrderedPauses;
    hide PausedKyns;
    hide Overlap;
    OverlapSize(last, target);
    LastPauseSplits(pauses, target, clock);
  }

  /** The answer is at most the time elapsed since the target, so the u64 total never overflows. */
  lemma PausedSinceBounded(pauses: seq<(u64, u64)>, target: u64, clock: u64)
    requires OrderedPauses(pauses, clock)
    ensures PausedSince(pauses, target) <= Max(clock - target, 0)
    ensures PausedSince(pauses, target) < U64_LIMIT
  {
    PausedSinceIsMeasure(pauses, target, clock);
    var hi := Max(clock, target);
    SubsetSize(PausedKyns(pauses, target), Interval(target, hi));
  }

  /** Moving the target from a to b takes away only paused kyns between a and b. */
  lemma PausedSinceLipschitz(pauses: seq<(u64, u64)>, a: u64, b: u64, clock: u64)
    requires OrderedPauses(pauses, clock) && a <= b
    ensures PausedSince(pauses, b) <= PausedSince(pauses, a) <= PausedSince(pauses, b) + (b - a)
  {
    PausedSinceIsMeasure(pauses, a, clock);
    PausedSinceIsMeasure(pauses, b, clock);
    var pa, pb := PausedKyns(pauses, a), PausedKyns(pauses, b);
    assert pb <= pa;
    assert pa == pb + (pa - pb);
    SubsetSize(pa - pb, Interval(a, b));
  }

  /** Closing a pause at `kyn` appends it in order and adds its length to the total, with no overflow. */
  lemma ClosePause(pauses: seq<(u64, u64)>, start: u64, kyn: u64)
    requires OrderedPauses(pauses, start) && start <= kyn
    ensures OrderedPauses(pauses + [(start, kyn)], kyn)
    ensures PausedSince(pauses + [(start, kyn)], 0) == PausedSince(pauses, 0) + (kyn - start) < U64_LIMIT
  {
    var longer := pauses + [(start, kyn)];
    assert longer[..|longer| - 1] == pauses;
    PausedSinceBounded(longer, 0, kyn);
  }

  lemma ExecuteKeepsPausesAccounted(s: State, clock: u64, msg: SignedAction, kyn: u64, c: Crypto)
    requires PausesAccounted(s, clock) && clock <= kyn
    ensures PausesAccounted(Execute(s, msg, kyn, c), kyn)
  {
    hide HashAction;
    hide PausedSince;
    if msg.action.EmergencyResume? && s.isHalted {
      ClosePause(s.pauses, s.haltStart.value, kyn);
    }
  }

  /** Every message, accepted or not, keeps the books as long as the clock does not go back. */
  lemma ProcessKeepsPausesAccounted(s: State, clock: u64, msg: SignedAction, kyn: u64, cfg: Config, c: Crypto)
    requires PausesAccounted(s, clock) && clock <= kyn
    ensures PausesAccounted(Process(s, msg, kyn, cfg, c).0, kyn)
  {
    hide HashAction;
    hide VerifyAction;
    hide PruneMap;
    hide Execute;
    hide PausedSince;
    var pruned := s.(executed := PruneMap(s.executed, kyn, cfg.maxAge));
    ExecuteKeepsPausesAccounted(pruned, clock, msg, kyn, c);
  }
}
