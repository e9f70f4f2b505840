/** Whole runs of the action state machine: at-most-once execution, pause accounting, log replay. */
module ActionRuns {
  import opened Numbers
  import opened ByteStrings
  import opened Results
  import opened ActionCodec
  import opened Actions
  import opened PauseAccounting

  /** State isolation: a message that is not accepted changes nothing, except that a known one forgets the hashes
      whose window has passed. */
  lemma RejectedChangesNothing(s: State, msg: SignedAction, kyn: u64, cfg: Config, c: Crypto)
    ensures var (s', r) := Process(s, msg, kyn, cfg, c);
            r.Err? ==>
              && s' == s.(executed := s'.executed)
              && (r.error != AlreadyExecuted ==> s' == s)
              && (forall h :: h in s'.executed ==> h in s.executed && s'.executed[h] == s.executed[h])
              && (forall h :: h in s.executed && h !in s'.executed ==> kyn > WrapAdd(s.executed[h], cfg.maxAge))
  {
    hide SignedBy;
    hide HashAction;
  }

  /** An accepted message was fresh, unknown and signed by the key in force; the whole new state is the old one with
      the reported effect, the message logged and its hash remembered. */
  lemma OnlyAuthorizedActionsChangeState(s: State, msg: SignedAction, kyn: u64, cfg: Config, c: Crypto)
    requires Process(s, msg, kyn, cfg, c).1.Ok?
    ensures var key := SovereignKey(s.activeKey, cfg);
            cfg.model.Sovereign? && !IsStale(msg.timestamp, kyn, cfg.maxAge) && key.Ok? && SignedBy(c, msg, key.value)
    ensures var s', h := Process(s, msg, kyn, cfg, c).0, HashAction(c, msg);
            && s'.log == s.log + [msg]
            && (h in s.executed ==> kyn > WrapAdd(s.executed[h], cfg.maxAge))
            && (forall g :: g in s'.executed <==>
                              g == h || (g in s.executed && kyn <= WrapAdd(s.executed[g], cfg.maxAge)))
            && (forall g :: g in s'.executed ==>
                              s'.executed[g] == if g == h then msg.timestamp else s.executed[g])
    ensures var (s', r) := Process(s, msg, kyn, cfg, c);
            var logged := s.(executed := s'.executed, log := s'.log);
            && r.value == EffectOf(msg.action)
            && match r.value
               case SovereignKeyRotated(k) => |k| == PUBKEY_LENGTH && s' == logged.(activeKey := Some(k))
               case NetworkHalted =>
                 if s.isHalted then s' == logged
                 else s' == logged.(isHalted := true, haltStart := Some(StartOr(s, kyn)))
               case NetworkResumed =>
                 if !s.isHalted then s' == logged
                 else
                   var start := StartOr(s, kyn);
                   s' == logged.(isHalted := false, haltStart := None, pauses := s.pauses + [(start, kyn)],
                                 totalPaused := Min(s.totalPaused + Max(kyn - start, 0), U64_LIMIT - 1))
  {
    hide SignedBy;
    hide HashAction;
  }

  /** The recorded start of the halt, or `kyn` when there is none. */
  function StartOr(s: State, kyn: u64): u64 { if s.haltStart.Some? then s.haltStart.value else kyn }

  /** One call of `process_action_message`: the message and the node's clock. */
  datatype Input = Input(msg: SignedAction, kyn: u64)

  function Step(s: State, i: Input, cfg: Config, c: Crypto): State { Process(s, i.msg, i.kyn, cfg, c).0 }

  predicate Accepts(s: State, i: Input, cfg: Config, c: Crypto) { Process(s, i.msg, i.kyn, cfg, c).1.Ok? }

  function Run(s: State, inputs: seq<Input>, cfg: Config, c: Crypto): State {
    if |inputs| == 0 then s
    else Step(Run(s, inputs[..|inputs| - 1], cfg, c), inputs[|inputs| - 1], cfg, c)
  }

  /** A signature of the message verifies under the active key, or under a well-formed configured key when there is
      none. */
  ghost predicate SignedInForce(active: Option<Bytes>, msg: SignedAction, cfg: Config, c: Crypto) {
    exists j :: 0 <= j < |msg.signatures| &&
                if active.Some? then c.verify(active.value, Canonical(msg), msg.signatures[j])
                else
                  && cfg.sovereignKey.Some? && |cfg.sovereignKey.value| == PUBKEY_LENGTH
                  && c.verify(cfg.sovereignKey.value, Canonical(msg), msg.signatures[j])
  }

  /** Acceptance, from the state and the message alone: once a rotation has set a key, that key decides and the
      configured one no longer counts. */
  lemma AcceptsExactlyWhen(s: State, i: Input, cfg: Config, c: Crypto)
    ensures var msg, h := i.msg, c.sha256(Canonical(i.msg));
            Accepts(s, i, cfg, c) <==>
            && cfg.model == Sovereign
            && i.kyn - msg.timestamp <= cfg.maxAge && msg.timestamp - i.kyn <= cfg.maxAge
            && SignedInForce(s.activeKey, msg, cfg, c)
            && (msg.action.RotateSovereignKey? ==> |msg.action.newKey| == PUBKEY_LENGTH)
            && (h in s.executed ==> i.kyn > WrapAdd(s.executed[h], cfg.maxAge))
  {
    hide Canonical;
    hide Execute;
    SignedInForceIsSignedBy(s.activeKey, i.msg, cfg, c);
    hide SignedInForce;
    hide SignedBy;
  }

  lemma SignedInForceIsSignedBy(active: Option<Bytes>, msg: SignedAction, cfg: Config, c: Crypto)
    ensures var key := SovereignKey(active, cfg);
            SignedInForce(active, msg, cfg, c) <==> key.Ok? && SignedBy(c, msg, key.value)
  {
    hide Canonical;
    var key := SovereignKey(active, cfg);
    if key.Ok? && SignedBy(c, msg, key.value) {
      var j :| 0 <= j < |msg.signatures| && c.verify(key.value, Canonical(msg), msg.signatures[j]);
      assert SignedInForce(active, msg, cfg, c);
    }
    if SignedInForce(active, msg, cfg, c) {
      assert key.Ok? && SignedBy(c, msg, key.value);
    }
  }

  /** Which error a rejected message gets. */
  lemma RejectionReason(s: State, i: Input, cfg: Config, c: Crypto)
    ensures var msg, r := i.msg, Process(s, i.msg, i.kyn, cfg, c).1;
            var timely := i.kyn - msg.timestamp <= cfg.maxAge && msg.timestamp - i.kyn <= cfg.maxAge;
            var signed := SignedInForce(s.activeKey, msg, cfg, c);
            var badRotation := msg.action.RotateSovereignKey? && |msg.action.newKey| != PUBKEY_LENGTH;
            var configured := s.activeKey.None? && timely && cfg.model == Sovereign;
            && (r == Err(ActionDisabled) <==> cfg.model == Permissionless)
            && (r == Err(StaleProposal) <==> cfg.model == Sovereign && !timely)
            && (r == Err(MalformedSovereignKey) <==> configured && cfg.sovereignKey.None?)
            && (r == Err(KeyLengthMismatch) <==>
                  || (configured && cfg.sovereignKey.Some? && |cfg.sovereignKey.value| != PUBKEY_LENGTH)
                  || (cfg.model == Sovereign && timely && signed && badRotation))
            && (r == Err(InvalidSignature) <==>
                  && cfg.model == Sovereign && timely && !signed
                  && (configured ==> cfg.sovereignKey.Some? && |cfg.sovereignKey.value| == PUBKEY_LENGTH))
  {
    hide Canonical;
    hide Execute;
    SignedInForceIsSignedBy(s.activeKey, i.msg, cfg, c);
    hide SignedInForce;
    hide SignedBy;
  }

  /** The messages of the successful steps, in order. */
  function Accepted(s: State, inputs: seq<Input>, cfg: Config, c: Crypto): seq<SignedAction> {
    if |inputs| == 0 then []
    else
      var front, last := inputs[..|inputs| - 1], inputs[|inputs| - 1];
      Accepted(s, front, cfg, c) + (if Accepts(Run(s, front, cfg, c), last, cfg, c) then [last.msg] else [])
  }

  /** The clock never goes back and never passes `limit`. */
  ghost predicate Nondecreasing(inputs: seq<Input>, limit: u64) {
    && (forall i, j :: 0 <= i < j < |inputs| ==> inputs[i].kyn <= inputs[j].kyn)
    && (forall i :: 0 <= i < |inputs| ==> inputs[i].kyn <= limit)
  }

  function Clock(inputs: seq<Input>): u64 {
    if |inputs| == 0 then 0 else inputs[|inputs| - 1].kyn
  }

  ghost predicate NoRepeats(msgs: seq<SignedAction>) {
    forall i, j :: 0 <= i < j < |msgs| ==> Canonical(msgs[i]) != Canonical(msgs[j])
  }

  /** The prune window outlasts the staleness window for every clock up to `limit`. */
  predicate WindowFits(limit: u64, maxAge: u64) { limit == 0 || limit + 2 * maxAge < U64_LIMIT }

  /** An executed action is still remembered, or has become too old to be accepted again. */
  ghost predicate Remembered(s: State, m: SignedAction, clock: u64, maxAge: u64, c: Crypto) {
    var h := HashAction(c, m);
    (h in s.executed && s.executed[h] == m.timestamp) || clock > m.timestamp + maxAge
  }

  ghost predicate LogGuarded(s: State, clock: u64, limit: u64, maxAge: u64, c: Crypto) {
    && NoRepeats(s.log)
    && (forall i :: 0 <= i < |s.log| ==> Remembered(s, s.log[i], clock, maxAge, c))
    && (forall i :: 0 <= i < |s.log| ==> limit == 0 || s.log[i].timestamp + maxAge < U64_LIMIT)
    && PruneFits(s.executed, limit, maxAge)
  }

  /** The prune test's addition does not overflow on any remembered action. */
  ghost predicate PruneFits(executed: map<Hash, u64>, limit: u64, maxAge: u64) {
    forall h :: h in executed ==> limit == 0 || executed[h] + maxAge < U64_LIMIT
  }

  /** Pruning forgets an action only once the staleness test rejects it for good. */
  lemma PruneRemembers(s: State, m: SignedAction, clock: u64, kyn: u64, limit: u64, maxAge: u64, c: Crypto)
    requires Remembered(s, m, clock, maxAge, c) && clock <= kyn <= limit
    requires limit == 0 || m.timestamp + maxAge < U64_LIMIT
    ensures Remembered(s.(executed := PruneMap(s.executed, kyn, maxAge)), m, kyn, maxAge, c)
  {
    hide Canonical;
  }

  /** Executing a message whose hash is not remembered disturbs no other memory. */
  lemma ExecuteRemembers(s: State, m: SignedAction, msg: SignedAction, kyn: u64, maxAge: u64, c: Crypto)
    requires Remembered(s, m, kyn, maxAge, c) && HashAction(c, msg) !in s.executed
    ensures Remembered(Execute(s, msg, kyn, c), m, kyn, maxAge, c)
    ensures Remembered(Execute(s, msg, kyn, c), msg, kyn, maxAge, c)
  {
    hide Canonical;
  }

  /** A fresh, unremembered message differs from everything in the log. */
  lemma AcceptedIsNew(s: State, m: SignedAction, msg: SignedAction, kyn: u64, maxAge: u64, c: Crypto)
    requires Remembered(s, m, kyn, maxAge, c)
    requires !IsStale(msg.timestamp, kyn, maxAge) && HashAction(c, msg) !in s.executed
    ensures Canonical(m) != Canonical(msg)
  {
    CanonicalInjective(m, msg);
    hide Canonical;
  }

  lemma StepKeepsLogGuarded(s: State, clock: u64, i: Input, limit: u64, cfg: Config, c: Crypto)
    requires LogGuarded(s, clock, limit, cfg.maxAge, c)
    requires clock <= i.kyn <= limit && WindowFits(limit, cfg.maxAge)
    ensures LogGuarded(Step(s, i, cfg, c), i.kyn, limit, cfg.maxAge, c)
  {
    hide Canonical;
    hide SignedBy;
    hide PruneMap;
    hide Execute;
    var s' := Step(s, i, cfg, c);
    if VerifyAction(s.activeKey, i.msg, i.kyn, cfg, c).Ok? {
      var pruned := s.(executed := PruneMap(s.executed, i.kyn, cfg.maxAge));
      forall j | 0 <= j < |s.log|
        ensures Remembered(pruned, s.log[j], i.kyn, cfg.maxAge, c)
      {
        PruneRemembers(s, s.log[j], clock, i.kyn, limit, cfg.maxAge, c);
      }
      PruneKeepsFit(s.executed, i.kyn, limit, cfg.maxAge);
      if HashAction(c, i.msg) !in pruned.executed {
        ExecuteKeepsLogGuarded(pruned, i, limit, cfg, c);
      }
    }
  }

  lemma PruneKeepsFit(executed: map<Hash, u64>, kyn: u64, limit: u64, maxAge: u64)
    requires PruneFits(executed, limit, maxAge)
    ensures PruneFits(PruneMap(executed, kyn, maxAge), limit, maxAge)
  {
  }

  lemma ExecuteKeepsLog(s: State, msg: SignedAction, kyn: u64, c: Crypto)
    ensures Execute(s, msg, kyn, c).log == s.log
  {
  }

  lemma ExecuteKeepsLogGuarded(s: State, i: Input, limit: u64, cfg: Config, c: Crypto)
    requires LogGuarded(s, i.kyn, limit, cfg.maxAge, c)
    requires HashAction(c, i.msg) !in s.executed && !IsStale(i.msg.timestamp, i.kyn, cfg.maxAge)
    requires i.kyn <= limit && WindowFits(limit, cfg.maxAge)
    ensures var done := Execute(s, i.msg, i.kyn, c);
            LogGuarded(done.(log := done.log + [i.msg]), i.kyn, limit, cfg.maxAge, c)
  {
    hide Canonical;
    hide Execute;
    var done := Execute(s, i.msg, i.kyn, c);
    ExecuteKeepsLog(s, i.msg, i.kyn, c);
    var after := done.(log := done.log + [i.msg]);
    forall j | 0 <= j < |s.log|
      ensures Remembered(after, s.log[j], i.kyn, cfg.maxAge, c)
      ensures Canonical(s.log[j]) != Canonical(i.msg)
    {
      ExecuteRemembers(s, s.log[j], i.msg, i.kyn, cfg.maxAge, c);
      AcceptedIsNew(s, s.log[j], i.msg, i.kyn, cfg.maxAge, c);
    }
    ExecuteWrites(s, i.msg, i.kyn, c);
    assert Remembered(after, i.msg, i.kyn, cfg.maxAge, c);
  }

  lemma ExecuteWrites(s: State, msg: SignedAction, kyn: u64, c: Crypto)
    ensures Execute(s, msg, kyn, c).executed == s.executed[HashAction(c, msg) := msg.timestamp]
  {
    hide Canonical;
  }

  /** Everything a run from genesis maintains. */
  lemma {:induction false} RunInvariant(g: u64, inputs: seq<Input>, limit: u64, cfg: Config, c: Crypto)
    requires Nondecreasing(inputs, limit) && WindowFits(limit, cfg.maxAge)
    ensures LogGuarded(Run(New(g), inputs, cfg, c), Clock(inputs), limit, cfg.maxAge, c)
    decreases |inputs|
  {
    hide Step;
    hide Canonical;
    if |inputs| > 0 {
      var front := inputs[..|inputs| - 1];
      RunInvariant(g, front, limit, cfg, c);
      assert Clock(front) <= Clock(inputs);
      StepKeepsLogGuarded(Run(New(g), front, cfg, c), Clock(front), inputs[|inputs| - 1], limit, cfg, c);
    }
  }

  /** The log is exactly the sequence of accepted messages. */
  lemma {:induction false} LogIsAccepted(s: State, inputs: seq<Input>, cfg: Config, c: Crypto)
    ensures Run(s, inputs, cfg, c).log == s.log + Accepted(s, inputs, cfg, c)
    decreases |inputs|
  {
    hide Canonical;
    hide VerifyAction;
    hide PruneMap;
    if |inputs| > 0 {
      LogIsAccepted(s, inputs[..|inputs| - 1], cfg, c);
    }
  }

  /** At most once: no two successful steps of a run carry the same canonical bytes. */
  lemma AtMostOnce(g: u64, inputs: seq<Input>, limit: u64, cfg: Config, c: Crypto)
    requires Nondecreasing(inputs, limit) && WindowFits(limit, cfg.maxAge)
    ensures NoRepeats(Accepted(New(g), inputs, cfg, c))
  {
    hide Canonical;
    hide Run;
    RunInvariant(g, inputs, limit, cfg, c);
    LogIsAccepted(New(g), inputs, cfg, c);
    assert New(g).log + Accepted(New(g), inputs, cfg, c) == Accepted(New(g), inputs, cfg, c);
  }

  /** No run whose clock stays within `limit` ever executes one action twice. */
  ghost predicate SafeUpTo(limit: u64, maxAge: u64) {
    forall g: u64, inputs, key, model, c :: Nondecreasing(inputs, limit) ==>
      NoRepeats(Accepted(New(g), inputs, Config(key, maxAge, model), c))
  }

  /** Two equal calls, both accepted, repeat an action. */
  lemma AcceptedTwice(i: Input, cfg: Config, c: Crypto)
    requires Accepts(New(0), i, cfg, c) && Accepts(Step(New(0), i, cfg, c), i, cfg, c)
    ensures !NoRepeats(Accepted(New(0), [i, i], cfg, c))
  {
    hide Canonical;
    hide Accepts;
    hide Step;
    var once, twice := [i], [i, i];
    assert once[..0] == [] && twice[..1] == once;
    assert Run(New(0), once, cfg, c) == Step(New(0), i, cfg, c);
    assert Accepted(New(0), once, cfg, c) == [] + [i.msg];
    var msgs := Accepted(New(0), twice, cfg, c);
    assert msgs == [i.msg] + [i.msg];
    assert Canonical(msgs[0]) == Canonical(msgs[1]);
  }

  /** The stored timestamp overflows the prune test, so the same call is accepted again at once. */
  lemma ForgottenAtOnce(limit: u64, maxAge: u64) returns (i: Input, cfg: Config, c: Crypto)
    requires !WindowFits(limit, maxAge)
    ensures i.kyn == limit && cfg.maxAge == maxAge
    ensures Accepts(New(0), i, cfg, c) && Accepts(Step(New(0), i, cfg, c), i, cfg, c)
  {
    hide Canonical;
    var key: Bytes := Zeros(PUBKEY_LENGTH);
    cfg := Config(Some(key), maxAge, Sovereign);
    c := Crypto(m => Zeros(32), (k, m, g) => true);
    var msg := SignedAction(EmergencyHalt, U64_LIMIT - maxAge, [[]]);
    i := Input(msg, limit);
    assert SignedBy(c, msg, key) by { assert c.verify(key, Canonical(msg), msg.signatures[0]); }
    hide SignedBy;
    var s1 := Step(New(0), i, cfg, c);
    assert Accepts(New(0), i, cfg, c);
    assert s1.executed == map[HashAction(c, msg) := msg.timestamp];
    assert PruneMap(s1.executed, limit, maxAge) == map[];
  }

  /** A resubmitted action whose stored timestamp overflows the prune test is executed again. */
  lemma OverflowForgets(limit: u64, maxAge: u64)
    requires !WindowFits(limit, maxAge)
    ensures !SafeUpTo(limit, maxAge)
  {
    hide Accepts;
    hide NoRepeats;
    hide Accepted;
    var i, cfg, c := ForgottenAtOnce(limit, maxAge);
    AcceptedTwice(i, cfg, c);
    assert Nondecreasing([i, i], limit);
    assert cfg == Config(cfg.sovereignKey, maxAge, cfg.model);
  }

  /** Replay protection holds on every run up to a clock limit exactly when the windows fit in 64 bits there. */
  lemma SafeExactlyWhenWindowFits(limit: u64, maxAge: u64)
    ensures SafeUpTo(limit, maxAge) <==> WindowFits(limit, maxAge)
  {
    hide Accepted;
    if WindowFits(limit, maxAge) {
      forall g: u64, inputs, key, model, c | Nondecreasing(inputs, limit)
        ensures NoRepeats(Accepted(New(g), inputs, Config(key, maxAge, model), c))
      {
        AtMostOnce(g, inputs, limit, Config(key, maxAge, model), c);
      }
    } else {
      OverflowForgets(limit, maxAge);
    }
  }

  /** The pause books balance in every state a run from genesis reaches. */
  lemma {:induction false} RunKeepsPausesAccounted(g: u64, inputs: seq<Input>, limit: u64, cfg: Config, c: Crypto)
    requires Nondecreasing(inputs, limit)
    ensures PausesAccounted(Run(New(g), inputs, cfg, c), Clock(inputs))
    decreases |inputs|
  {
    hide Canonical;
    hide Process;
    if |inputs| > 0 {
      var front, last := inputs[..|inputs| - 1], inputs[|inputs| - 1];
      RunKeepsPausesAccounted(g, front, limit, cfg, c);
      assert Clock(front) <= Clock(inputs);
      ProcessKeepsPausesAccounted(Run(New(g), front, cfg, c), Clock(front), last.msg, last.kyn, cfg, c);
    }
  }

  /** In every reachable state the pause query counts exactly the paused kyns from its target on, the recorded total
      counts all of them, and neither overflows. */
  lemma RunPauseAnswers(g: u64, inputs: seq<Input>, limit: u64, cfg: Config, c: Crypto, target: u64)
    requires Nondecreasing(inputs, limit)
    ensures var s := Run(New(g), inputs, cfg, c);
            && PausedSince(s.pauses, target) % U64_LIMIT == |PausedKyns(s.pauses, target)|
            && s.totalPaused == |PausedKyns(s.pauses, 0)|
  {
    hide Run;
    hide PausedSince;
    RunKeepsPausesAccounted(g, inputs, limit, cfg, c);
    var s := Run(New(g), inputs, cfg, c);
    PausedSinceIsMeasure(s.pauses, target, Clock(inputs));
    PausedSinceIsMeasure(s.pauses, 0, Clock(inputs));
    PausedSinceBounded(s.pauses, target, Clock(inputs));
    DivModUnique(PausedSince(s.pauses, target), U64_LIMIT, 0, PausedSince(s.pauses, target));
  }

  /** The calls made by the end of kyn k. */
  function UpTo(inputs: seq<Input>, k: u64): seq<Input> {
    if |inputs| == 0 || inputs[|inputs| - 1].kyn <= k then inputs else UpTo(inputs[..|inputs| - 1], k)
  }

  /** Kyn k lies in a closed pause or in the pause still open. */
  ghost predicate RecordedHalted(s: State, k: u64) {
    InPause(s.pauses, k) || (s.haltStart.Some? && s.haltStart.value <= k)
  }

  /** A step at `kyn` leaves the record of earlier kyns alone. */
  lemma StepKeepsPast(s: State, clock: u64, i: Input, cfg: Config, c: Crypto, k: u64)
    requires PausesAccounted(s, clock) && clock <= i.kyn && k < i.kyn
    ensures RecordedHalted(Step(s, i, cfg, c), k) <==> RecordedHalted(s, k)
  {
    hide HashAction;
    hide VerifyAction;
    hide PruneMap;
    hide PausedSince;
    var s' := Step(s, i, cfg, c);
    if s'.pauses != s.pauses {
      assert s'.pauses[..|s'.pauses| - 1] == s.pauses;
      InLonger(s'.pauses, k);
    }
  }

  /** The pause record is the history of the halt flag: kyn k is recorded as paused exactly when the network was
      halted once every call up to k had been processed. */
  lemma {:induction false} PausesAreHaltedTime(g: u64, inputs: seq<Input>, limit: u64, cfg: Config, c: Crypto, k: u64)
    requires Nondecreasing(inputs, limit)
    ensures Run(New(g), UpTo(inputs, k), cfg, c).isHalted <==> RecordedHalted(Run(New(g), inputs, cfg, c), k)
    decreases |inputs|
  {
    hide Step;
    hide PausedSince;
    RunKeepsPausesAccounted(g, inputs, limit, cfg, c);
    if |inputs| > 0 && k < inputs[|inputs| - 1].kyn {
      var front, last := inputs[..|inputs| - 1], inputs[|inputs| - 1];
      PausesAreHaltedTime(g, front, limit, cfg, c, k);
      RunKeepsPausesAccounted(g, front, limit, cfg, c);
      assert Clock(front) <= last.kyn;
      StepKeepsPast(Run(New(g), front, cfg, c), Clock(front), last, cfg, c, k);
    }
  }

  /** The rotation a log prefix leaves in force, if any. */
  function KeyAfter(log: seq<SignedAction>): Option<Bytes> {
    if |log| == 0 then None
    else match log[|log| - 1].action
      case RotateSovereignKey(k) => Some(k)
      case _ => KeyAfter(log[..|log| - 1])
  }

  function HaltedAfter(log: seq<SignedAction>): bool {
    if |log| == 0 then false
    else match log[|log| - 1].action
      case RotateSovereignKey(_) => HaltedAfter(log[..|log| - 1])
      case EmergencyHalt => true
      case EmergencyResume => false
  }

  /** The last rotation in the log, if there is one, set this key. */
  ghost predicate LastRotation(log: seq<SignedAction>, key: Bytes) {
    exists j :: 0 <= j < |log| && log[j].action == RotateSovereignKey(key) && NoRotationAfter(log, j)
  }

  ghost predicate NoRotationAfter(log: seq<SignedAction>, j: int) {
    forall m :: j < m < |log| && m >= 0 ==> !log[m].action.RotateSovereignKey?
  }

  lemma {:induction false} KeyAfterIsLastRotation(log: seq<SignedAction>)
    ensures KeyAfter(log).None? <==> NoRotationAfter(log, -1)
    ensures forall key :: KeyAfter(log) == Some(key) <==> LastRotation(log, key)
    decreases |log|
  {
    if |log| > 0 {
      var n := |log| - 1;
      var front := log[..n];
      KeyAfterIsLastRotation(front);
      if log[n].action.RotateSovereignKey? {
        assert LastRotation(log, log[n].action.newKey) by { assert NoRotationAfter(log, n); }
        assert !NoRotationAfter(log, -1);
        forall key | LastRotation(log, key)
          ensures key == log[n].action.newKey
        {
          var j :| 0 <= j < |log| && log[j].action == RotateSovereignKey(key) && NoRotationAfter(log, j);
        }
      } else {
        forall j | -1 <= j < n
          ensures NoRotationAfter(log, j) <==> NoRotationAfter(front, j)
        {
        }
        forall key
          ensures LastRotation(log, key) <==> LastRotation(front, key)
        {
          if LastRotation(log, key) {
            var j :| 0 <= j < |log| && log[j].action == RotateSovereignKey(key) && NoRotationAfter(log, j);
            assert front[j] == log[j] && NoRotationAfter(front, j);
          }
          if LastRotation(front, key) {
            var j :| 0 <= j < |front| && front[j].action == RotateSovereignKey(key) && NoRotationAfter(front, j);
            assert front[j] == log[j] && NoRotationAfter(log, j);
          }
        }
      }
    }
  }

  /** Halted means: some halt in the log has no resume behind it. */
  ghost predicate HaltStands(log: seq<SignedAction>, j: int) {
    0 <= j < |log| && log[j].action.EmergencyHalt? && forall m :: j < m < |log| ==> !log[m].action.EmergencyResume?
  }

  lemma {:induction false} HaltedAfterIsStandingHalt(log: seq<SignedAction>)
    ensures HaltedAfter(log) <==> exists j :: HaltStands(log, j)
    decreases |log|
  {
    if |log| > 0 {
      var n := |log| - 1;
      var front := log[..n];
      HaltedAfterIsStandingHalt(front);
      if log[n].action.EmergencyHalt? {
        assert HaltStands(log, n);
      } else if log[n].action.RotateSovereignKey? {
        forall j
          ensures HaltStands(log, j) <==> HaltStands(front, j)
        {
        }
      }
    }
  }

  /** The key in force after a log: the one its last rotation set, or, without a rotation, a well-formed configured
      key. */
  ghost predicate InForce(log: seq<SignedAction>, cfg: Config, key: Bytes) {
    LastRotation(log, key) || (NoRotationAfter(log, -1) && cfg.sovereignKey == Some(key) && |key| == PUBKEY_LENGTH)
  }

  /** In every state a run from genesis reaches, a message is accepted exactly when it is fresh, unknown or expired,
      well formed, and one of its signatures verifies under the key in force; and the network is halted exactly when
      some executed halt has no executed resume behind it. */
  lemma RunAcceptsExactlyWhen(g: u64, inputs: seq<Input>, i: Input, cfg: Config, c: Crypto)
    ensures var s, msg, h := Run(New(g), inputs, cfg, c), i.msg, c.sha256(Canonical(i.msg));
            Accepts(s, i, cfg, c) <==>
            && cfg.model == Sovereign
            && i.kyn - msg.timestamp <= cfg.maxAge && msg.timestamp - i.kyn <= cfg.maxAge
            && (exists key, j :: 0 <= j < |msg.signatures| && InForce(s.log, cfg, key) &&
                                 c.verify(key, Canonical(msg), msg.signatures[j]))
            && (msg.action.RotateSovereignKey? ==> |msg.action.newKey| == PUBKEY_LENGTH)
            && (h in s.executed ==> i.kyn > WrapAdd(s.executed[h], cfg.maxAge))
    ensures var s := Run(New(g), inputs, cfg, c); s.isHalted <==> exists j :: HaltStands(s.log, j)
  {
    hide Canonical;
    hide Run;
    hide Accepts;
    hide CustodyChain;
    hide KeyAfter;
    hide HaltedAfter;
    hide HaltStands;
    var s := Run(New(g), inputs, cfg, c);
    RunExplained(g, inputs, cfg, c);
    HaltedAfterIsStandingHalt(s.log);
    AcceptsExactlyWhen(s, i, cfg, c);
    SignedInForceExactlyWhen(s.log, i.msg, cfg, c);
  }

  lemma SignedInForceExactlyWhen(log: seq<SignedAction>, msg: SignedAction, cfg: Config, c: Crypto)
    ensures SignedInForce(KeyAfter(log), msg, cfg, c) <==>
            exists key, j :: 0 <= j < |msg.signatures| && InForce(log, cfg, key) &&
                             c.verify(key, Canonical(msg), msg.signatures[j])
  {
    hide Canonical;
    hide KeyAfter;
    hide LastRotation;
    hide NoRotationAfter;
    KeyAfterIsLastRotation(log);
    var active := KeyAfter(log);
    if SignedInForce(active, msg, cfg, c) {
      var key := if active.Some? then active.value else cfg.sovereignKey.value;
      assert InForce(log, cfg, key);
    }
    if key, j :| 0 <= j < |msg.signatures| && InForce(log, cfg, key) &&
                 c.verify(key, Canonical(msg), msg.signatures[j]) {
      if active.Some? {
        assert LastRotation(log, active.value);
        assert active == Some(key);
      }
    }
  }

  /** The message is well formed and signed under the key that the given log leaves in force. */
  ghost predicate AuthorizedAfter(log: seq<SignedAction>, m: SignedAction, cfg: Config, c: Crypto) {
    var key := SovereignKey(KeyAfter(log), cfg);
    && cfg.model.Sovereign?
    && key.Ok?
    && SignedBy(c, m, key.value)
    && (m.action.RotateSovereignKey? ==> |m.action.newKey| == PUBKEY_LENGTH)
  }

  /** Every entry is authorized by the entries before it. */
  ghost predicate CustodyChain(log: seq<SignedAction>, cfg: Config, c: Crypto) {
    forall i :: 0 <= i < |log| ==> AuthorizedAfter(log[..i], log[i], cfg, c)
  }

  ghost predicate Explained(s: State, cfg: Config, c: Crypto) {
    && CustodyChain(s.log, cfg, c)
    && s.activeKey == KeyAfter(s.log)
    && s.isHalted == HaltedAfter(s.log)
  }

  lemma AppendKeepsChain(log: seq<SignedAction>, m: SignedAction, cfg: Config, c: Crypto)
    requires CustodyChain(log, cfg, c) && AuthorizedAfter(log, m, cfg, c)
    ensures CustodyChain(log + [m], cfg, c)
  {
    hide AuthorizedAfter;
    var all := log + [m];
    forall i | 0 <= i < |all|
      ensures AuthorizedAfter(all[..i], all[i], cfg, c)
    {
      assert all[..i] == log[..i];
      if i == |log| {
        assert log[..i] == log;
      }
    }
  }

  /** What an accepted step does to the key, the halt flag and the log. */
  lemma AcceptedStepEffect(s: State, i: Input, cfg: Config, c: Crypto)
    requires Explained(s, cfg, c)
    ensures Explained(Step(s, i, cfg, c), cfg, c)
    ensures Accepts(s, i, cfg, c) ==> Step(s, i, cfg, c).log == s.log + [i.msg]
  {
    AcceptedStepFields(s, i, cfg, c);
    hide Accepts;
    hide Step;
    hide AuthorizedAfter;
    hide CustodyChain;
    if Accepts(s, i, cfg, c) {
      AppendKeepsChain(s.log, i.msg, cfg, c);
      LastDecides(s.log, i.msg);
    }
  }

  lemma LastDecides(log: seq<SignedAction>, m: SignedAction)
    ensures KeyAfter(log + [m]) == if m.action.RotateSovereignKey? then Some(m.action.newKey) else KeyAfter(log)
    ensures HaltedAfter(log + [m]) == if m.action.RotateSovereignKey? then HaltedAfter(log) else m.action.EmergencyHalt?
  {
    assert (log + [m])[..|log|] == log;
  }

  lemma AcceptedStepFields(s: State, i: Input, cfg: Config, c: Crypto)
    ensures var s' := Step(s, i, cfg, c);
            if Accepts(s, i, cfg, c) then
              && s'.log == s.log + [i.msg]
              && (s.activeKey == KeyAfter(s.log) ==> AuthorizedAfter(s.log, i.msg, cfg, c))
              && s'.activeKey == (if i.msg.action.RotateSovereignKey? then Some(i.msg.action.newKey) else s.activeKey)
              && s'.isHalted == (if i.msg.action.RotateSovereignKey? then s.isHalted else i.msg.action.EmergencyHalt?)
            else s'.log == s.log && s'.activeKey == s.activeKey && s'.isHalted == s.isHalted
  {
    hide HashAction;
    hide SignedBy;
    hide PruneMap;
    hide KeyAfter;
  }

  lemma {:induction false} RunExplained(g: u64, inputs: seq<Input>, cfg: Config, c: Crypto)
    ensures Explained(Run(New(g), inputs, cfg, c), cfg, c)
    decreases |inputs|
  {
    hide Step;
    if |inputs| > 0 {
      RunExplained(g, inputs[..|inputs| - 1], cfg, c);
      AcceptedStepEffect(Run(New(g), inputs[..|inputs| - 1], cfg, c), inputs[|inputs| - 1], cfg, c);
    }
  }

  function ReplayInputs(log: seq<SignedAction>, clocks: seq<u64>): seq<Input>
    requires |clocks| == |log|
  {
    seq(|log|, i requires 0 <= i < |log| => Input(log[i], clocks[i]))
  }

  ghost predicate CollisionFree(log: seq<SignedAction>, c: Crypto) {
    forall i, j :: 0 <= i < j < |log| && Canonical(log[i]) != Canonical(log[j]) ==>
      HashAction(c, log[i]) != HashAction(c, log[j])
  }

  /** The replaying node has accepted exactly `log` so far and remembers no other hash. */
  ghost predicate Replayed(s: State, log: seq<SignedAction>, cfg: Config, c: Crypto) {
    && Explained(s, cfg, c)
    && s.log == log
    && (forall h :: h in s.executed ==> exists i :: 0 <= i < |log| && h == HashAction(c, log[i]))
  }

  lemma FreshIsAccepted(s: State, i: Input, cfg: Config, c: Crypto)
    requires Explained(s, cfg, c) && AuthorizedAfter(s.log, i.msg, cfg, c)
    requires !IsStale(i.msg.timestamp, i.kyn, cfg.maxAge) && HashAction(c, i.msg) !in s.executed
    ensures Accepts(s, i, cfg, c)
    ensures forall h :: h in Step(s, i, cfg, c).executed ==> h in s.executed || h == HashAction(c, i.msg)
  {
    hide SignedBy;
    hide HashAction;
    hide CustodyChain;
  }

  lemma ReplayStep(s: State, log: seq<SignedAction>, i: Input, cfg: Config, c: Crypto)
    requires Replayed(s, log, cfg, c) && AuthorizedAfter(log, i.msg, cfg, c)
    requires !IsStale(i.msg.timestamp, i.kyn, cfg.maxAge)
    requires forall j :: 0 <= j < |log| ==> HashAction(c, i.msg) != HashAction(c, log[j])
    ensures Accepts(s, i, cfg, c) && Replayed(Step(s, i, cfg, c), log + [i.msg], cfg, c)
  {
    hide HashAction;
    hide Accepts;
    hide Step;
    hide Explained;
    hide IsStale;
    hide AuthorizedAfter;
    FreshIsAccepted(s, i, cfg, c);
    AcceptedStepEffect(s, i, cfg, c);
    var s', all := Step(s, i, cfg, c), log + [i.msg];
    forall h | h in s'.executed
      ensures exists j :: 0 <= j < |all| && h == HashAction(c, all[j])
    {
      if h in s.executed {
        var j :| 0 <= j < |log| && h == HashAction(c, log[j]);
        assert all[j] == log[j];
      } else {
        assert all[|log|] == i.msg;
      }
    }
  }

  lemma NewHash(log: seq<SignedAction>, n: nat, c: Crypto)
    requires n < |log| && NoRepeats(log) && CollisionFree(log, c)
    ensures forall j :: 0 <= j < n ==> HashAction(c, log[n]) != HashAction(c, log[..n][j])
  {
    hide Canonical;
    hide HashAction;
  }

  lemma {:induction false} ReplayPrefix(log: seq<SignedAction>, clocks: seq<u64>, n: nat, g: u64, cfg: Config, c: Crypto)
    requires |clocks| == |log| && n <= |log|
    requires CustodyChain(log, cfg, c) && NoRepeats(log) && CollisionFree(log, c)
    requires forall i :: 0 <= i < |log| ==> !IsStale(log[i].timestamp, clocks[i], cfg.maxAge)
    ensures Replayed(Run(New(g), ReplayInputs(log, clocks)[..n], cfg, c), log[..n], cfg, c)
    decreases n
  {
    hide Canonical;
    hide Step;
    hide HashAction;
    hide AuthorizedAfter;
    hide Explained;
    hide IsStale;
    if n == 0 {
      RunExplained(g, [], cfg, c);
    } else {
      ReplayPrefix(log, clocks, n - 1, g, cfg, c);
      var inputs := ReplayInputs(log, clocks);
      assert inputs[..n][..n - 1] == inputs[..n - 1];
      assert log[..n] == log[..n - 1] + [log[n - 1]];
      NewHash(log, n - 1, c);
      ReplayStep(Run(New(g), inputs[..n - 1], cfg, c), log[..n - 1], inputs[n - 1], cfg, c);
    }
  }

  /** Log replay convergence: a fresh node fed the log of any run, each entry within the staleness window of its
      own clock, accepts every entry and ends with the same key, halt flag and log. */
  lemma ReplayConverges(g: u64, inputs: seq<Input>, limit: u64, g': u64, clocks: seq<u64>, cfg: Config, c: Crypto)
    requires Nondecreasing(inputs, limit) && WindowFits(limit, cfg.maxAge)
    requires |clocks| == |Run(New(g), inputs, cfg, c).log|
    requires CollisionFree(Run(New(g), inputs, cfg, c).log, c)
    requires forall i :: 0 <= i < |clocks| ==>
                           !IsStale(Run(New(g), inputs, cfg, c).log[i].timestamp, clocks[i], cfg.maxAge)
    ensures var origin := Run(New(g), inputs, cfg, c);
            var replayed := Run(New(g'), ReplayInputs(origin.log, clocks), cfg, c);
            && Accepted(New(g'), ReplayInputs(origin.log, clocks), cfg, c) == origin.log
            && replayed.log == origin.log
            && replayed.activeKey == origin.activeKey
            && replayed.isHalted == origin.isHalted
  {
    hide Canonical;
    hide Run;
    hide Accepted;
    var log := Run(New(g), inputs, cfg, c).log;
    RunInvariant(g, inputs, limit, cfg, c);
    RunExplained(g, inputs, cfg, c);
    ReplayPrefix(log, clocks, |log|, g', cfg, c);
    var again := ReplayInputs(log, clocks);
    assert again[..|log|] == again && log[..|log|] == log;
    LogIsAccepted(New(g'), again, cfg, c);
    assert [] + Accepted(New(g'), again, cfg, c) == Accepted(New(g'), again, cfg, c);
  }
}
