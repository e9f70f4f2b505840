/** The network-action state machine of kinetic-action: verification, execution, pruning and pause accounting. */
module Actions {
  import opened Numbers
  import opened ByteStrings
  import opened Results
  import opened ActionCodec

  datatype ActionError =
    | StaleProposal
    | InvalidSignature
    | KeyLengthMismatch
    | MalformedSovereignKey
    | ActionDisabled
    | AlreadyExecuted

  datatype ActionEffect = SovereignKeyRotated(newKey: Bytes) | NetworkHalted | NetworkResumed

  datatype ActionModel = Sovereign | Permissionless

  /** `sovereignKey` is the hex-decoded configuration string, None when it is not valid hex. */
  datatype Config = Config(sovereignKey: Option<Bytes>, maxAge: u64, model: ActionModel)

  /** SHA-256 and signature verification (public key, message, signature). */
  datatype Crypto = Crypto(sha256: Bytes -> Hash, verify: (Bytes, Bytes, Bytes) -> bool)

  /** The value of an `ActionState`. */
  datatype State = State(
    genesis: u64,
    activeKey: Option<Bytes>,
    isHalted: bool,
    haltStart: Option<u64>,
    totalPaused: u64,
    pauses: seq<(u64, u64)>,
    executed: map<Hash, u64>,
    log: seq<SignedAction>)

  function New(genesis: u64): State {
    State(genesis, None, false, None, 0, [], map[], [])
  }

  function HashAction(c: Crypto, msg: SignedAction): Hash { c.sha256(Canonical(msg)) }

  /** `sovereign_key` */
  function SovereignKey(active: Option<Bytes>, cfg: Config): Result<Bytes, ActionError> {
    if active.Some? then Ok(active.value)
    else match cfg.sovereignKey
      case None => Err(MalformedSovereignKey)
      case Some(k) => if |k| != PUBKEY_LENGTH then Err(KeyLengthMismatch) else Ok(k)
  }

  predicate IsStale(timestamp: u64, kyn: u64, maxAge: u64) {
    timestamp > kyn + maxAge || kyn > timestamp + maxAge
  }

  predicate SignedBy(c: Crypto, msg: SignedAction, key: Bytes) {
    exists i :: 0 <= i < |msg.signatures| && c.verify(key, Canonical(msg), msg.signatures[i])
  }

  function EffectOf(a: NetworkAction): ActionEffect {
    match a
    case RotateSovereignKey(k) => SovereignKeyRotated(k)
    case EmergencyHalt => NetworkHalted
    case EmergencyResume => NetworkResumed
  }

  /** `verify_action` of the configured engine */
  function VerifyAction(active: Option<Bytes>, msg: SignedAction, kyn: u64, cfg: Config, c: Crypto)
    : Result<ActionEffect, ActionError>
  {
    if cfg.model.Permissionless? then Err(ActionDisabled)
    else if IsStale(msg.timestamp, kyn, cfg.maxAge) then Err(StaleProposal)
    else match SovereignKey(active, cfg)
      case Err(e) => Err(e)
      case Ok(key) =>
        if !SignedBy(c, msg, key) then Err(InvalidSignature)
        else if msg.action.RotateSovereignKey? && |msg.action.newKey| != PUBKEY_LENGTH then Err(KeyLengthMismatch)
        else Ok(EffectOf(msg.action))
  }

  /** `prune`: the retained test adds without an overflow check. */
  function PruneMap(executed: map<Hash, u64>, kyn: u64, maxAge: u64): map<Hash, u64> {
    map h | h in executed && kyn <= WrapAdd(executed[h], maxAge) :: executed[h]
  }

  /** The halt and resume bookkeeping of `execute_action`. */
  function Execute(s: State, msg: SignedAction, kyn: u64, c: Crypto): State {
    var s1 := s.(executed := s.executed[HashAction(c, msg) := msg.timestamp]);
    match msg.action
    case RotateSovereignKey(k) => s1.(activeKey := Some(k))
    case EmergencyHalt =>
      if s1.isHalted then s1
      else s1.(isHalted := true, haltStart := if s1.haltStart.None? then Some(kyn) else s1.haltStart)
    case EmergencyResume =>
      if !s1.isHalted then s1
      else
        var start := if s1.haltStart.Some? then s1.haltStart.value else kyn;
        s1.(isHalted := false, haltStart := None,
        totalPaused := SaturatingAdd(s1.totalPaused, SaturatingSub(kyn, start)),
        pauses := s1.pauses + [(start, kyn)])
  }

  /** `process_action_message` */
  function Process(s: State, msg: SignedAction, kyn: u64, cfg: Config, c: Crypto)
    : (State, Result<ActionEffect, ActionError>)
  {
    var effect := VerifyAction(s.activeKey, msg, kyn, cfg, c);
    if effect.Err? then (s, effect)
    else
      var pruned := s.(executed := PruneMap(s.executed, kyn, cfg.maxAge));
      if HashAction(c, msg) in pruned.executed then (pruned, Err(AlreadyExecuted))
      else
        var done := Execute(pruned, msg, kyn, c);
        (done.(log := done.log + [msg]), effect)
  }

  /** The mutable record, updated in place as the source does. */
  class ActionState {
    var genesis: u64
    var activeKey: Option<Bytes>
    var isHalted: bool
    var haltStart: Option<u64>
    var totalPaused: u64
    var pauses: seq<(u64, u64)>
    var executed: map<Hash, u64>
    var log: seq<SignedAction>

    ghost function View(): State
      reads this
    {
      State(genesis, activeKey, isHalted, haltStart, totalPaused, pauses, executed, log)
    }

    constructor (genesisKyn: u64)
      ensures View() == New(genesisKyn) && genesis == genesisKyn
      ensures activeKey == None && !isHalted && haltStart == None && totalPaused == 0
      ensures pauses == [] && executed == map[] && log == []
    {
      genesis, activeKey, isHalted, haltStart := genesisKyn, None, false, None;
      totalPaused, pauses, executed, log := 0, [], map[], [];
    }

    method Prune(kyn: u64, cfg: Config)
      modifies this`executed
      ensures executed == PruneMap(old(executed), kyn, cfg.maxAge)
    {
      executed := map h | h in executed && kyn <= WrapAdd(executed[h], cfg.maxAge) :: executed[h];
    }

    method ExecuteAction(msg: SignedAction, kyn: u64, c: Crypto)
      modifies this
      ensures View() == Execute(old(View()), msg, kyn, c)
    {
      executed := executed[HashAction(c, msg) := msg.timestamp];
      match msg.action
      case RotateSovereignKey(k) =>
        activeKey := Some(k);
      case EmergencyHalt =>
        if !isHalted {
          isHalted := true;
          if haltStart.None? {
            haltStart := Some(kyn);
          }
        }
      case EmergencyResume =>
        if isHalted {
          isHalted := false;
          var start := if haltStart.Some? then haltStart.value else kyn;
          haltStart := None;
          totalPaused := SaturatingAdd(totalPaused, SaturatingSub(kyn, start));
          pauses := pauses + [(start, kyn)];
        }
    }

    method ProcessActionMessage(msg: SignedAction, kyn: u64, cfg: Config, c: Crypto)
      returns (r: Result<ActionEffect, ActionError>)
      modifies this
      ensures (View(), r) == Process(old(View()), msg, kyn, cfg, c)
    {
      r := VerifyAction(activeKey, msg, kyn, cfg, c);
      if r.Err? {
        return;
      }
      Prune(kyn, cfg);
      if HashAction(c, msg) in executed {
        return Err(AlreadyExecuted);
      }
      ExecuteAction(msg, kyn, c);
      log := log + [msg];
    }

    /** `paused_kyns_since`: plain u64 additions over the closed pauses. */
    method PausedKynsSince(target: u64) returns (total: u64)
      ensures total == PausedSince(pauses, target) % U64_LIMIT
    {
      total := 0;
      for i := 0 to |pauses|
        invariant total == PausedSince(pauses[..i], target) % U64_LIMIT
      {
        var (start, end) := pauses[i];
        assert pauses[..i + 1][..i] == pauses[..i];
        WrapAddTracksSum(total, Overlap(pauses[i], target), PausedSince(pauses[..i], target));
        if end <= target {
          continue;
        }
        if start >= target {
          total := WrapAdd(total, SaturatingSub(end, start));
        } else {
          total := WrapAdd(total, SaturatingSub(end, target));
        }
      }
      assert pauses[..|pauses|] == pauses;
    }
  }

  /** How much of one pause lies at or after `target`. */
  function Overlap(p: (u64, u64), target: u64): u64 {
    if p.1 <= target then 0
    else if p.0 >= target then SaturatingSub(p.1, p.0)
    else SaturatingSub(p.1, target)
  }

  function PausedSince(pauses: seq<(u64, u64)>, target: u64): nat {
    if |pauses| == 0 then 0
    else PausedSince(pauses[..|pauses| - 1], target) + Overlap(pauses[|pauses| - 1], target)
  }
}
