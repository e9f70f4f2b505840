/** The identity lifecycle of kinetic-local/src/kid_manager.rs over the key, document and manifest files. */
module KidManager {
  import opened Numbers
  import opened ByteStrings
  import opened Results
  import opened KidDocuments

  /** A normalized name as its labels; the last two form the apex. */
  type Name = seq<string>

  function Apex(n: Name): Name { if |n| >= 2 then n[|n| - 2..] else n }

  datatype ManagerError =
    | KidAlreadyExists | KidNotFound | KidSigningFailed | KidDeactivated | ManifestSigningFailed | MalformedManifest

  /** The three file families, one file each per name. */
  datatype Files = Files(docs: map<Name, Document>, keys: map<Name, Bytes>, manifests: map<Name, Manifest>)

  const EMPTY_FILES: Files := Files(map[], map[], map[])

  function GenesisDocument(e: Env, sk: Bytes, now: u64): Document {
    var kid := DidOf(e, e.publicOf(sk));
    Document(kid, now, [PrimaryKey(e, kid, sk)], None, [], false, None)
  }

  /** `get_or_create_kid_for_name`; `newKey` is the generated private key. */
  function Create(e: Env, f: Files, name: Name, inherit: bool, force: bool, now: u64, newKey: Bytes)
    : (Files, Result<Document, ManagerError>)
  {
    if name != Apex(name) && inherit && Apex(name) in f.docs then (f, Ok(f.docs[Apex(name)]))
    else if name in f.docs && !force then (f, Err(KidAlreadyExists))
    else
      var signed := SignDocument(e, GenesisDocument(e, newKey, now), newKey);
      if signed.Err? then (f, Err(KidSigningFailed))
      else (f.(keys := f.keys[name := newKey], docs := f.docs[name := signed.value]), Ok(signed.value))
  }

  function RotatedDocument(e: Env, d: Document, newKey: Bytes): Document {
    d.(controllerKeys := [PrimaryKey(e, d.kid, newKey)], signature := None)
  }

  /** `rotate_name_kid`: the new key list, signed with the outgoing key. */
  function Rotate(e: Env, f: Files, name: Name, newKey: Bytes): (Files, Result<Document, ManagerError>) {
    if name !in f.docs || name !in f.keys then (f, Err(KidNotFound))
    else
      var signed := SignDocument(e, RotatedDocument(e, f.docs[name], newKey), f.keys[name]);
      if signed.Err? then (f, Err(KidSigningFailed))
      else (f.(keys := f.keys[name := newKey], docs := f.docs[name := signed.value]), Ok(signed.value))
  }

  /** `revoke_local_kid` */
  function Revoke(e: Env, f: Files, name: Name): (Files, Result<Document, ManagerError>) {
    if name !in f.docs || name !in f.keys then (f, Err(KidNotFound))
    else
      var signed := SignDocument(e, f.docs[name].(deactivated := true, signature := None), f.keys[name]);
      if signed.Err? then (f, Err(KidSigningFailed))
      else (f.(docs := f.docs[name := signed.value]), Ok(signed.value))
  }

  /** Which name's files `load_local_kid` and its siblings fall back to. */
  function Effective<T>(m: map<Name, T>, name: Name): Option<Name> {
    if name in m then Some(name) else if Apex(name) in m then Some(Apex(name)) else None
  }

  /** `load_local_manifest`: reading back a manifest with more than 50 services fails. */
  function LoadManifest(f: Files, name: Name): Result<Option<Manifest>, ManagerError> {
    var at := Effective(f.manifests, name);
    if at.None? then Ok(None)
    else if |f.manifests[at.value].services| > 50 then Err(MalformedManifest)
    else Ok(Some(f.manifests[at.value]))
  }

  function NextVersion(existing: Option<Manifest>): u64 {
    if existing.None? then 1 else SaturatingAdd(existing.value.version, 1)
  }

  /** `save_and_sign_local_manifest` */
  function Save(e: Env, f: Files, name: Name, services: seq<Service>, now: u64)
    : (Files, Result<Manifest, ManagerError>)
  {
    var docAt, keyAt := Effective(f.docs, name), Effective(f.keys, name);
    if docAt.None? then (f, Err(KidNotFound))
    else
      var doc := f.docs[docAt.value];
      if doc.deactivated then (f, Err(KidDeactivated))
      else if keyAt.None? then (f, Err(KidNotFound))
      else
        var existing := LoadManifest(f, name);
        if existing.Err? then (f, Err(existing.error))
        else
          var m := Manifest(doc.kid, NextVersion(existing.value), now, None, services, None);
          var signed := SignManifest(e, m, f.keys[keyAt.value]);
          if signed.Err? then (f, Err(ManifestSigningFailed))
          else (f.(manifests := f.manifests[name := signed.value]), Ok(signed.value))
  }

  /** The apex is the last two labels. */
  lemma ApexIsLastTwo(n: Name)
    ensures |Apex(n)| <= 2 && (|n| <= 2 <==> Apex(n) == n)
    ensures exists front: Name :: n == front + Apex(n) && (|n| > 2 ==> |front| == |n| - 2)
  {
    assert n == n[..|n| - |Apex(n)|] + Apex(n);
  }

  /** A name's own file comes first, its apex's second. */
  lemma EffectiveExactlyWhen<T>(m: map<Name, T>, name: Name, at: Name)
    ensures Effective(m, name) == Some(at) <==> at in m && (at == name || (at == Apex(name) && name !in m))
    ensures Effective(m, name).None? <==> name !in m && Apex(name) !in m
  {
    hide Apex;
  }

  /** Every outcome of a creation: the apex's document when it is inherited, a refusal to overwrite, a failure to
      canonicalize, or a new key and the active document it signs. */
  lemma CreateOutcome(e: Env, f: Files, name: Name, inherit: bool, force: bool, now: u64, newKey: Bytes)
    ensures var (f', r) := Create(e, f, name, inherit, force, now, newKey);
            var inherits := inherit && name != Apex(name) && Apex(name) in f.docs;
            var kid := e.didPrefix + Hex(e.sha256(e.publicOf(newKey)));
            var unsigned := Document(kid, now, [PrimaryKey(e, kid, newKey)], None, [], false, None);
            var canon := e.canonDocument(unsigned);
            && (inherits ==> f' == f && r == Ok(f.docs[Apex(name)]))
            && (r == Err(KidAlreadyExists) <==> !inherits && name in f.docs && !force)
            && (r == Err(KidSigningFailed) <==> !inherits && (name in f.docs ==> force) && canon.None?)
            && (r.Err? ==> f' == f && (r.error == KidAlreadyExists || r.error == KidSigningFailed))
            && (!inherits && r.Ok? ==>
                  && r.value == unsigned.(signature := Some(e.encode(e.sign(newKey, e.kidDomain + canon.value))))
                  && f' == f.(keys := f.keys[name := newKey], docs := f.docs[name := r.value]))
  {
    hide Apex;
    hide Hex;
    hide PrimaryKey;
  }

  /** A rotation needs the document, the key and a canonical form; it changes the key list and the signature, which the
      old key makes, and nothing else. */
  lemma RotateOutcome(e: Env, f: Files, name: Name, newKey: Bytes)
    ensures var (f', r) := Rotate(e, f, name, newKey);
            && (r == Err(KidNotFound) <==> name !in f.docs || name !in f.keys)
            && (r.Err? ==> f' == f && (r.error == KidNotFound || r.error == KidSigningFailed))
    ensures name in f.docs && name in f.keys ==>
              var (f', r) := Rotate(e, f, name, newKey);
              var listed := [PrimaryKey(e, f.docs[name].kid, newKey)];
              var unsigned := f.docs[name].(controllerKeys := listed, signature := None);
              var canon := e.canonDocument(unsigned);
              && (r.Ok? <==> canon.Some?)
              && (r.Ok? ==>
                    && r.value == unsigned.(signature := Some(e.encode(e.sign(f.keys[name], e.kidDomain + canon.value))))
                    && f' == f.(keys := f.keys[name := newKey], docs := f.docs[name := r.value]))
  {
    hide PrimaryKey;
  }

  /** A revocation needs the same; it sets the flag and the signature, and keeps the key. */
  lemma RevokeOutcome(e: Env, f: Files, name: Name)
    ensures var (f', r) := Revoke(e, f, name);
            && (r == Err(KidNotFound) <==> name !in f.docs || name !in f.keys)
            && (r.Err? ==> f' == f && (r.error == KidNotFound || r.error == KidSigningFailed))
    ensures name in f.docs && name in f.keys ==>
              var (f', r) := Revoke(e, f, name);
              var unsigned := f.docs[name].(deactivated := true, signature := None);
              var canon := e.canonDocument(unsigned);
              && (r.Ok? <==> canon.Some?)
              && (r.Ok? ==>
                    && r.value == unsigned.(signature := Some(e.encode(e.sign(f.keys[name], e.kidDomain + canon.value))))
                    && f' == f.(docs := f.docs[name := r.value]))
  {
  }

  /** A save fails exactly without a document, for a deactivated one, without a key, behind a manifest that cannot be
      read back, or without a canonical form; the first of these names the error. */
  lemma SaveOutcome(e: Env, f: Files, name: Name, services: seq<Service>, now: u64)
    ensures var (f', r) := Save(e, f, name, services, now);
            var docAt, keyAt, manifestAt := Effective(f.docs, name), Effective(f.keys, name), Effective(f.manifests, name);
            var deactivated := docAt.Some? && f.docs[docAt.value].deactivated;
            var oversized := manifestAt.Some? && |f.manifests[manifestAt.value].services| > 50;
            && (r.Err? ==> f' == f)
            && (r == Err(KidNotFound) <==> docAt.None? || (!deactivated && keyAt.None?))
            && (r == Err(KidDeactivated) <==> deactivated)
            && (r == Err(MalformedManifest) <==> docAt.Some? && !deactivated && keyAt.Some? && oversized)
            && (docAt.Some? && !deactivated && keyAt.Some? && !oversized ==>
                  var version := if manifestAt.None? then 1
                                 else Min(f.manifests[manifestAt.value].version + 1, U64_LIMIT - 1);
                  var unsigned := Manifest(f.docs[docAt.value].kid, version, now, None, services, None);
                  var canon := e.canonManifest(unsigned);
                  && (canon.None? ==> r == Err(ManifestSigningFailed))
                  && (canon.Some? ==>
                        var sig := e.encode(e.sign(f.keys[keyAt.value], e.manifestDomain + canon.value));
                        && r == Ok(unsigned.(signature := Some(sig)))
                        && f' == f.(manifests := f.manifests[name := r.value])))
  {
    hide Apex;
  }

  datatype Operation =
    | CreateOp(name: Name, inherit: bool, force: bool, now: u64, newKey: Bytes)
    | RotateOp(name: Name, newKey: Bytes)
    | RevokeOp(name: Name)
    | SaveOp(name: Name, services: seq<Service>, now: u64)

  function Step(e: Env, f: Files, op: Operation): Files {
    match op
    case CreateOp(n, i, force, now, newKey) => Create(e, f, n, i, force, now, newKey).0
    case RotateOp(n, newKey) => Rotate(e, f, n, newKey).0
    case RevokeOp(n) => Revoke(e, f, n).0
    case SaveOp(n, s, now) => Save(e, f, n, s, now).0
  }

  /** A step is the operation it names, with that operation's arguments. */
  lemma StepPerforms(e: Env, f: Files, op: Operation)
    ensures op.CreateOp? ==> Step(e, f, op) == Create(e, f, op.name, op.inherit, op.force, op.now, op.newKey).0
    ensures op.RotateOp? ==> Step(e, f, op) == Rotate(e, f, op.name, op.newKey).0
    ensures op.RevokeOp? ==> Step(e, f, op) == Revoke(e, f, op.name).0
    ensures op.SaveOp? ==> Step(e, f, op) == Save(e, f, op.name, op.services, op.now).0
  {
    hide Create;
    hide Rotate;
    hide Revoke;
    hide Save;
  }

  function Run(e: Env, f: Files, ops: seq<Operation>): Files
    decreases |ops|
  {
    if |ops| == 0 then f else Run(e, Step(e, f, ops[0]), ops[1..])
  }

  /** The key on disk is the one, and the only one, the document on disk lists. */
  ghost predicate KeysMatchDocuments(e: Env, f: Files) {
    && f.keys.Keys == f.docs.Keys
    && forall n :: n in f.docs ==> f.docs[n].controllerKeys == [PrimaryKey(e, f.docs[n].kid, f.keys[n])]
  }

  lemma StepKeepsKeysMatching(e: Env, f: Files, op: Operation)
    requires KeysMatchDocuments(e, f)
    ensures KeysMatchDocuments(e, Step(e, f, op))
  {
    hide PrimaryKey;
    hide DocumentMessage;
    hide Save;
    match op
    case CreateOp(n, i, force, now, newKey) =>
    case RotateOp(n, newKey) =>
    case RevokeOp(n) =>
    case SaveOp(n, s, now) =>
      SaveTouchesManifestsOnly(e, f, n, s, now);
  }

  lemma SaveTouchesManifestsOnly(e: Env, f: Files, name: Name, services: seq<Service>, now: u64)
    ensures var f' := Save(e, f, name, services, now).0; f'.docs == f.docs && f'.keys == f.keys
  {
  }

  lemma {:induction false} RunKeepsKeysMatching(e: Env, f: Files, ops: seq<Operation>)
    requires KeysMatchDocuments(e, f)
    ensures KeysMatchDocuments(e, Run(e, f, ops))
    decreases |ops|
  {
    hide Step;
    if |ops| > 0 {
      StepKeepsKeysMatching(e, f, ops[0]);
      RunKeepsKeysMatching(e, Step(e, f, ops[0]), ops[1..]);
    }
  }

  predicate ForcesRecreation(op: Operation, name: Name) { op.CreateOp? && op.name == name && op.force }

  /** One document replaces another without breaking the identity: same DID and creation time, authorized by its
      predecessor, and never reactivated. */
  ghost predicate Succeeds(e: Env, d: Document, previous: Document) {
    && d.kid == previous.kid && d.createdAt == previous.createdAt
    && (previous.deactivated ==> d.deactivated)
    && (d == previous || IsAuthorized(e, d, previous))
  }

  /** A re-signed document succeeds the one it replaces. */
  lemma ResignedSucceeds(e: Env, d: Document, previous: Document, sk: Bytes)
    requires e.Correct() && previous.controllerKeys == [PrimaryKey(e, previous.kid, sk)]
    requires d.kid == previous.kid && d.createdAt == previous.createdAt && (previous.deactivated ==> d.deactivated)
    requires SignDocument(e, d, sk).Ok?
    ensures Succeeds(e, SignDocument(e, d, sk).value, previous)
  {
    SignedUpdateIsAuthorized(e, d, previous, sk);
    hide IsAuthorized;
    hide PrimaryKey;
    hide DocumentMessage;
  }

  lemma RotateSucceeds(e: Env, f: Files, at: Name, newKey: Bytes, name: Name)
    requires e.Correct() && KeysMatchDocuments(e, f) && name in f.docs
    ensures var docs := Rotate(e, f, at, newKey).0.docs; name in docs && Succeeds(e, docs[name], f.docs[name])
  {
    hide PrimaryKey;
    hide IsAuthorized;
    hide SignDocument;
    if at == name && SignDocument(e, RotatedDocument(e, f.docs[name], newKey), f.keys[name]).Ok? {
      ResignedSucceeds(e, RotatedDocument(e, f.docs[name], newKey), f.docs[name], f.keys[name]);
    }
  }

  lemma RevokeSucceeds(e: Env, f: Files, at: Name, name: Name)
    requires e.Correct() && KeysMatchDocuments(e, f) && name in f.docs
    ensures var docs := Revoke(e, f, at).0.docs; name in docs && Succeeds(e, docs[name], f.docs[name])
  {
    hide PrimaryKey;
    hide IsAuthorized;
    hide SignDocument;
    var d := f.docs[name].(deactivated := true, signature := None);
    if at == name && SignDocument(e, d, f.keys[name]).Ok? {
      ResignedSucceeds(e, d, f.docs[name], f.keys[name]);
    }
  }

  /** Custody over one step: only a forced re-creation can replace a document by an unauthorized one. */
  lemma StepSucceeds(e: Env, f: Files, op: Operation, name: Name)
    requires e.Correct() && KeysMatchDocuments(e, f) && name in f.docs && !ForcesRecreation(op, name)
    ensures name in Step(e, f, op).docs && Succeeds(e, Step(e, f, op).docs[name], f.docs[name])
  {
    hide KeysMatchDocuments;
    hide SignDocument;
    hide IsAuthorized;
    hide Save;
    hide Rotate;
    hide Revoke;
    match op
    case CreateOp(n, i, force, now, newKey) =>
    case RotateOp(n, newKey) =>
      RotateSucceeds(e, f, n, newKey, name);
    case RevokeOp(n) =>
      RevokeSucceeds(e, f, n, name);
    case SaveOp(n, s, now) =>
      SaveTouchesManifestsOnly(e, f, n, s, now);
  }

  ghost predicate NoForced(ops: seq<Operation>, name: Name) {
    forall i :: 0 <= i < |ops| ==> !ForcesRecreation(ops[i], name)
  }

  /** The documents a name has had during a run, first to last. */
  function History(e: Env, f: Files, ops: seq<Operation>, name: Name): seq<Document>
    decreases |ops|
  {
    var here := if name in f.docs then [f.docs[name]] else [];
    if |ops| == 0 then here else here + History(e, Step(e, f, ops[0]), ops[1..], name)
  }

  /** Chain of custody over whole runs: without a forced re-creation, every document of a name succeeds the one
      before it. */
  lemma {:induction false} CustodyOverRuns(e: Env, f: Files, ops: seq<Operation>, name: Name)
    requires e.Correct() && KeysMatchDocuments(e, f) && name in f.docs && NoForced(ops, name)
    ensures name in Run(e, f, ops).docs
    ensures var h := History(e, f, ops, name);
            && |h| == |ops| + 1 && h[0] == f.docs[name] && h[|ops|] == Run(e, f, ops).docs[name]
            && forall i :: 0 < i < |h| ==> Succeeds(e, h[i], h[i - 1])
    decreases |ops|
  {
    hide Step;
    hide Succeeds;
    hide PrimaryKey;
    if |ops| > 0 {
      StepSucceeds(e, f, ops[0], name);
      StepKeepsKeysMatching(e, f, ops[0]);
      CustodyOverRuns(e, Step(e, f, ops[0]), ops[1..], name);
      var h, rest := History(e, f, ops, name), History(e, Step(e, f, ops[0]), ops[1..], name);
      assert h == [f.docs[name]] + rest;
      forall i | 0 < i < |h|
        ensures Succeeds(e, h[i], h[i - 1])
      {
        assert h[i] == rest[i - 1];
        assert i > 1 ==> h[i - 1] == rest[i - 2];
      }
    }
  }

  /** DID, creation time and revocation are permanent until a forced re-creation. */
  lemma {:induction false} IdentityIsStable(e: Env, f: Files, ops: seq<Operation>, name: Name)
    requires e.Correct() && KeysMatchDocuments(e, f) && name in f.docs && NoForced(ops, name)
    ensures name in Run(e, f, ops).docs
    ensures var d := Run(e, f, ops).docs[name];
            && d.kid == f.docs[name].kid && d.createdAt == f.docs[name].createdAt
            && (f.docs[name].deactivated ==> d.deactivated)
    decreases |ops|
  {
    hide Step;
    hide PrimaryKey;
    hide IsAuthorized;
    if |ops| > 0 {
      StepSucceeds(e, f, ops[0], name);
      StepKeepsKeysMatching(e, f, ops[0]);
      IdentityIsStable(e, Step(e, f, ops[0]), ops[1..], name);
    }
  }

  /** After a successful revocation no manifest is signed for that name, however the run goes on, until a forced
      re-creation. */
  lemma RevocationStopsManifests(e: Env, f: Files, name: Name, ops: seq<Operation>, services: seq<Service>, now: u64)
    requires e.Correct() && KeysMatchDocuments(e, f) && NoForced(ops, name)
    requires Revoke(e, f, name).1.Ok?
    ensures var f' := Run(e, Revoke(e, f, name).0, ops);
            Save(e, f', name, services, now) == (f', Err(KidDeactivated))
  {
    hide Run;
    hide Step;
    hide PrimaryKey;
    var revoked := Revoke(e, f, name).0;
    StepPerforms(e, f, RevokeOp(name));
    StepKeepsKeysMatching(e, f, RevokeOp(name));
    IdentityIsStable(e, revoked, ops, name);
  }

  /** No document lists a revocation key. */
  ghost predicate NoRevocationKeys(f: Files) {
    forall n :: n in f.docs ==> f.docs[n].revocationKeys == []
  }

  lemma StepKeepsNoRevocationKeys(e: Env, f: Files, op: Operation)
    requires NoRevocationKeys(f)
    ensures NoRevocationKeys(Step(e, f, op))
  {
    hide PrimaryKey;
    hide DocumentMessage;
    hide Save;
    if op.SaveOp? {
      SaveTouchesManifestsOnly(e, f, op.name, op.services, op.now);
    }
  }

  lemma {:induction false} RunKeepsNoRevocationKeys(e: Env, f: Files, ops: seq<Operation>)
    requires NoRevocationKeys(f)
    ensures NoRevocationKeys(Run(e, f, ops))
    decreases |ops|
  {
    hide Step;
    if |ops| > 0 {
      StepKeepsNoRevocationKeys(e, f, ops[0]);
      RunKeepsNoRevocationKeys(e, Step(e, f, ops[0]), ops[1..]);
    }
  }

  /** A revocation is signed with the controller key, so it passes `verify` only if that signature also verifies under
      a revocation key the document lists; its predecessor authorizes it all the same. */
  lemma RevokedDocumentVerifiesExactlyWhen(e: Env, f: Files, name: Name)
    requires e.Correct() && KeysMatchDocuments(e, f) && Revoke(e, f, name).1.Ok?
    ensures var d := Revoke(e, f, name).1.value;
            var msg := DocumentMessage(e, d);
            && msg.Some? && d.deactivated && IsAuthorized(e, d, f.docs[name])
            && (VerifyDocument(e, d) == Ok(()) <==>
                  && DocumentLimits(e, d).Ok?
                  && SomeRevokerAccepts(e, f.docs[name].revocationKeys, msg.value, e.sign(f.keys[name], msg.value)))
  {
    hide PrimaryKey;
    hide SomeControllerAccepts;
    hide SomeRevokerAccepts;
    hide DocumentLimits;
    var unsigned := f.docs[name].(deactivated := true, signature := None);
    SignedUpdateIsAuthorized(e, unsigned, f.docs[name], f.keys[name]);
    hide IsAuthorized;
    var d := Revoke(e, f, name).1.value;
    assert d.(signature := None) == unsigned.(signature := None);
  }

  /** The manager never lists a revocation key: in every run from empty files a revocation is authorized by its
      predecessor, but no deactivated document ever passes `verify`. */
  lemma RevokedNeverVerifies(e: Env, ops: seq<Operation>, name: Name)
    requires e.Correct()
    ensures var f := Run(e, EMPTY_FILES, ops);
            && (name in f.docs && f.docs[name].deactivated ==> VerifyDocument(e, f.docs[name]).Err?)
            && (Revoke(e, f, name).1.Ok? ==>
                  var d := Revoke(e, f, name).1.value;
                  IsAuthorized(e, d, f.docs[name]) && VerifyDocument(e, d).Err?)
  {
    hide Run;
    hide PrimaryKey;
    hide IsAuthorized;
    hide DocumentLimits;
    RunKeepsKeysMatching(e, EMPTY_FILES, ops);
    RunKeepsNoRevocationKeys(e, EMPTY_FILES, ops);
    var f := Run(e, EMPTY_FILES, ops);
    if Revoke(e, f, name).1.Ok? {
      RevokedDocumentVerifiesExactlyWhen(e, f, name);
    }
  }

  /** With matching keys, the document and the key a name resolves to belong together. */
  lemma EffectiveAgree(e: Env, f: Files, name: Name)
    requires KeysMatchDocuments(e, f)
    ensures Effective(f.docs, name) == Effective(f.keys, name)
  {
  }

  /** A manifest signed with one key, judged against a document that lists one key alone. */
  lemma SignedManifestVerifiesExactlyWhen(e: Env, m: Manifest, sk: Bytes, d: Document, listed: Bytes, at: u64)
    requires e.Correct() && SignManifest(e, m, sk).Ok? && m.expiresAt.None? && m.kid == d.kid
    requires d.controllerKeys == [PrimaryKey(e, d.kid, listed)]
    ensures var signed := SignManifest(e, m, sk).value;
            var msg := ManifestMessage(e, signed);
            && msg.Some?
            && (VerifyManifest(e, signed, d, at) == Ok(()) <==>
                  && ServicesInLimits(e, m.services) && m.validFrom <= WrapAdd(at, 300)
                  && e.verify(e.publicOf(listed), msg.value, e.sign(sk, msg.value)))
  {
    hide SomeControllerAccepts;
    hide PrimaryKey;
    var signed := SignManifest(e, m, sk).value;
    assert signed.(signature := None) == m.(signature := None);
    var msg := ManifestMessage(e, signed).value;
    SoleKeyAccepts(e, d.kid, listed, msg, e.sign(sk, msg));
  }

  /** What a successful save signs, and with which key. */
  lemma SaveSigns(e: Env, f: Files, name: Name, services: seq<Service>, now: u64) returns (at: Name, m: Manifest)
    requires KeysMatchDocuments(e, f) && Save(e, f, name, services, now).1.Ok?
    ensures Effective(f.docs, name) == Some(at) && at in f.docs && at in f.keys && !f.docs[at].deactivated
    ensures LoadManifest(f, name).Ok?
    ensures m == Manifest(f.docs[at].kid, NextVersion(LoadManifest(f, name).value), now, None, services, None)
    ensures SignManifest(e, m, f.keys[at]) == Ok(Save(e, f, name, services, now).1.value)
    ensures var (saved, r) := Save(e, f, name, services, now);
            saved == f.(manifests := f.manifests[name := r.value])
  {
    hide SignManifest;
    hide PrimaryKey;
    EffectiveAgree(e, f, name);
    at := Effective(f.docs, name).value;
    m := Manifest(f.docs[at].kid, NextVersion(LoadManifest(f, name).value), now, None, services, None);
  }

  /** A signed manifest names the resolved document's DID, carries a higher version than the manifest it supersedes,
      and verifies against that document at a given time exactly when its services are within limits and its start
      is not more than five minutes ahead. */
  lemma SavedManifestVerifies(e: Env, f: Files, name: Name, services: seq<Service>, now: u64, at: u64)
    requires e.Correct() && KeysMatchDocuments(e, f)
    requires Save(e, f, name, services, now).1.Ok?
    ensures Effective(f.docs, name).Some?
    ensures var doc := f.docs[Effective(f.docs, name).value];
            var m := Save(e, f, name, services, now).1.value;
            && !doc.deactivated && m.kid == doc.kid && m.validFrom == now && m.services == services
            && (VerifyManifest(e, m, doc, at) == Ok(()) <==> ServicesInLimits(e, services) && now <= WrapAdd(at, 300))
    ensures var existing := LoadManifest(f, name).value;
            var m := Save(e, f, name, services, now).1.value;
            && (existing.None? ==> m.version == 1)
            && (existing.Some? && existing.value.version < U64_LIMIT - 1 ==> m.version == existing.value.version + 1)
  {
    var n, m := SaveSigns(e, f, name, services, now);
    SignedManifestVerifiesExactlyWhen(e, m, f.keys[n], f.docs[n], f.keys[n], at);
    hide Save;
    hide VerifyManifest;
    hide PrimaryKey;
    hide ManifestMessage;
    hide LoadManifest;
  }

  /** Against the document it was saved under, an in-limit manifest verifies from its start on, at every time whose
      five-minute skew fits in 64 bits. */
  lemma InLimitManifestVerifiesOnwards(e: Env, f: Files, name: Name, services: seq<Service>, now: u64, at: u64)
    requires e.Correct() && KeysMatchDocuments(e, f) && ServicesInLimits(e, services)
    requires Save(e, f, name, services, now).1.Ok? && now <= at && at + 300 < U64_LIMIT
    ensures Effective(f.docs, name).Some?
    ensures VerifyManifest(e, Save(e, f, name, services, now).1.value, f.docs[Effective(f.docs, name).value], at) == Ok(())
  {
    hide VerifyManifest;
    hide Save;
    SavedManifestVerifies(e, f, name, services, now, at);
  }

  /** A saved manifest can be read back by the next save exactly when it has at most 50 services. */
  lemma ReadableExactlyWithinServiceLimit(e: Env, f: Files, name: Name, services: seq<Service>, now: u64)
    requires Save(e, f, name, services, now).1.Ok?
    ensures LoadManifest(Save(e, f, name, services, now).0, name).Ok? <==> |services| <= 50
  {
    hide ManifestMessage;
  }

  /** Rotation leaves the manifest file alone: the manifest on disk then verifies against the document on disk only if
      the outgoing key's signature also verifies under the incoming one. */
  lemma RotationKeepsManifestValidExactlyWhen(
    e: Env, f: Files, name: Name, at: Name, services: seq<Service>, now: u64, newKey: Bytes, time: u64)
    requires e.Correct() && KeysMatchDocuments(e, f) && Save(e, f, name, services, now).1.Ok?
    requires Effective(f.docs, name) == Some(at)
    requires Rotate(e, Save(e, f, name, services, now).0, at, newKey).1.Ok?
    ensures var (saved, r) := Save(e, f, name, services, now);
            var rotated := Rotate(e, saved, at, newKey).0;
            var msg := ManifestMessage(e, r.value);
            && Effective(rotated.docs, name) == Some(at) && at in rotated.docs
            && name in rotated.manifests && rotated.manifests[name] == r.value && msg.Some?
            && at in f.keys
            && (VerifyManifest(e, r.value, rotated.docs[at], time) == Ok(()) <==>
                  && ServicesInLimits(e, services) && now <= WrapAdd(time, 300)
                  && e.verify(e.publicOf(newKey), msg.value, e.sign(f.keys[at], msg.value)))
  {
    var n, m := SaveSigns(e, f, name, services, now);
    var saved := Save(e, f, name, services, now).0;
    RotatedKeys(e, saved, at, newKey);
    var rotated := Rotate(e, saved, at, newKey).0;
    SignedManifestVerifiesExactlyWhen(e, m, f.keys[at], rotated.docs[at], newKey, time);
    hide Save;
    hide Rotate;
    hide VerifyManifest;
    hide PrimaryKey;
    hide ManifestMessage;
    hide LoadManifest;
    hide KeysMatchDocuments;
  }

  lemma RotatedKeys(e: Env, f: Files, name: Name, newKey: Bytes)
    requires Rotate(e, f, name, newKey).1.Ok?
    ensures name in f.docs && name in Rotate(e, f, name, newKey).0.docs
    ensures var d := Rotate(e, f, name, newKey).0.docs[name];
            d.kid == f.docs[name].kid && d.controllerKeys == [PrimaryKey(e, f.docs[name].kid, newKey)]
    ensures var rotated := Rotate(e, f, name, newKey).0;
            rotated.manifests == f.manifests && rotated.docs.Keys == f.docs.Keys
  {
    hide PrimaryKey;
    hide DocumentMessage;
  }

  lemma StepKeepsVersion(e: Env, f: Files, op: Operation, name: Name)
    requires name in f.manifests
    ensures name in Step(e, f, op).manifests && Step(e, f, op).manifests[name].version >= f.manifests[name].version
  {
    hide ManifestMessage;
    hide DocumentMessage;
    hide PrimaryKey;
  }

  /** The version of a name's manifest never falls, and every later successful save raises it until it reaches the
      largest 64-bit number. */
  lemma {:induction false} VersionsNeverFall(
    e: Env, f: Files, ops: seq<Operation>, name: Name, services: seq<Service>, now: u64)
    requires name in f.manifests
    ensures var f' := Run(e, f, ops);
            && name in f'.manifests && f'.manifests[name].version >= f.manifests[name].version
            && (Save(e, f', name, services, now).1.Ok? && f'.manifests[name].version < U64_LIMIT - 1 ==>
                  Save(e, f', name, services, now).0.manifests[name].version == f'.manifests[name].version + 1)
    decreases |ops|
  {
    hide Step;
    hide ManifestMessage;
    if |ops| > 0 {
      StepKeepsVersion(e, f, ops[0], name);
      VersionsNeverFall(e, Step(e, f, ops[0]), ops[1..], name, services, now);
    }
  }

  /** The manifest that a save for this name would have to read back is oversized: its own or, without one, its
      apex's. */
  predicate Unreadable(f: Files, name: Name) {
    var at := Effective(f.manifests, name);
    at.Some? && |f.manifests[at.value].services| > 50
  }

  /** Saving an oversized manifest makes it so, for the name and for every name under it without a manifest. */
  lemma OversizedSaveIsUnreadable(e: Env, f: Files, at: Name, services: seq<Service>, now: u64, name: Name)
    requires Save(e, f, at, services, now).1.Ok? && |services| > 50
    requires name == at || (Apex(name) == at && name !in f.manifests)
    ensures Unreadable(Save(e, f, at, services, now).0, name)
  {
    hide ManifestMessage;
    hide Apex;
  }

  lemma SaveOfUnreadable(e: Env, f: Files, name: Name, services: seq<Service>, now: u64)
    requires Unreadable(f, name)
    ensures Save(e, f, name, services, now).0 == f && Save(e, f, name, services, now).1.Err?
  {
    hide ManifestMessage;
  }

  lemma ApexOfApex(name: Name)
    ensures Apex(Apex(name)) == Apex(name)
  {
  }

  lemma StepKeepsUnreadable(e: Env, f: Files, op: Operation, name: Name)
    requires Unreadable(f, name)
    ensures Unreadable(Step(e, f, op), name)
  {
    hide SignManifest;
    hide SignDocument;
    hide PrimaryKey;
    hide Apex;
    ApexOfApex(name);
    if op.SaveOp? && Unreadable(f, op.name) {
      hide Save;
      SaveOfUnreadable(e, f, op.name, op.services, op.now);
    }
  }

  /** An oversized manifest is signed and written, but from then on no save succeeds for that name, nor for any name
      under it that has no manifest of its own. */
  lemma {:induction false} OversizedManifestBlocksSaves(
    e: Env, f: Files, name: Name, ops: seq<Operation>, services: seq<Service>, now: u64)
    requires Unreadable(f, name)
    ensures Save(e, Run(e, f, ops), name, services, now).1.Err?
    decreases |ops|
  {
    hide Step;
    hide Save;
    hide Unreadable;
    if |ops| > 0 {
      StepKeepsUnreadable(e, f, ops[0], name);
      OversizedManifestBlocksSaves(e, Step(e, f, ops[0]), name, ops[1..], services, now);
    } else {
      SaveOfUnreadable(e, f, name, services, now);
    }
  }

  /** A created document passes all three checks of a first publication. */
  lemma CreatedDocumentVerifies(e: Env, f: Files, name: Name, inherit: bool, force: bool, now: u64, newKey: Bytes)
    requires e.Correct() && |DidOf(e, e.publicOf(newKey))| + 8 <= 256 && |e.encode(e.publicOf(newKey))| <= e.maxPublicKey
    requires Create(e, f, name, inherit, force, now, newKey).1.Ok?
    requires !(name != Apex(name) && inherit && Apex(name) in f.docs)
    ensures var (f', r) := Create(e, f, name, inherit, force, now, newKey);
            && f'.docs[name] == r.value && f'.keys[name] == newKey
            && r.value.createdAt == now && r.value.kid == DidOf(e, e.publicOf(newKey)) && !r.value.deactivated
            && VerifyDocument(e, r.value) == Ok(()) && VerifyGenesis(e, r.value) == Ok(())
  {
    hide SomeControllerAccepts;
    hide Hex;
    var d := GenesisDocument(e, newKey, now);
    var signed := SignDocument(e, d, newKey).value;
    assert signed.(signature := None) == d.(signature := None);
    var msg := DocumentMessage(e, d).value;
    assert signed.controllerKeys == [PrimaryKey(e, d.kid, newKey)];
    assert !KeyTooLong(e, PrimaryKey(e, d.kid, newKey));
    SoleKeyAccepts(e, d.kid, newKey, msg, e.sign(newKey, msg));
  }

  /** A rotated document is signed with the outgoing key, so it passes `verify` only if that signature also verifies
      under the incoming one, or, once deactivated, under a revocation key; `is_authorized` is the judgement rotation
      satisfies. */
  lemma RotatedDocumentVerifiesExactlyWhen(e: Env, f: Files, name: Name, newKey: Bytes)
    requires e.Correct() && KeysMatchDocuments(e, f)
    requires Rotate(e, f, name, newKey).1.Ok?
    ensures var d := Rotate(e, f, name, newKey).1.value;
            var msg := DocumentMessage(e, d);
            && msg.Some?
            && var sig := e.sign(f.keys[name], msg.value);
               VerifyDocument(e, d) == Ok(()) <==>
                 && DocumentLimits(e, d).Ok?
                 && if f.docs[name].deactivated then SomeRevokerAccepts(e, d.revocationKeys, msg.value, sig)
                    else e.verify(e.publicOf(newKey), msg.value, sig)
  {
    hide SomeRevokerAccepts;
    hide SomeControllerAccepts;
    hide DocumentLimits;
    hide PrimaryKey;
    var d := Rotate(e, f, name, newKey).1.value;
    var unsigned := RotatedDocument(e, f.docs[name], newKey);
    assert d.(signature := None) == unsigned.(signature := None);
    var msg := DocumentMessage(e, unsigned).value;
    SoleKeyAccepts(e, d.kid, newKey, msg, e.sign(f.keys[name], msg));
  }

  /** A rotation that dies between its two file writes: the new key is on disk, the old document still is too. */
  function InterruptedRotation(f: Files, name: Name, newKey: Bytes): Files {
    f.(keys := f.keys[name := newKey])
  }

  /** Custody survives that crash only by luck: the next rotation is authorized by the document on disk exactly when
      the unlisted key's signature happens to verify under a key the document lists. */
  lemma InterruptedRotationBreaksCustody(e: Env, f: Files, name: Name, newKey: Bytes, nextKey: Bytes)
    requires e.Correct() && KeysMatchDocuments(e, f) && name in f.docs
    requires Rotate(e, InterruptedRotation(f, name, newKey), name, nextKey).1.Ok?
    ensures KeysMatchDocuments(e, InterruptedRotation(f, name, newKey)) <==>
            PrimaryKey(e, f.docs[name].kid, newKey) == PrimaryKey(e, f.docs[name].kid, f.keys[name])
    ensures var d := Rotate(e, InterruptedRotation(f, name, newKey), name, nextKey).1.value;
            var msg := DocumentMessage(e, d);
            && msg.Some?
            && var sig := e.sign(newKey, msg.value);
               IsAuthorized(e, d, f.docs[name]) <==>
                 || e.verify(e.publicOf(f.keys[name]), msg.value, sig)
                 || (d.deactivated && SomeRevokerAccepts(e, f.docs[name].revocationKeys, msg.value, sig))
  {
    hide SomeControllerAccepts;
    hide SomeRevokerAccepts;
    hide PrimaryKey;
    var crashed := InterruptedRotation(f, name, newKey);
    var d := Rotate(e, crashed, name, nextKey).1.value;
    var unsigned := RotatedDocument(e, f.docs[name], nextKey);
    assert d.(signature := None) == unsigned.(signature := None);
    var msg := DocumentMessage(e, unsigned).value;
    SoleKeyAccepts(e, f.docs[name].kid, f.keys[name], msg, e.sign(newKey, msg));
  }

  /** The manager: three maps standing for the files under `kids/`, rewritten one file at a time. */
  class KidStore {
    var docs: map<Name, Document>
    var keys: map<Name, Bytes>
    var manifests: map<Name, Manifest>

    ghost function View(): Files
      reads this
    {
      Files(docs, keys, manifests)
    }

    constructor ()
      ensures View() == EMPTY_FILES
    {
      docs, keys, manifests := map[], map[], map[];
    }

    method GetOrCreate(e: Env, name: Name, inherit: bool, force: bool, now: u64, newKey: Bytes)
      returns (r: Result<Document, ManagerError>)
      modifies this
      ensures (View(), r) == Create(e, old(View()), name, inherit, force, now, newKey)
    {
      var apex := Apex(name);
      if name != apex && inherit && apex in docs {
        return Ok(docs[apex]);
      }
      if name in docs && !force {
        return Err(KidAlreadyExists);
      }
      var kid := DidOf(e, e.publicOf(newKey));
      var doc := Document(kid, now, [PrimaryKey(e, kid, newKey)], None, [], false, None);
      var signed := SignDocument(e, doc, newKey);
      if signed.Err? {
        return Err(KidSigningFailed);
      }
      keys := keys[name := newKey];
      docs := docs[name := signed.value];
      r := Ok(signed.value);
    }

    method RotateName(e: Env, name: Name, newKey: Bytes) returns (r: Result<Document, ManagerError>)
      modifies this
      ensures (View(), r) == Rotate(e, old(View()), name, newKey)
    {
      if name !in docs || name !in keys {
        return Err(KidNotFound);
      }
      var doc, oldKey := docs[name], keys[name];
      doc := doc.(controllerKeys := [PrimaryKey(e, doc.kid, newKey)]);
      doc := doc.(signature := None);
      var signed := SignDocument(e, doc, oldKey);
      if signed.Err? {
        return Err(KidSigningFailed);
      }
      keys := keys[name := newKey];
      docs := docs[name := signed.value];
      r := Ok(signed.value);
    }

    method RevokeLocal(e: Env, name: Name) returns (r: Result<Document, ManagerError>)
      modifies this
      ensures (View(), r) == Revoke(e, old(View()), name)
    {
      if name !in docs || name !in keys {
        return Err(KidNotFound);
      }
      var doc := docs[name];
      doc := doc.(deactivated := true);
      doc := doc.(signature := None);
      var signed := SignDocument(e, doc, keys[name]);
      if signed.Err? {
        return Err(KidSigningFailed);
      }
      docs := docs[name := signed.value];
      r := Ok(signed.value);
    }

    method SaveAndSignManifest(e: Env, name: Name, services: seq<Service>, now: u64)
      returns (r: Result<Manifest, ManagerError>)
      modifies this
      ensures (View(), r) == Save(e, old(View()), name, services, now)
    {
      var apex := Apex(name);
      if name !in docs && apex !in docs {
        return Err(KidNotFound);
      }
      var doc := if name in docs then docs[name] else docs[apex];
      if doc.deactivated {
        return Err(KidDeactivated);
      }
      if name !in keys && apex !in keys {
        return Err(KidNotFound);
      }
      var signingKey := if name in keys then keys[name] else keys[apex];
      var version: u64 := 1;
      if name in manifests || apex in manifests {
        var existing := if name in manifests then manifests[name] else manifests[apex];
        if |existing.services| > 50 {
          return Err(MalformedManifest);
        }
        version := SaturatingAdd(existing.version, 1);
      }
      var signed := SignManifest(e, Manifest(doc.kid, version, now, None, services, None), signingKey);
      if signed.Err? {
        return Err(ManifestSigningFailed);
      }
      manifests := manifests[name := signed.value];
      r := Ok(signed.value);
    }
  }
}
