/** Identity documents and manifests of kinetic-kid: signing and the three judgements over signatures. */
module KidDocuments {
  import opened Numbers
  import opened ByteStrings
  import opened Results

  datatype ControllerKey = ControllerKey(id: Bytes, keyType: string, publicKey: Bytes)

  datatype ManifestPointer = ManifestPointer(hash: Option<Bytes>, locations: seq<Bytes>)

  datatype Document = Document(
    kid: Bytes, createdAt: u64, controllerKeys: seq<ControllerKey>, manifest: Option<ManifestPointer>,
    revocationKeys: seq<Bytes>, deactivated: bool, signature: Option<Bytes>)

  datatype Service = Service(id: Bytes, serviceType: Bytes, protocol: Bytes, endpoint: Bytes)

  datatype Manifest = Manifest(
    kid: Bytes, version: u64, validFrom: u64, expiresAt: Option<u64>, services: seq<Service>, signature: Option<Bytes>)

  datatype KidError =
    | KeyLimitExceeded | LocationLimitExceeded | StringLengthExceeded | MissingSignature | Base64Error
    | CanonicalizationError | InvalidSignature | DidKeyMismatch | UnauthorizedManifestSignature
    | InvalidValidFrom | ManifestExpired | ServiceLimitExceeded

  /** The foreign primitives (key pairs, SHA-256, base64url, canonical JSON) and the build-time constants. */
  datatype Env = Env(
    publicOf: Bytes -> Bytes, sign: (Bytes, Bytes) -> Bytes, verify: (Bytes, Bytes, Bytes) -> bool,
    sha256: Bytes -> Hash, encode: Bytes -> Bytes, decode: Bytes -> Option<Bytes>,
    canonDocument: Document -> Option<Bytes>, canonManifest: Manifest -> Option<Bytes>,
    kidDomain: Bytes, manifestDomain: Bytes, didPrefix: Bytes,
    maxPublicKey: nat, maxLocation: nat, maxEndpoint: nat)
  {
    /** Signatures made with a key verify under its public half; base64url decodes what it encoded. */
    ghost predicate Correct() {
      && (forall sk, m :: verify(publicOf(sk), m, sign(sk, m)))
      && (forall b :: decode(encode(b)) == Some(b))
    }
  }

  function Hex(b: Bytes): Bytes {
    if |b| == 0 then [] else Hex(b[..|b| - 1]) + [HexDigit(b[|b| - 1] / 16), HexDigit(b[|b| - 1] % 16)]
  }

  function HexDigit(d: nat): byte
    requires d < 16
  {
    if d < 10 then 48 + d else 87 + d
  }

  function LowerChar(c: char): char { if 'A' <= c <= 'Z' then ((c as int) + 32) as char else c }

  /** `eq_ignore_ascii_case("Controller")` */
  predicate IsController(keyType: string) {
    |keyType| == 10 && forall i :: 0 <= i < 10 ==> LowerChar(keyType[i]) == "controller"[i]
  }

  /** The signed message of a document: the domain prefix and the canonical form without its signature. */
  function DocumentMessage(e: Env, d: Document): Option<Bytes> {
    var canon := e.canonDocument(d.(signature := None));
    if canon.None? then None else Some(e.kidDomain + canon.value)
  }

  function ManifestMessage(e: Env, m: Manifest): Option<Bytes> {
    var canon := e.canonManifest(m.(signature := None));
    if canon.None? then None else Some(e.manifestDomain + canon.value)
  }

  /** `Document::sign_with_controller` */
  function SignDocument(e: Env, d: Document, sk: Bytes): Result<Document, KidError> {
    var msg := DocumentMessage(e, d);
    if msg.None? then Err(CanonicalizationError)
    else Ok(d.(signature := Some(e.encode(e.sign(sk, msg.value)))))
  }

  /** `Manifest::sign_with_controller` */
  function SignManifest(e: Env, m: Manifest, sk: Bytes): Result<Manifest, KidError> {
    var msg := ManifestMessage(e, m);
    if msg.None? then Err(CanonicalizationError)
    else Ok(m.(signature := Some(e.encode(e.sign(sk, msg.value)))))
  }

  predicate KeyAccepts(e: Env, publicKey: Bytes, msg: Bytes, sig: Bytes) {
    var pk := e.decode(publicKey);
    pk.Some? && e.verify(pk.value, msg, sig)
  }

  predicate SomeControllerAccepts(e: Env, keys: seq<ControllerKey>, msg: Bytes, sig: Bytes) {
    exists i :: 0 <= i < |keys| && IsController(keys[i].keyType) && KeyAccepts(e, keys[i].publicKey, msg, sig)
  }

  predicate SomeRevokerAccepts(e: Env, keys: seq<Bytes>, msg: Bytes, sig: Bytes) {
    exists i :: 0 <= i < |keys| && KeyAccepts(e, keys[i], msg, sig)
  }

  predicate KeyTooLong(e: Env, k: ControllerKey) {
    |k.id| > 256 || |k.publicKey| > e.maxPublicKey || |k.keyType| > 32
  }

  /** The size limits `Document::verify` checks first. */
  function DocumentLimits(e: Env, d: Document): Result<(), KidError> {
    if |d.controllerKeys| > 20 || |d.revocationKeys| > 20 then Err(KeyLimitExceeded)
    else if exists i :: 0 <= i < |d.controllerKeys| && KeyTooLong(e, d.controllerKeys[i])
    then Err(StringLengthExceeded)
    else if exists i :: 0 <= i < |d.revocationKeys| && |d.revocationKeys[i]| > e.maxPublicKey
    then Err(StringLengthExceeded)
    else if d.manifest.None? then Ok(())
    else if |d.manifest.value.locations| > 20 then Err(LocationLimitExceeded)
    else if exists i :: 0 <= i < |d.manifest.value.locations| && |d.manifest.value.locations[i]| > e.maxLocation
    then Err(StringLengthExceeded)
    else if d.manifest.value.hash.Some? && |d.manifest.value.hash.value| > 256 then Err(StringLengthExceeded)
    else Ok(())
  }

  /** `Document::verify`: an active document by a controller key it lists, a deactivated one by a revocation key. */
  function VerifyDocument(e: Env, d: Document): Result<(), KidError> {
    if DocumentLimits(e, d).Err? then DocumentLimits(e, d)
    else if d.signature.None? then Err(MissingSignature)
    else
      var sig := e.decode(d.signature.value);
      if sig.None? then Err(Base64Error)
      else
        var msg := DocumentMessage(e, d);
        if msg.None? then Err(CanonicalizationError)
        else if d.deactivated then
          if SomeRevokerAccepts(e, d.revocationKeys, msg.value, sig.value) then Ok(()) else Err(InvalidSignature)
        else
          if SomeControllerAccepts(e, d.controllerKeys, msg.value, sig.value) then Ok(()) else Err(InvalidSignature)
  }

  function DidOf(e: Env, publicKey: Bytes): Bytes { e.didPrefix + Hex(e.sha256(publicKey)) }

  /** `Document::verify_genesis` */
  function VerifyGenesis(e: Env, d: Document): Result<(), KidError> {
    if |d.controllerKeys| == 0 then Err(InvalidSignature)
    else
      var pk := e.decode(d.controllerKeys[0].publicKey);
      if pk.None? then Err(Base64Error)
      else if d.kid != DidOf(e, pk.value) then Err(DidKeyMismatch)
      else Ok(())
  }

  /** `Document::is_authorized`: signed by a key of the document it replaces. */
  predicate IsAuthorized(e: Env, d: Document, previous: Document) {
    && d.signature.Some?
    && e.decode(d.signature.value).Some?
    && DocumentMessage(e, d).Some?
    && (var sig, msg := e.decode(d.signature.value).value, DocumentMessage(e, d).value;
        || SomeControllerAccepts(e, previous.controllerKeys, msg, sig)
        || (d.deactivated && SomeRevokerAccepts(e, previous.revocationKeys, msg, sig)))
  }

  predicate ServiceInLimits(e: Env, s: Service) {
    |s.id| <= 256 && |s.serviceType| <= 256 && |s.protocol| <= 64 && |s.endpoint| <= e.maxEndpoint
  }

  predicate ServicesInLimits(e: Env, services: seq<Service>) {
    |services| <= 50 && forall i :: 0 <= i < |services| ==> ServiceInLimits(e, services[i])
  }

  /** `Manifest::verify_at_time`; the five-minute skew is added without an overflow check. */
  function VerifyManifest(e: Env, m: Manifest, d: Document, now: u64): Result<(), KidError> {
    if |d.controllerKeys| > 20 then Err(KeyLimitExceeded)
    else if m.kid != d.kid then Err(UnauthorizedManifestSignature)
    else if m.validFrom > WrapAdd(now, 300) then Err(InvalidValidFrom)
    else if m.expiresAt.Some? && now >= m.expiresAt.value then Err(ManifestExpired)
    else if |m.services| > 50 then Err(ServiceLimitExceeded)
    else if exists i :: 0 <= i < |m.services| && !ServiceInLimits(e, m.services[i]) then Err(StringLengthExceeded)
    else if m.signature.None? then Err(MissingSignature)
    else
      var sig := e.decode(m.signature.value);
      if sig.None? then Err(Base64Error)
      else
        var msg := ManifestMessage(e, m);
        if msg.None? then Err(CanonicalizationError)
        else if SomeControllerAccepts(e, d.controllerKeys, msg.value, sig.value) then Ok(())
        else Err(UnauthorizedManifestSignature)
  }

  function PrimaryKey(e: Env, kid: Bytes, sk: Bytes): ControllerKey {
    ControllerKey(kid + [35, 112, 114, 105, 109, 97, 114, 121], "Controller", e.encode(e.publicOf(sk)))
  }

  /** The listed key: named after the DID, of controller type, and carrying the public half of its private key. */
  lemma PrimaryKeyCarries(e: Env, kid: Bytes, sk: Bytes)
    requires e.Correct()
    ensures var k := PrimaryKey(e, kid, sk);
            && |k.id| == |kid| + 8 && k.id[..|kid|] == kid
            && (forall i :: 0 <= i < 8 ==> k.id[|kid| + i] == "#primary"[i] as int)
            && IsController(k.keyType) && e.decode(k.publicKey) == Some(e.publicOf(sk))
  {
    ControllerTypeMatches();
  }

  lemma ControllerTypeMatches()
    ensures IsController("Controller")
  {
  }

  /** A key listed alone accepts exactly what verifies under it. */
  lemma SoleKeyAccepts(e: Env, kid: Bytes, sk: Bytes, msg: Bytes, sig: Bytes)
    requires e.Correct()
    ensures SomeControllerAccepts(e, [PrimaryKey(e, kid, sk)], msg, sig) <==> e.verify(e.publicOf(sk), msg, sig)
  {
    ControllerTypeMatches();
    hide IsController;
    var keys := [PrimaryKey(e, kid, sk)];
    assert KeyAccepts(e, keys[0].publicKey, msg, sig) <==> e.verify(e.publicOf(sk), msg, sig);
  }

  /** Custody: an update signed with the key its predecessor lists is authorized by that predecessor. */
  lemma SignedUpdateIsAuthorized(e: Env, d: Document, previous: Document, sk: Bytes)
    requires e.Correct() && previous.controllerKeys == [PrimaryKey(e, previous.kid, sk)]
    requires SignDocument(e, d, sk).Ok?
    ensures IsAuthorized(e, SignDocument(e, d, sk).value, previous)
  {
    hide SomeControllerAccepts;
    hide SomeRevokerAccepts;
    var signed := SignDocument(e, d, sk).value;
    assert signed.(signature := None) == d.(signature := None);
    var msg := DocumentMessage(e, d).value;
    SoleKeyAccepts(e, previous.kid, sk, msg, e.sign(sk, msg));
  }

  // ----- What each judgement demands -----

  /** Two lower-case hexadecimal characters a byte, high half first. */
  lemma {:induction false} HexLayout(b: Bytes)
    ensures |Hex(b)| == 2 * |b|
    ensures forall i :: 0 <= i < |b| ==>
              Hex(b)[2 * i] == HexDigit(b[i] / 16) && Hex(b)[2 * i + 1] == HexDigit(b[i] % 16)
    decreases |b|
  {
    hide HexDigit;
    if |b| > 0 {
      HexLayout(b[..|b| - 1]);
    }
  }

  /** "0123456789abcdef" */
  lemma HexDigitIs(d: nat)
    requires d < 16
    ensures d < 10 ==> HexDigit(d) == '0' as int + d
    ensures d >= 10 ==> HexDigit(d) == 'a' as int + d - 10
  {
  }

  lemma HexInjective(a: Bytes, b: Bytes)
    requires |a| == |b|
    ensures Hex(a) == Hex(b) <==> a == b
  {
    hide Hex;
    HexLayout(a);
    HexLayout(b);
    if Hex(a) == Hex(b) {
      forall i | 0 <= i < |a|
        ensures a[i] == b[i]
      {
        assert Hex(a)[2 * i] == Hex(b)[2 * i] && Hex(a)[2 * i + 1] == Hex(b)[2 * i + 1];
      }
    }
  }

  /** The genesis check accepts exactly a first key whose digest, in hexadecimal, is the DID's suffix. */
  lemma VerifyGenesisExactlyWhen(e: Env, d: Document)
    ensures VerifyGenesis(e, d) == Ok(()) <==>
            && |d.controllerKeys| > 0 && e.decode(d.controllerKeys[0].publicKey).Some?
            && d.kid == e.didPrefix + Hex(e.sha256(e.decode(d.controllerKeys[0].publicKey).value))
    ensures VerifyGenesis(e, d) == Err(InvalidSignature) <==> |d.controllerKeys| == 0
    ensures VerifyGenesis(e, d) == Err(Base64Error) <==>
            |d.controllerKeys| > 0 && e.decode(d.controllerKeys[0].publicKey).None?
  {
    hide Hex;
  }

  /** A DID binds its genesis key: documents that pass the genesis check under one DID have first keys with one
      digest. */
  lemma DidBindsKey(e: Env, d: Document, d': Document)
    requires VerifyGenesis(e, d) == Ok(()) && VerifyGenesis(e, d') == Ok(())
    ensures |d.controllerKeys| > 0 && |d'.controllerKeys| > 0
    ensures var k, k' := e.decode(d.controllerKeys[0].publicKey), e.decode(d'.controllerKeys[0].publicKey);
            k.Some? && k'.Some? && (d.kid == d'.kid <==> e.sha256(k.value) == e.sha256(k'.value))
  {
    VerifyGenesisExactlyWhen(e, d);
    VerifyGenesisExactlyWhen(e, d');
    hide VerifyGenesis;
    hide Hex;
    var h := e.sha256(e.decode(d.controllerKeys[0].publicKey).value);
    var h' := e.sha256(e.decode(d'.controllerKeys[0].publicKey).value);
    HexInjective(h, h');
    assert d.kid[|e.didPrefix|..] == Hex(h) && d'.kid[|e.didPrefix|..] == Hex(h');
  }

  /** The key type is "controller" in any mix of cases. */
  lemma IsControllerExactlyWhen(keyType: string)
    ensures IsController(keyType) <==>
            |keyType| == 10 && forall i :: 0 <= i < 10 ==>
                                 keyType[i] == "controller"[i] || keyType[i] == "CONTROLLER"[i]
  {
    forall i | 0 <= i < 10 && |keyType| == 10
      ensures LowerChar(keyType[i]) == "controller"[i] <==>
              keyType[i] == "controller"[i] || keyType[i] == "CONTROLLER"[i]
    {
      LowerOf(keyType[i], "controller"[i]);
      assert "CONTROLLER"[i] as int + 32 == "controller"[i] as int;
    }
  }

  lemma LowerOf(c: char, lower: char)
    requires 'a' <= lower <= 'z'
    ensures LowerChar(c) == lower <==> c == lower || c as int + 32 == lower as int
  {
  }

  /** Two documents have one signed message exactly when their canonical forms without the signature agree. */
  lemma DocumentMessageBinds(e: Env, d: Document, d': Document)
    requires DocumentMessage(e, d).Some? && DocumentMessage(e, d').Some?
    ensures DocumentMessage(e, d) == DocumentMessage(e, d') <==>
            e.canonDocument(d.(signature := None)) == e.canonDocument(d'.(signature := None))
  {
    var m, m' := DocumentMessage(e, d).value, DocumentMessage(e, d').value;
    assert m[|e.kidDomain|..] == e.canonDocument(d.(signature := None)).value;
    assert m'[|e.kidDomain|..] == e.canonDocument(d'.(signature := None)).value;
  }

  lemma ManifestMessageBinds(e: Env, m: Manifest, m': Manifest)
    requires ManifestMessage(e, m).Some? && ManifestMessage(e, m').Some?
    ensures ManifestMessage(e, m) == ManifestMessage(e, m') <==>
            e.canonManifest(m.(signature := None)) == e.canonManifest(m'.(signature := None))
  {
    var b, b' := ManifestMessage(e, m).value, ManifestMessage(e, m').value;
    assert b[|e.manifestDomain|..] == e.canonManifest(m.(signature := None)).value;
    assert b'[|e.manifestDomain|..] == e.canonManifest(m'.(signature := None)).value;
  }

  /** A document's signature is never a manifest's, when the two domain prefixes part before either ends. */
  lemma KindsShareNoMessage(e: Env, d: Document, m: Manifest, i: nat)
    requires i < |e.kidDomain| && i < |e.manifestDomain| && e.kidDomain[i] != e.manifestDomain[i]
    requires DocumentMessage(e, d).Some?
    ensures DocumentMessage(e, d) != ManifestMessage(e, m)
  {
    assert DocumentMessage(e, d).value[i] == e.kidDomain[i];
    assert ManifestMessage(e, m).Some? ==> ManifestMessage(e, m).value[i] == e.manifestDomain[i];
  }

  /** One of the listed controller keys, and no key of another type, verifies the signature. */
  ghost predicate ControllerSigned(e: Env, keys: seq<ControllerKey>, msg: Bytes, sig: Bytes) {
    exists i :: 0 <= i < |keys| && ControllerVerifies(e, keys[i], msg, sig)
  }

  ghost predicate ControllerVerifies(e: Env, k: ControllerKey, msg: Bytes, sig: Bytes) {
    && |k.keyType| == 10
    && (forall i :: 0 <= i < 10 ==> k.keyType[i] == "controller"[i] || k.keyType[i] == "CONTROLLER"[i])
    && e.decode(k.publicKey).Some? && e.verify(e.decode(k.publicKey).value, msg, sig)
  }

  ghost predicate RevokerSigned(e: Env, keys: seq<Bytes>, msg: Bytes, sig: Bytes) {
    exists i :: 0 <= i < |keys| && e.decode(keys[i]).Some? && e.verify(e.decode(keys[i]).value, msg, sig)
  }

  lemma SignersExactlyWhen(e: Env, keys: seq<ControllerKey>, revokers: seq<Bytes>, msg: Bytes, sig: Bytes)
    ensures SomeControllerAccepts(e, keys, msg, sig) <==> ControllerSigned(e, keys, msg, sig)
    ensures SomeRevokerAccepts(e, revokers, msg, sig) <==> RevokerSigned(e, revokers, msg, sig)
  {
    hide IsController;
    forall i | 0 <= i < |keys|
      ensures IsController(keys[i].keyType) && KeyAccepts(e, keys[i].publicKey, msg, sig) <==>
              ControllerVerifies(e, keys[i], msg, sig)
    {
      IsControllerExactlyWhen(keys[i].keyType);
    }
    hide ControllerVerifies;
    if i :| 0 <= i < |revokers| && KeyAccepts(e, revokers[i], msg, sig) {
      assert e.decode(revokers[i]).Some?;
    }
    if i :| 0 <= i < |revokers| && e.decode(revokers[i]).Some? && e.verify(e.decode(revokers[i]).value, msg, sig) {
      assert KeyAccepts(e, revokers[i], msg, sig);
    }
  }

  ghost predicate KeysInLimits(e: Env, d: Document) {
    && |d.controllerKeys| <= 20 && |d.revocationKeys| <= 20
    && (forall k :: k in d.controllerKeys ==>
                      |k.id| <= 256 && |k.publicKey| <= e.maxPublicKey && |k.keyType| <= 32)
    && (forall k :: k in d.revocationKeys ==> |k| <= e.maxPublicKey)
  }

  ghost predicate PointerInLimits(e: Env, p: ManifestPointer) {
    && |p.locations| <= 20 && (forall l :: l in p.locations ==> |l| <= e.maxLocation)
    && (p.hash.Some? ==> |p.hash.value| <= 256)
  }

  lemma LimitsExactlyWhen(e: Env, d: Document)
    ensures DocumentLimits(e, d).Ok? <==>
            KeysInLimits(e, d) && (d.manifest.Some? ==> PointerInLimits(e, d.manifest.value))
  {
    if i :| 0 <= i < |d.controllerKeys| && KeyTooLong(e, d.controllerKeys[i]) {
      assert d.controllerKeys[i] in d.controllerKeys;
    }
    if i :| 0 <= i < |d.revocationKeys| && |d.revocationKeys[i]| > e.maxPublicKey {
      assert d.revocationKeys[i] in d.revocationKeys;
    }
    if d.manifest.Some? {
      var locations := d.manifest.value.locations;
      if i :| 0 <= i < |locations| && |locations[i]| > e.maxLocation {
        assert locations[i] in locations;
      }
    }
  }

  /** `verify` accepts exactly a document within limits whose signature, over its message, verifies under a listed
      controller key or, once it is deactivated, under a listed revocation key. */
  lemma VerifyDocumentExactlyWhen(e: Env, d: Document)
    ensures VerifyDocument(e, d) == Ok(()) <==>
            && KeysInLimits(e, d) && (d.manifest.Some? ==> PointerInLimits(e, d.manifest.value))
            && d.signature.Some? && e.decode(d.signature.value).Some? && DocumentMessage(e, d).Some?
            && var msg, sig := DocumentMessage(e, d).value, e.decode(d.signature.value).value;
               if d.deactivated then RevokerSigned(e, d.revocationKeys, msg, sig)
               else ControllerSigned(e, d.controllerKeys, msg, sig)
  {
    hide DocumentLimits;
    hide KeysInLimits;
    hide PointerInLimits;
    hide SomeControllerAccepts;
    hide SomeRevokerAccepts;
    hide ControllerSigned;
    hide RevokerSigned;
    hide DocumentMessage;
    LimitsExactlyWhen(e, d);
    if d.signature.Some? && e.decode(d.signature.value).Some? && DocumentMessage(e, d).Some? {
      SignersExactlyWhen(
        e, d.controllerKeys, d.revocationKeys, DocumentMessage(e, d).value, e.decode(d.signature.value).value);
    }
  }

  /** An update is authorized exactly by a signature of a key its predecessor lists: a controller key, or a revocation
      key for a deactivation. */
  lemma IsAuthorizedExactlyWhen(e: Env, d: Document, previous: Document)
    ensures IsAuthorized(e, d, previous) <==>
            && d.signature.Some? && e.decode(d.signature.value).Some? && DocumentMessage(e, d).Some?
            && var msg, sig := DocumentMessage(e, d).value, e.decode(d.signature.value).value;
               || ControllerSigned(e, previous.controllerKeys, msg, sig)
               || (d.deactivated && RevokerSigned(e, previous.revocationKeys, msg, sig))
  {
    hide SomeControllerAccepts;
    hide SomeRevokerAccepts;
    hide ControllerSigned;
    hide RevokerSigned;
    hide DocumentMessage;
    if d.signature.Some? && e.decode(d.signature.value).Some? && DocumentMessage(e, d).Some? {
      SignersExactlyWhen(e, previous.controllerKeys, previous.revocationKeys, DocumentMessage(e, d).value,
                         e.decode(d.signature.value).value);
    }
  }

  /** `verify_at_time` accepts exactly a manifest for this DID that has started, up to five minutes' skew, has not
      expired, is within limits and is signed by a listed controller key. */
  lemma VerifyManifestExactlyWhen(e: Env, m: Manifest, d: Document, now: u64)
    ensures VerifyManifest(e, m, d, now) == Ok(()) <==>
            && |d.controllerKeys| <= 20 && m.kid == d.kid
            && m.validFrom <= WrapAdd(now, 300) && (m.expiresAt.Some? ==> now < m.expiresAt.value)
            && |m.services| <= 50
            && (forall s :: s in m.services ==>
                              && |s.id| <= 256 && |s.serviceType| <= 256 && |s.protocol| <= 64
                              && |s.endpoint| <= e.maxEndpoint)
            && m.signature.Some? && e.decode(m.signature.value).Some? && ManifestMessage(e, m).Some?
            && ControllerSigned(
                 e, d.controllerKeys, ManifestMessage(e, m).value, e.decode(m.signature.value).value)
  {
    hide SomeControllerAccepts;
    hide ControllerSigned;
    hide ManifestMessage;
    ServicesFit(e, m.services);
    hide ServiceInLimits;
    if m.signature.Some? && e.decode(m.signature.value).Some? && ManifestMessage(e, m).Some? {
      SignersExactlyWhen(
        e, d.controllerKeys, [], ManifestMessage(e, m).value, e.decode(m.signature.value).value);
    }
  }

  lemma ServicesFit(e: Env, services: seq<Service>)
    ensures (exists i :: 0 <= i < |services| && !ServiceInLimits(e, services[i])) <==>
            exists s :: s in services &&
                        !(|s.id| <= 256 && |s.serviceType| <= 256 && |s.protocol| <= 64 && |s.endpoint| <= e.maxEndpoint)
  {
    if i :| 0 <= i < |services| && !ServiceInLimits(e, services[i]) {
      assert services[i] in services;
    }
  }

  /** Which error a refused manifest gets. */
  lemma ManifestRefusal(e: Env, m: Manifest, d: Document, now: u64)
    ensures var r := VerifyManifest(e, m, d, now);
            var listed, named := |d.controllerKeys| <= 20, m.kid == d.kid;
            var started := listed && named && m.validFrom <= WrapAdd(now, 300);
            var valid := started && (m.expiresAt.Some? ==> now < m.expiresAt.value);
            var sized := valid && ServicesInLimits(e, m.services);
            && (r == Err(KeyLimitExceeded) <==> !listed)
            && (r == Err(InvalidValidFrom) <==> listed && named && !started)
            && (r == Err(ManifestExpired) <==> started && !valid)
            && (r == Err(ServiceLimitExceeded) <==> valid && |m.services| > 50)
            && (r == Err(StringLengthExceeded) <==> valid && |m.services| <= 50 && !sized)
            && (r == Err(MissingSignature) <==> sized && m.signature.None?)
            && (r == Err(Base64Error) <==> sized && m.signature.Some? && e.decode(m.signature.value).None?)
            && (listed && !named ==> r == Err(UnauthorizedManifestSignature))
            && (r == Err(UnauthorizedManifestSignature) && named ==>
                  sized && m.signature.Some? && e.decode(m.signature.value).Some? && ManifestMessage(e, m).Some?)
  {
    hide SomeControllerAccepts;
    hide ManifestMessage;
    hide ServiceInLimits;
  }

  /** Which error a refused document gets. */
  lemma DocumentRefusal(e: Env, d: Document)
    ensures var r := VerifyDocument(e, d);
            var sized := KeysInLimits(e, d) && (d.manifest.Some? ==> PointerInLimits(e, d.manifest.value));
            var counted := |d.controllerKeys| <= 20 && |d.revocationKeys| <= 20;
            && (r == Err(KeyLimitExceeded) <==> !counted)
            && (r == Err(LocationLimitExceeded) <==>
                  KeysInLimits(e, d) && d.manifest.Some? && |d.manifest.value.locations| > 20)
            && (r == Err(StringLengthExceeded) <==>
                  && counted && !sized
                  && !(KeysInLimits(e, d) && d.manifest.Some? && |d.manifest.value.locations| > 20))
            && (r == Err(MissingSignature) <==> sized && d.signature.None?)
            && (r == Err(Base64Error) <==> sized && d.signature.Some? && e.decode(d.signature.value).None?)
            && (r == Err(InvalidSignature) ==>
                  sized && d.signature.Some? && e.decode(d.signature.value).Some? && DocumentMessage(e, d).Some?)
  {
    hide SomeControllerAccepts;
    hide SomeRevokerAccepts;
    hide DocumentMessage;
    LimitsExactlyWhen(e, d);
    if |d.controllerKeys| <= 20 && |d.revocationKeys| <= 20 {
      KeysFit(e, d);
    }
  }

  lemma KeysFit(e: Env, d: Document)
    requires |d.controllerKeys| <= 20 && |d.revocationKeys| <= 20
    ensures KeysInLimits(e, d) <==>
            && !(exists i :: 0 <= i < |d.controllerKeys| && KeyTooLong(e, d.controllerKeys[i]))
            && !(exists i :: 0 <= i < |d.revocationKeys| && |d.revocationKeys[i]| > e.maxPublicKey)
  {
    if i :| 0 <= i < |d.controllerKeys| && KeyTooLong(e, d.controllerKeys[i]) {
      assert d.controllerKeys[i] in d.controllerKeys;
    }
    if i :| 0 <= i < |d.revocationKeys| && |d.revocationKeys[i]| > e.maxPublicKey {
      assert d.revocationKeys[i] in d.revocationKeys;
    }
  }
}
