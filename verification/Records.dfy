/** The signed record forms of kinetic-types: which bytes are signed, and what those bytes determine. */
module Records {
  import opened Numbers
  import opened ByteStrings
  import opened Results
  import opened Framing

  datatype PreviousProof = PreviousProof(
    salt: Hash, kyn: u64, beaconSignature: Bytes, iterations: u64, vdfProof: Bytes, identitySignature: Bytes)

  datatype Reveal = Reveal(
    protocolVersion: byte, name: Bytes, embeddedNrs: Bytes, salt: Hash, kyn: u64, beaconSignature: Bytes,
    iterations: u64, vdfProof: Bytes, pubkey: Bytes, identitySignature: Bytes,
    authorization: Option<AuthorizedManifest>, previousProof: Option<PreviousProof>)

  /** `authorization` matters only through its owner signature. */
  datatype Heartbeat = Heartbeat(
    name: Bytes, latestKyn: u64, ownerSignature: Bytes, authorization: Option<AuthorizedManifest>)

  datatype HostRoute = HostRoute(hostId: Bytes, currentPeerId: Bytes, kyn: u64, hostSignature: Bytes)

  /** Documents and manifests appear through their canonical JSON text, empty when canonicalization fails. */
  datatype AuthorizedKid = AuthorizedKid(name: Bytes, canonicalDoc: Bytes, ownerSignature: Bytes)

  datatype AuthorizedManifest = AuthorizedManifest(
    name: Bytes, canonicalManifest: Bytes, canonicalDoc: Option<Bytes>, ownerSignature: Bytes)

  /** The seven byte forms. */
  datatype Signable =
    | RevealForm(record: Reveal)
    | PreviousForm(previous: PreviousProof)
    | PreviousSignedForm(previous: PreviousProof)
    | HeartbeatForm(heartbeat: Heartbeat)
    | HostRouteForm(route: HostRoute)
    | KidForm(kid: AuthorizedKid)
    | ManifestForm(manifest: AuthorizedManifest)

  function Ascii(s: string): (r: Bytes)
    ensures |r| == |s|
  {
    seq(|s|, i requires 0 <= i < |s| => if s[i] < 128 as char then s[i] as int else 63)
  }

  function Tag(s: Signable): string {
    match s
    case RevealForm(_) => "vdf-reveal-v1"
    case PreviousForm(_) => "vdf-prev-proof-v1"
    case PreviousSignedForm(_) => "vdf-prev-v1"
    case HeartbeatForm(_) => "-heartbeat-v1"
    case HostRouteForm(_) => "-nrs-routing-v1"
    case KidForm(_) => "-auth-kid-v1"
    case ManifestForm(_) => "-auth-manifest-v1"
  }

  function U64Field(v: u64): Field { Fixed(FixedBE(v, 8)) }

  function PreviousBody(p: PreviousProof): seq<Field> {
    [Fixed(p.salt), U64Field(p.kyn), Framed(p.beaconSignature), U64Field(p.iterations), Framed(p.vdfProof)]
  }

  /** The fields after the network salt and the domain tag. */
  function Body(s: Signable, networkSalt: Hash): seq<Field> {
    match s
    case RevealForm(r) =>
      [Fixed([r.protocolVersion]), Framed(r.name), Framed(r.embeddedNrs), Fixed(r.salt), U64Field(r.kyn),
       Framed(r.beaconSignature), U64Field(r.iterations), Framed(r.vdfProof), Framed(r.pubkey),
       Optional(match r.previousProof
                case None => None
                case Some(p) => Some(PreviousBytes(p, networkSalt)))]
    case PreviousForm(p) => PreviousBody(p) + [Framed(p.identitySignature)]
    case PreviousSignedForm(p) => PreviousBody(p)
    case HeartbeatForm(h) =>
      [Framed(h.name), U64Field(h.latestKyn),
       Optional(match h.authorization
                case None => None
                case Some(a) => Some(a.ownerSignature))]
    case HostRouteForm(h) => [Framed(h.hostId), Framed(h.currentPeerId), U64Field(h.kyn)]
    case KidForm(k) => [Framed(k.name), Framed(k.canonicalDoc)]
    case ManifestForm(m) => [Framed(m.name), Framed(m.canonicalManifest)]
  }

  function Layout(s: Signable, networkSalt: Hash): seq<Field> {
    [Fixed(networkSalt), Fixed(Ascii(Tag(s)))] + Body(s, networkSalt)
  }

  function PreviousBytes(p: PreviousProof, networkSalt: Hash): Bytes {
    Print([Fixed(networkSalt), Fixed(Ascii("vdf-prev-proof-v1"))] + PreviousBody(p) + [Framed(p.identitySignature)])
  }

  function SignableBytes(s: Signable, networkSalt: Hash): Bytes { Print(Layout(s, networkSalt)) }

  /** Every length in the record, and in a nested previous proof, survives the casts to 32 bits. */
  predicate LengthsFit(s: Signable, networkSalt: Hash) {
    && AllFit(Layout(s, networkSalt))
    && (s.RevealForm? && s.record.previousProof.Some? ==>
          AllFit(Layout(PreviousForm(s.record.previousProof.value), networkSalt)))
  }

  /** The record with everything the signature does not cover erased. */
  function Covered(s: Signable): Signable {
    match s
    case RevealForm(r) => RevealForm(r.(identitySignature := [], authorization := None))
    case PreviousForm(p) => s
    case PreviousSignedForm(p) => PreviousSignedForm(p.(identitySignature := []))
    case HeartbeatForm(h) =>
      HeartbeatForm(h.(ownerSignature := [], authorization :=
        match h.authorization
        case None => None
        case Some(a) => Some(AuthorizedManifest([], [], None, a.ownerSignature))))
    case HostRouteForm(h) => HostRouteForm(h.(hostSignature := []))
    case KidForm(k) => KidForm(k.(ownerSignature := []))
    case ManifestForm(m) => ManifestForm(m.(canonicalDoc := None, ownerSignature := []))
  }

  predicate SameForm(a: Signable, b: Signable) { Tag(a) == Tag(b) }

  /** The characters at 0, 1, 4, 6 and 9 identify a tag. */
  function Marks(s: Signable): string {
    match s
    case RevealForm(_) => "vdrvl"
    case PreviousForm(_) => "vdpep"
    case PreviousSignedForm(_) => "vdpev"
    case HeartbeatForm(_) => "-hrbt"
    case HostRouteForm(_) => "-n-oi"
    case KidForm(_) => "-ahk-"
    case ManifestForm(_) => "-ahmi"
  }

  lemma TagMarks(s: Signable)
    ensures |Tag(s)| > 9 && |Marks(s)| == 5
    ensures var t := Tag(s); [t[0], t[1], t[4], t[6], t[9]] == Marks(s)
    ensures forall i :: 0 <= i < 5 ==> Marks(s)[i] < 128 as char
  {
  }

  lemma MarksDetermineTag(a: Signable, b: Signable)
    requires Marks(a) == Marks(b)
    ensures Tag(a) == Tag(b)
  {
    var m, n := Marks(a), Marks(b);
    assert m[1] == n[1] && m[2] == n[2] && m[3] == n[3] && m[4] == n[4];
  }

  /** Two tags differ at an index both have. */
  lemma TagsPartWays(a: Signable, b: Signable) returns (i: nat)
    requires !SameForm(a, b)
    ensures i < |Tag(a)| && i < |Tag(b)| && Tag(a)[i] != Tag(b)[i]
    ensures Tag(a)[i] < 128 as char && Tag(b)[i] < 128 as char
  {
    hide Tag;
    hide Marks;
    TagMarks(a);
    TagMarks(b);
    var m, n := Marks(a), Marks(b);
    if m == n {
      MarksDetermineTag(a, b);
      assert false;
    }
    i := if m[0] != n[0] then 0 else if m[1] != n[1] then 1 else if m[2] != n[2] then 4
         else if m[3] != n[3] then 6 else 9;
  }

  lemma AsciiAt(s: string, i: nat)
    requires i < |s| && s[i] < 128 as char
    ensures Ascii(s)[i] == s[i] as int
  {
  }

  /** The bytes begin with the network salt and the domain tag. */
  lemma Prologue(s: Signable, networkSalt: Hash)
    ensures var b := SignableBytes(s, networkSalt);
            |b| >= 32 + |Tag(s)| && b[..32] == networkSalt && b[32..32 + |Tag(s)|] == Ascii(Tag(s))
  {
    hide Body;
    hide Tag;
    hide Ascii;
    var fs := Layout(s, networkSalt);
    PrintFront(fs);
    PrintFront(fs[1..]);
  }

  /** Domain separation: no two forms ever produce equal bytes, whatever the salts, contents and lengths. */
  lemma DomainsSeparate(a: Signable, b: Signable, saltA: Hash, saltB: Hash)
    requires !SameForm(a, b)
    ensures SignableBytes(a, saltA) != SignableBytes(b, saltB)
  {
    hide SignableBytes;
    hide Tag;
    hide Ascii;
    var i := TagsPartWays(a, b);
    AsciiAt(Tag(a), i);
    AsciiAt(Tag(b), i);
    Prologue(a, saltA);
    Prologue(b, saltB);
    var x, y := SignableBytes(a, saltA), SignableBytes(b, saltB);
    assert x[32 + i] == x[32..32 + |Tag(a)|][i] && y[32 + i] == y[32..32 + |Tag(b)|][i];
  }

  lemma U64FieldInjective(v: u64, w: u64)
    requires U64Field(v) == U64Field(w)
    ensures v == w
  {
    hide FixedBE;
    Pow256Literals();
    FixedBERoundTrip(v, 8);
    FixedBERoundTrip(w, 8);
  }

  /** Length and first character already tell the tags apart. */
  lemma SameConstructor(a: Signable, b: Signable)
    requires SameForm(a, b)
    ensures (a.RevealForm? <==> b.RevealForm?) && (a.PreviousForm? <==> b.PreviousForm?)
         && (a.PreviousSignedForm? <==> b.PreviousSignedForm?) && (a.HeartbeatForm? <==> b.HeartbeatForm?)
         && (a.HostRouteForm? <==> b.HostRouteForm?) && (a.KidForm? <==> b.KidForm?)
         && (a.ManifestForm? <==> b.ManifestForm?)
  {
    var s, t := Tag(a), Tag(b);
    assert |s| == |t| && s[0] == t[0];
  }

  lemma BodyShapes(a: Signable, b: Signable, saltA: Hash, saltB: Hash)
    requires SameForm(a, b)
    ensures Shapes(Body(a, saltA)) == Shapes(Body(b, saltB))
  {
    hide PreviousBytes;
    hide FixedBE;
    hide SameForm;
    SameConstructor(a, b);
  }

  lemma ShapesOfLayout(s: Signable, salt: Hash)
    ensures Shapes(Layout(s, salt)) == [FixedOf(32), FixedOf(|Tag(s)|)] + Shapes(Body(s, salt))
  {
    hide Body;
    hide Tag;
    hide Ascii;
  }

  lemma SameShapes(a: Signable, b: Signable, saltA: Hash, saltB: Hash)
    requires SameForm(a, b)
    ensures Shapes(Layout(a, saltA)) == Shapes(Layout(b, saltB))
  {
    hide Layout;
    hide Shapes;
    BodyShapes(a, b, saltA, saltB);
    ShapesOfLayout(a, saltA);
    ShapesOfLayout(b, saltB);
  }

  /** Equal bytes have equal layouts, field for field. */
  lemma EqualBytesEqualLayouts(a: Signable, b: Signable, saltA: Hash, saltB: Hash)
    requires LengthsFit(a, saltA) && LengthsFit(b, saltB)
    requires SignableBytes(a, saltA) == SignableBytes(b, saltB)
    ensures SameForm(a, b) && saltA == saltB && Body(a, saltA) == Body(b, saltB)
  {
    if !SameForm(a, b) {
      DomainsSeparate(a, b, saltA, saltB);
      assert false;
    }
    SameShapes(a, b, saltA, saltB);
    hide Body;
    hide Tag;
    var fs, gs := Layout(a, saltA), Layout(b, saltB);
    PrintInjective(fs, gs);
    assert fs[0] == gs[0];
    assert fs[2..] == Body(a, saltA) && gs[2..] == Body(b, saltB);
  }

  lemma PreviousBodyInjective(p: PreviousProof, q: PreviousProof)
    requires PreviousBody(p) == PreviousBody(q)
    ensures p.(identitySignature := []) == q.(identitySignature := [])
  {
    hide FixedBE;
    var fs, gs := PreviousBody(p), PreviousBody(q);
    assert fs[0] == gs[0] && fs[1] == gs[1] && fs[2] == gs[2] && fs[3] == gs[3] && fs[4] == gs[4];
    U64FieldInjective(p.kyn, q.kyn);
    U64FieldInjective(p.iterations, q.iterations);
  }

  lemma PreviousFormInjective(p: PreviousProof, q: PreviousProof, saltA: Hash, saltB: Hash)
    requires AllFit(Layout(PreviousForm(p), saltA)) && AllFit(Layout(PreviousForm(q), saltB))
    requires SignableBytes(PreviousForm(p), saltA) == SignableBytes(PreviousForm(q), saltB)
    ensures p == q
  {
    hide FixedBE;
    hide PreviousBytes;
    EqualBytesEqualLayouts(PreviousForm(p), PreviousForm(q), saltA, saltB);
    var fs, gs := Body(PreviousForm(p), saltA), Body(PreviousForm(q), saltB);
    assert fs[..5] == PreviousBody(p) && gs[..5] == PreviousBody(q);
    assert fs[5] == gs[5];
    PreviousBodyInjective(p, q);
  }

  lemma PreviousBytesAreForm(p: PreviousProof, salt: Hash)
    ensures PreviousBytes(p, salt) == SignableBytes(PreviousForm(p), salt)
  {
    hide FixedBE;
    assert Layout(PreviousForm(p), salt)
        == [Fixed(salt), Fixed(Ascii("vdf-prev-proof-v1"))] + PreviousBody(p) + [Framed(p.identitySignature)];
  }

  lemma RevealBodyInjective(a: Reveal, b: Reveal, salt: Hash)
    requires LengthsFit(RevealForm(a), salt) && LengthsFit(RevealForm(b), salt)
    requires Body(RevealForm(a), salt) == Body(RevealForm(b), salt)
    ensures Covered(RevealForm(a)) == Covered(RevealForm(b))
  {
    hide FixedBE;
    hide PreviousBytes;
    hide Layout;
    var fs, gs := Body(RevealForm(a), salt), Body(RevealForm(b), salt);
    assert fs[0] == gs[0] && fs[1] == gs[1] && fs[2] == gs[2] && fs[3] == gs[3] && fs[4] == gs[4];
    assert fs[5] == gs[5] && fs[6] == gs[6] && fs[7] == gs[7] && fs[8] == gs[8] && fs[9] == gs[9];
    assert fs[0].bytes[0] == gs[0].bytes[0];
    U64FieldInjective(a.kyn, b.kyn);
    U64FieldInjective(a.iterations, b.iterations);
    if a.previousProof.Some? && b.previousProof.Some? {
      PreviousBytesAreForm(a.previousProof.value, salt);
      PreviousBytesAreForm(b.previousProof.value, salt);
      PreviousFormInjective(a.previousProof.value, b.previousProof.value, salt, salt);
    }
  }

  lemma SmallBodyInjective(a: Signable, b: Signable, salt: Hash)
    requires !a.RevealForm? && SameForm(a, b) && Body(a, salt) == Body(b, salt)
    ensures Covered(a) == Covered(b)
  {
    hide FixedBE;
    hide PreviousBytes;
    var fs, gs := Body(a, salt), Body(b, salt);
    match a
    case PreviousForm(p) =>
      assert fs[..5] == PreviousBody(p) && gs[..5] == PreviousBody(b.previous) && fs[5] == gs[5];
      PreviousBodyInjective(p, b.previous);
    case PreviousSignedForm(p) =>
      PreviousBodyInjective(p, b.previous);
    case HeartbeatForm(h) =>
      assert fs[0] == gs[0] && fs[1] == gs[1] && fs[2] == gs[2];
      U64FieldInjective(h.latestKyn, b.heartbeat.latestKyn);
    case HostRouteForm(h) =>
      assert fs[0] == gs[0] && fs[1] == gs[1] && fs[2] == gs[2];
      U64FieldInjective(h.kyn, b.route.kyn);
    case KidForm(k) =>
      assert fs[0] == gs[0] && fs[1] == gs[1];
    case ManifestForm(m) =>
      assert fs[0] == gs[0] && fs[1] == gs[1];
    case RevealForm(_) =>
  }

  /** What is signed determines the network, the form and every covered field, and nothing more. */
  lemma SignatureCoversExactly(a: Signable, b: Signable, saltA: Hash, saltB: Hash)
    requires LengthsFit(a, saltA) && LengthsFit(b, saltB)
    ensures SignableBytes(a, saltA) == SignableBytes(b, saltB) <==> saltA == saltB && Covered(a) == Covered(b)
  {
    if SignableBytes(a, saltA) == SignableBytes(b, saltB) {
      EqualBytesEqualLayouts(a, b, saltA, saltB);
      hide SignableBytes;
      hide Body;
      hide Covered;
      if a.RevealForm? {
        RevealBodyInjective(a.record, b.record, saltA);
      } else {
        SmallBodyInjective(a, b, saltA);
      }
    } else if saltA == saltB && Covered(a) == Covered(b) {
      CoveredDeterminesLayout(a, saltA);
      CoveredDeterminesLayout(b, saltB);
      assert false;
    }
  }

  lemma CoveredDeterminesLayout(a: Signable, salt: Hash)
    ensures Layout(Covered(a), salt) == Layout(a, salt)
  {
    hide FixedBE;
    hide PreviousBytes;
    hide Ascii;
  }
}
