/** The encoders of kinetic-types as they run: a buffer extended field by field. Each produces the bytes of its form. */
module RecordEncoders {
  import opened ByteStrings
  import opened Results
  import opened Framing
  import opened Records

  /** `PreviousProof::bytes` */
  method EncodePreviousProof(p: PreviousProof, networkSalt: Hash) returns (bytes: Bytes)
    ensures bytes == SignableBytes(PreviousForm(p), networkSalt)
  {
    hide Print;
    hide FixedBE;
    hide Ascii;
    ghost var fs := Layout(PreviousForm(p), networkSalt);
    StartEmpty(fs);
    bytes := [];
    bytes := Extend(bytes, networkSalt, fs, 0);
    bytes := Extend(bytes, Ascii("vdf-prev-proof-v1"), fs, 1);
    bytes := Extend(bytes, p.salt, fs, 2);
    bytes := Extend(bytes, FixedBE(p.kyn, 8), fs, 3);
    bytes := Extend(bytes, Frame(p.beaconSignature), fs, 4);
    bytes := Extend(bytes, FixedBE(p.iterations, 8), fs, 5);
    bytes := Extend(bytes, Frame(p.vdfProof), fs, 6);
    bytes := Extend(bytes, Frame(p.identitySignature), fs, 7);
  }

  /** `PreviousProof::signable_bytes` */
  method EncodePreviousSigned(p: PreviousProof, networkSalt: Hash) returns (bytes: Bytes)
    ensures bytes == SignableBytes(PreviousSignedForm(p), networkSalt)
  {
    hide Print;
    hide FixedBE;
    hide Ascii;
    ghost var fs := Layout(PreviousSignedForm(p), networkSalt);
    StartEmpty(fs);
    bytes := [];
    bytes := Extend(bytes, networkSalt, fs, 0);
    bytes := Extend(bytes, Ascii("vdf-prev-v1"), fs, 1);
    bytes := Extend(bytes, p.salt, fs, 2);
    bytes := Extend(bytes, FixedBE(p.kyn, 8), fs, 3);
    bytes := Extend(bytes, Frame(p.beaconSignature), fs, 4);
    bytes := Extend(bytes, FixedBE(p.iterations, 8), fs, 5);
    bytes := Extend(bytes, Frame(p.vdfProof), fs, 6);
  }

  /** The fixed opening of a reveal: network, domain, version, name, zone payload and commitment salt. */
  method EncodeRevealOpening(r: Reveal, networkSalt: Hash, ghost fs: seq<Field>) returns (bytes: Bytes)
    requires |fs| == 12 && fs[0] == Fixed(networkSalt) && fs[1] == Fixed(Ascii("vdf-reveal-v1"))
    requires fs[2] == Fixed([r.protocolVersion]) && fs[3] == Framed(r.name) && fs[4] == Framed(r.embeddedNrs)
    requires fs[5] == Fixed(r.salt)
    ensures bytes == Print(fs[..6])
  {
    hide Print;
    hide Ascii;
    hide Frame;
    StartEmpty(fs);
    bytes := [];
    bytes := Extend(bytes, networkSalt, fs, 0);
    bytes := Extend(bytes, Ascii("vdf-reveal-v1"), fs, 1);
    bytes := Extend(bytes, [r.protocolVersion], fs, 2);
    bytes := Extend(bytes, Frame(r.name), fs, 3);
    bytes := Extend(bytes, Frame(r.embeddedNrs), fs, 4);
    bytes := Extend(bytes, r.salt, fs, 5);
  }

  /** The rest of a reveal: time, beacon, delay proof, owner key and the optional previous proof. */
  method EncodeRevealRest(r: Reveal, opening: Bytes, previous: Bytes, ghost fs: seq<Field>) returns (bytes: Bytes)
    requires |fs| == 12 && opening == Print(fs[..6])
    requires fs[6] == U64Field(r.kyn) && fs[7] == Framed(r.beaconSignature) && fs[8] == U64Field(r.iterations)
    requires fs[9] == Framed(r.vdfProof) && fs[10] == Framed(r.pubkey)
    requires fs[11] == Optional(if r.previousProof.Some? then Some(previous) else None)
    ensures bytes == Print(fs)
  {
    hide Print;
    hide FixedBE;
    hide Frame;
    bytes := Extend(opening, FixedBE(r.kyn, 8), fs, 6);
    bytes := Extend(bytes, Frame(r.beaconSignature), fs, 7);
    bytes := Extend(bytes, FixedBE(r.iterations, 8), fs, 8);
    bytes := Extend(bytes, Frame(r.vdfProof), fs, 9);
    bytes := Extend(bytes, Frame(r.pubkey), fs, 10);
    if r.previousProof.Some? {
      bytes := Extend(bytes, [1] + Frame(previous), fs, 11);
    } else {
      bytes := Extend(bytes, [0], fs, 11);
    }
  }

  /** `Reveal::signable_bytes` */
  method EncodeReveal(r: Reveal, networkSalt: Hash) returns (bytes: Bytes)
    ensures bytes == SignableBytes(RevealForm(r), networkSalt)
  {
    hide Print;
    hide FixedBE;
    hide Ascii;
    hide PreviousBytes;
    var previous: Bytes := [];
    if r.previousProof.Some? {
      previous := EncodePreviousProof(r.previousProof.value, networkSalt);
      PreviousBytesAreForm(r.previousProof.value, networkSalt);
    }
    ghost var fs := Layout(RevealForm(r), networkSalt);
    bytes := EncodeRevealOpening(r, networkSalt, fs);
    bytes := EncodeRevealRest(r, bytes, previous, fs);
  }

  /** `Heartbeat::signable_bytes` */
  method EncodeHeartbeat(h: Heartbeat, networkSalt: Hash) returns (bytes: Bytes)
    ensures bytes == SignableBytes(HeartbeatForm(h), networkSalt)
  {
    hide Print;
    hide FixedBE;
    hide Ascii;
    ghost var fs := Layout(HeartbeatForm(h), networkSalt);
    StartEmpty(fs);
    bytes := [];
    bytes := Extend(bytes, networkSalt, fs, 0);
    bytes := Extend(bytes, Ascii("-heartbeat-v1"), fs, 1);
    bytes := Extend(bytes, Frame(h.name), fs, 2);
    bytes := Extend(bytes, FixedBE(h.latestKyn, 8), fs, 3);
    if h.authorization.Some? {
      bytes := Extend(bytes, [1] + Frame(h.authorization.value.ownerSignature), fs, 4);
    } else {
      bytes := Extend(bytes, [0], fs, 4);
    }
  }

  /** `HostRoute::signable_bytes` */
  method EncodeHostRoute(h: HostRoute, networkSalt: Hash) returns (bytes: Bytes)
    ensures bytes == SignableBytes(HostRouteForm(h), networkSalt)
  {
    hide Print;
    hide FixedBE;
    hide Ascii;
    ghost var fs := Layout(HostRouteForm(h), networkSalt);
    StartEmpty(fs);
    bytes := [];
    bytes := Extend(bytes, networkSalt, fs, 0);
    bytes := Extend(bytes, Ascii("-nrs-routing-v1"), fs, 1);
    bytes := Extend(bytes, Frame(h.hostId), fs, 2);
    bytes := Extend(bytes, Frame(h.currentPeerId), fs, 3);
    bytes := Extend(bytes, FixedBE(h.kyn, 8), fs, 4);
  }

  /** `AuthorizedKid::signable_bytes` */
  method EncodeAuthorizedKid(k: AuthorizedKid, networkSalt: Hash) returns (bytes: Bytes)
    ensures bytes == SignableBytes(KidForm(k), networkSalt)
  {
    hide Print;
    hide FixedBE;
    hide Ascii;
    ghost var fs := Layout(KidForm(k), networkSalt);
    StartEmpty(fs);
    bytes := [];
    bytes := Extend(bytes, networkSalt, fs, 0);
    bytes := Extend(bytes, Ascii("-auth-kid-v1"), fs, 1);
    bytes := Extend(bytes, Frame(k.name), fs, 2);
    bytes := Extend(bytes, Frame(k.canonicalDoc), fs, 3);
  }

  /** `AuthorizedManifest::signable_bytes` */
  method EncodeAuthorizedManifest(m: AuthorizedManifest, networkSalt: Hash) returns (bytes: Bytes)
    ensures bytes == SignableBytes(ManifestForm(m), networkSalt)
  {
    hide Print;
    hide FixedBE;
    hide Ascii;
    ghost var fs := Layout(ManifestForm(m), networkSalt);
    StartEmpty(fs);
    bytes := [];
    bytes := Extend(bytes, networkSalt, fs, 0);
    bytes := Extend(bytes, Ascii("-auth-manifest-v1"), fs, 1);
    bytes := Extend(bytes, Frame(m.name), fs, 2);
    bytes := Extend(bytes, Frame(m.canonicalManifest), fs, 3);
  }

  lemma StartEmpty(fs: seq<Field>)
    ensures Print(fs[..0]) == []
  {
  }
}
