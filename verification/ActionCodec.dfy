/** Canonical action bytes of kinetic-types/src/action.rs: one opcode, an optional key, a big-endian timestamp. */
module ActionCodec {
  import opened Numbers
  import opened ByteStrings
  import opened Results

  const PUBKEY_LENGTH: nat := 1952

  datatype NetworkAction = RotateSovereignKey(newKey: Bytes) | EmergencyHalt | EmergencyResume

  datatype SignedAction = SignedAction(action: NetworkAction, timestamp: u64, signatures: seq<Bytes>)

  datatype ParseError = BufferTooSmall | UnknownOpcode(opcode: byte) | InvalidPubkeyLength

  /** The opcode and the action's own payload. */
  function Payload(a: NetworkAction): Bytes {
    match a
    case RotateSovereignKey(k) => [0x0B] + k
    case EmergencyHalt => [0x0C]
    case EmergencyResume => [0x0D]
  }

  function Encode(a: NetworkAction, timestamp: u64): Bytes {
    Payload(a) + FixedBE(timestamp, 8)
  }

  /** The bytes that are hashed and signed; the signatures are not covered. */
  function Canonical(msg: SignedAction): Bytes {
    Encode(msg.action, msg.timestamp)
  }

  /** `to_bytes` */
  method ToBytes(msg: SignedAction) returns (buf: Bytes)
    ensures buf == Canonical(msg)
  {
    buf := [];
    match msg.action {
      case RotateSovereignKey(k) =>
        buf := buf + [0x0B];
        buf := buf + k;
      case EmergencyHalt =>
        buf := buf + [0x0C];
      case EmergencyResume =>
        buf := buf + [0x0D];
    }
    assert buf == Payload(msg.action);
    buf := buf + FixedBE(msg.timestamp, 8);
  }

  function U64FromBE(b: Bytes): u64
    requires |b| == 8
  {
    FromBEBound(b);
    Pow256Literals();
    FromBE(b)
  }

  /** `parse_payload` */
  function Parse(bytes: Bytes): Result<(NetworkAction, u64), ParseError> {
    if |bytes| < 9 then Err(BufferTooSmall)
    else
      var timestamp := U64FromBE(bytes[|bytes| - 8..]);
      var payload := bytes[0..|bytes| - 8];
      var opcode, data := payload[0], payload[1..];
      match opcode
      case 0x0B =>
        if |data| != PUBKEY_LENGTH then Err(InvalidPubkeyLength) else Ok((RotateSovereignKey(data), timestamp))
      case 0x0C => Ok((EmergencyHalt, timestamp))
      case 0x0D => Ok((EmergencyResume, timestamp))
      case _ => Err(UnknownOpcode(opcode))
  }

  lemma TimestampRoundTrip(t: u64)
    ensures U64FromBE(FixedBE(t, 8)) == t
  {
    hide FixedBE;
    Pow256Literals();
    FixedBERoundTrip(t, 8);
  }

  /** Printing then parsing gives the action back exactly when a rotation carries a 1952-byte key. */
  lemma ParseInvertsEncode(a: NetworkAction, t: u64)
    ensures Parse(Encode(a, t)) == Ok((a, t)) <==> (a.RotateSovereignKey? ==> |a.newKey| == PUBKEY_LENGTH)
    ensures a.RotateSovereignKey? && |a.newKey| != PUBKEY_LENGTH ==> Parse(Encode(a, t)) == Err(InvalidPubkeyLength)
  {
    hide FixedBE;
    hide FromBE;
    var b := Encode(a, t);
    assert b[|b| - 8..] == FixedBE(t, 8);
    assert b[0..|b| - 8] == Payload(a);
    TimestampRoundTrip(t);
    if a.RotateSovereignKey? {
      assert Payload(a)[1..] == a.newKey;
    }
  }

  /** Parsing then printing gives the buffer back, except that longer halt and resume buffers are accepted
      with their trailing bytes ignored. */
  lemma EncodeInvertsParse(bytes: Bytes)
    requires Parse(bytes).Ok?
    ensures var (a, t) := Parse(bytes).value;
            Encode(a, t) == bytes <==> (a.RotateSovereignKey? || |bytes| == 9)
  {
    hide FixedBE;
    hide FromBE;
    var (a, t) := Parse(bytes).value;
    var tail := bytes[|bytes| - 8..];
    FixedBEOfFromBE(tail);
    assert FixedBE(t, 8) == tail;
    assert bytes == bytes[0..|bytes| - 8] + tail;
    var payload := bytes[0..|bytes| - 8];
    assert payload == [payload[0]] + payload[1..];
    if a.RotateSovereignKey? || |bytes| == 9 {
      assert payload == Payload(a);
    }
  }

  /** Where everything is: the opcode first, the key behind it, the timestamp's big-endian value in the last eight
      bytes. */
  lemma CanonicalLayout(msg: SignedAction)
    ensures var b, n := Canonical(msg), |Canonical(msg)|;
            && n == 9 + (if msg.action.RotateSovereignKey? then |msg.action.newKey| else 0)
            && (msg.action.RotateSovereignKey? ==> b[0] == 0x0B)
            && (msg.action.EmergencyHalt? ==> b[0] == 0x0C)
            && (msg.action.EmergencyResume? ==> b[0] == 0x0D)
            && (msg.action.RotateSovereignKey? ==> b[1..n - 8] == msg.action.newKey)
            && FromBE(b[n - 8..]) == msg.timestamp
  {
    hide FixedBE;
    hide FromBE;
    var b := Canonical(msg);
    assert b[|b| - 8..] == FixedBE(msg.timestamp, 8);
    TimestampRoundTrip(msg.timestamp);
  }

  /** What makes a buffer unparsable, and why. */
  lemma ParseFailsExactlyWhen(b: Bytes)
    ensures Parse(b) == Err(BufferTooSmall) <==> |b| < 9
    ensures Parse(b) == Err(InvalidPubkeyLength) <==> |b| >= 9 && b[0] == 0x0B && |b| != 1961
    ensures forall op :: Parse(b) == Err(UnknownOpcode(op)) <==>
                           |b| >= 9 && op == b[0] && op != 0x0B && op != 0x0C && op != 0x0D
  {
    hide FromBE;
  }

  /** The canonical bytes determine the action and the timestamp, and nothing else. */
  lemma CanonicalInjective(m1: SignedAction, m2: SignedAction)
    ensures Canonical(m1) == Canonical(m2) <==> m1.action == m2.action && m1.timestamp == m2.timestamp
  {
    hide FixedBE;
    hide FromBE;
    var b1, b2 := Canonical(m1), Canonical(m2);
    if b1 == b2 {
      assert b1[|b1| - 8..] == FixedBE(m1.timestamp, 8) && b2[|b2| - 8..] == FixedBE(m2.timestamp, 8);
      TimestampRoundTrip(m1.timestamp);
      TimestampRoundTrip(m2.timestamp);
      assert b1[..|b1| - 8] == Payload(m1.action) && b2[..|b2| - 8] == Payload(m2.action);
      assert Payload(m1.action)[0] == Payload(m2.action)[0];
      assert Payload(m1.action)[1..] == Payload(m2.action)[1..];
      if m1.action.RotateSovereignKey? {
        assert Payload(m1.action)[1..] == m1.action.newKey && Payload(m2.action)[1..] == m2.action.newKey;
      }
    }
  }
}
