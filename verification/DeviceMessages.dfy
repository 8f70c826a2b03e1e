/** Access messages under the device key, from the model that sends them down to the air and back. */
module DeviceMessages {
  import opened Wrappers
  import opened Mesh
  import opened Counter
  import opened Nonce
  import opened NetworkLayer
  import OutboundSegmentation
  import LowerAccess
  import LowerControl
  import Octets
  import Opcode
  import I = InboundSegmentation
  import Segmentation
  import Delivery

  type CleartextPdu = OutboundSegmentation.CleartextPdu

  datatype AccessMessage = AccessMessage(
    opcode: Opcode.Opcode, parameters: bytes, src: u16, dst: u16, ttl: u8, ivIndex: u32)
  {
    function Payload(): bytes { Opcode.Emit(opcode) + parameters }

    function MetaWith(seqNum: u32): Meta { Meta(ivIndex, src, dst, seqNum, ttl) }

    function NonceWith(seqNum: u32): bytes { DeviceNonce(Bit32, seqNum, src, dst, ivIndex) }
  }

  // What a node hands to the model that is to receive it.
  datatype Message = AccessOf(access: AccessMessage) | ControlOf(opcode: byte, parameters: bytes)

  const MESSAGE_CAPACITY: nat := 379
  const TRANSMIC_SIZE: nat := 4

  // ---------------------------------------------------------------- outbound

  function Sealed(c: Crypto, deviceKey: nat, m: AccessMessage, seqNum: u32): bytes {
    c.seal(deviceKey, m.NonceWith(seqNum), TRANSMIC_SIZE, m.Payload())
  }

  // The upper PDU, its payload and its MIC one after the other.
  function EncryptAccess(c: Crypto, deviceKey: nat, m: AccessMessage, seqNum: u32): Result<bytes, DriverError> {
    if |m.Payload()| > MESSAGE_CAPACITY then Err(InsufficientSpace) else Ok(Sealed(c, deviceKey, m, seqNum))
  }

  // The network PDUs before network encryption, when the counter stands at `counter`; the message
  // takes the first number for its nonce even when it does not fit.
  function Cleartexts(c: Crypto, deviceKey: nat, m: AccessMessage, counter: u32): Result<seq<CleartextPdu>, DriverError> {
    match EncryptAccess(c, deviceKey, m, counter)
    case Err(e) => Err(e)
    case Ok(upper) => OutboundSegmentation.Outbound(upper, None, m.MetaWith(counter), Increment(counter), false)
  }

  function CounterAfter(c: Crypto, deviceKey: nat, m: AccessMessage, counter: u32): u32 {
    if Cleartexts(c, deviceKey, m, counter).Err? then Increment(counter)
    else After(Increment(counter), OutboundSegmentation.NumbersTaken(Sealed(c, deviceKey, m, counter), false))
  }

  // PDUs are encrypted up to the first that fails.
  function EncryptAll(c: Crypto, key: NetworkKey, pdus: seq<CleartextPdu>): seq<NetworkPdu> {
    if pdus == [] then []
    else
      match Encrypt(c, key, Cleartext(false, pdus[0]))
      case Err(_) => []
      case Ok(p) => [p] + EncryptAll(c, key, pdus[1..])
  }

  function OutboundPdus(c: Crypto, key: NetworkKey, deviceKey: nat, m: AccessMessage, counter: u32)
    : Result<seq<NetworkPdu>, DriverError>
  {
    match Cleartexts(c, deviceKey, m, counter)
    case Err(e) => Err(e)
    case Ok(pdus) => Ok(EncryptAll(c, key, pdus))
  }

  lemma EncryptNext(c: Crypto, key: NetworkKey, pdus: seq<CleartextPdu>, i: nat, r: Result<NetworkPdu, DriverError>)
    requires i < |pdus| && r == Encrypt(c, key, Cleartext(false, pdus[i]))
    ensures EncryptAll(c, key, pdus[i..]) == if r.Err? then [] else [r.value] + EncryptAll(c, key, pdus[i + 1..])
  {
    assert pdus[i..][0] == pdus[i] && pdus[i..][1..] == pdus[i + 1..];
  }

  method EncryptNetworkPdus(c: Crypto, key: NetworkKey, pdus: seq<CleartextPdu>) returns (encrypted: seq<NetworkPdu>)
    ensures encrypted == EncryptAll(c, key, pdus)
  {
    encrypted := [];
    for i := 0 to |pdus|
      invariant encrypted + EncryptAll(c, key, pdus[i..]) == EncryptAll(c, key, pdus)
    {
      var r := Encrypt(c, key, Cleartext(false, pdus[i]));
      EncryptNext(c, key, pdus, i, r);
      if r.Err? { return; }
      ghost var rest := EncryptAll(c, key, pdus[i + 1..]);
      assert encrypted + ([r.value] + rest) == encrypted + [r.value] + rest;
      encrypted := encrypted + [r.value];
    }
  }

  method ProcessOutbound(sequence: Sequence, c: Crypto, key: NetworkKey, deviceKey: nat, m: AccessMessage)
    returns (result: Result<seq<NetworkPdu>, DriverError>)
    modifies sequence
    ensures result == OutboundPdus(c, key, deviceKey, m, old(sequence.seqNum))
    ensures sequence.seqNum == CounterAfter(c, deviceKey, m, old(sequence.seqNum))
  {
    var seqNum := sequence.Next();
    var upper := EncryptAccess(c, deviceKey, m, seqNum);
    if upper.Err? { return Err(upper.error); }
    var pdus := OutboundSegmentation.Process(sequence, upper.value, None, m.MetaWith(seqNum), false);
    if pdus.Err? { return Err(pdus.error); }
    var encrypted := EncryptNetworkPdus(c, key, pdus.value);
    return Ok(encrypted);
  }

  // ---------------------------------------------------------------- inbound

  // A node of one device key and no application keys.
  datatype Node = Node(ivIndex: u32, keys: seq<NetworkKey>, deviceKey: nat)

  function DecryptAccess(c: Crypto, deviceKey: nat, upper: I.UpperPdu): Result<AccessMessage, DriverError>
    requires upper.UpperAccess?
  {
    var meta := upper.meta;
    var nonce := DeviceNonce(if |upper.transmic| == 8 then Bit64 else Bit32, meta.seqNum, meta.src, meta.dst, meta.ivIndex);
    if upper.aid.Some? then Err(InvalidPDU)
    else
      match c.open(deviceKey, nonce, |upper.transmic|, upper.payload + upper.transmic)
      case None => Err(InvalidPDU)
      case Some(data) =>
        match Opcode.Split(data)
        case None => Err(Parse(InvalidPDUFormat))
        case Some((opcode, parameters)) =>
          Ok(AccessMessage(opcode, parameters, meta.src, meta.dst, meta.ttl, meta.ivIndex))
  }

  // An unsegmented access PDU; a MIC that does not fit is a Rust panic.
  function LowerUnsegmented(pdu: CleartextPdu): (r: Result<I.UpperPdu, DriverError>)
    requires |pdu.transport| >= 2
    ensures r.Ok? ==> r.value.UpperAccess?
  {
    var data := pdu.transport[1..];
    if |data| < TRANSMIC_SIZE then Err(Panic)
    else
      var split := |data| - TRANSMIC_SIZE;
      Ok(I.UpperAccess(data[..split], data[split..], LowerAccess.ParseAid(pdu.transport[0]), pdu.meta))
  }

  // What an upper PDU comes to: an access PDU is decrypted, a control PDU is handed up as it is.
  function Handed(c: Crypto, deviceKey: nat, upper: I.UpperPdu): Result<Option<Message>, DriverError> {
    if upper.UpperControl? then Ok(Some(ControlOf(upper.opcode, upper.parameters)))
    else
      match DecryptAccess(c, deviceKey, upper)
      case Ok(message) => Ok(Some(AccessOf(message)))
      case Err(e) => Err(e)
  }

  // A transport PDU that is not a segment.
  function LowerWhole(control: bool, pdu: CleartextPdu): Result<I.UpperPdu, DriverError>
    requires |pdu.transport| >= 2
  {
    if !control then LowerUnsegmented(pdu)
    else
      match LowerControl.ParseOpcode(pdu.transport[0])
      case Err(e) => Err(e)
      case Ok(opcode) => Ok(I.UpperControl(opcode, pdu.transport[1..], pdu.meta))
  }

  function LowerSegment(control: bool, pdu: CleartextPdu): Result<I.SegmentedPdu, DriverError>
    requires pdu.transport != []
  {
    if control then LowerControl.ParseSegment(pdu.transport, pdu.meta) else Segmentation.FromWire(pdu.transport, pdu.meta)
  }

  // A PDU of the network layer, with the messages in flight.
  ghost function ReceiveLower(c: Crypto, node: Node, capacity: nat, flights: map<u16, I.Flight>,
                              control: bool, pdu: CleartextPdu)
    : (map<u16, I.Flight>, Result<Option<Message>, DriverError>)
    requires I.AllWellFormed(flights)
  {
    if |pdu.transport| < 2 then (flights, Err(Parse(InvalidLength)))
    else if pdu.transport[0] & 0x80 == 0 then
      match LowerWhole(control, pdu) {
        case Err(e) => (flights, Err(e))
        case Ok(upper) => (flights, Handed(c, node.deviceKey, upper))
      }
    else
      match LowerSegment(control, pdu) {
        case Err(e) => (flights, Err(e))
        case Ok(segment) =>
          var (flights', outcome) := I.Step(capacity, flights, segment);
          (flights', Reassembled(c, node.deviceKey, outcome))
      }
  }

  // What reassembly hands over goes up like a whole PDU.
  function Reassembled(c: Crypto, deviceKey: nat, outcome: I.Outcome): Result<Option<Message>, DriverError> {
    match outcome
    case Err(e) => Err(e)
    case Ok(result) => if result.upper.None? then Ok(None) else Handed(c, deviceKey, result.upper.value)
  }

  // The first bit of a transport PDU tells a segment from a whole access PDU, of which the next bit and
  // six more tell the key; a PDU without anything else is refused, and one too short for a MIC makes the
  // receiver panic.
  lemma LowerCases(c: Crypto, node: Node, capacity: nat, flights: map<u16, I.Flight>, pdu: CleartextPdu)
    requires I.AllWellFormed(flights)
    ensures var (r, t) := (ReceiveLower(c, node, capacity, flights, false, pdu), pdu.transport);
      && (|t| < 2 ==> r == (flights, Err(Parse(InvalidLength))))
      && (2 <= |t| < 5 && t[0] < 0x80 ==> r == (flights, Err(Panic)))
      && (|t| >= 5 && t[0] < 0x80 ==>
          r == (flights, Handed(c, node.deviceKey,
                  I.UpperAccess(t[1..|t| - 4], t[|t| - 4..], if t[0] >= 0x40 then Some(t[0] - 0x40) else None, pdu.meta))))
      && (2 <= |t| < 4 && t[0] >= 0x80 ==> r == (flights, Err(Panic)))
  {
    var t := pdu.transport;
    if |t| >= 2 {
      FirstOctet(t[0]);
      if |t| >= 5 { assert t[1..][..|t| - 5] == t[1..|t| - 4] && t[1..][|t| - 5..] == t[|t| - 4..]; }
    }
  }

  lemma FirstOctet(b: byte)
    ensures b & 0x80 == 0 <==> b < 0x80
    ensures b < 0x80 ==> LowerAccess.ParseAid(b) == if b >= 0x40 then Some(b - 0x40) else None
  {
  }

  // Of a control PDU the first octet tells the opcode too, of which there are eleven; one that is not a
  // segment is handed up at once.
  lemma ControlCases(c: Crypto, node: Node, capacity: nat, flights: map<u16, I.Flight>, pdu: CleartextPdu)
    requires I.AllWellFormed(flights)
    ensures var (r, t) := (ReceiveLower(c, node, capacity, flights, true, pdu), pdu.transport);
      && (|t| < 2 ==> r == (flights, Err(Parse(InvalidLength))))
      && (|t| >= 2 && t[0] <= 10 ==> r == (flights, Ok(Some(ControlOf(t[0], t[1..])))))
      && (|t| >= 2 && ((t[0] > 10 && t[0] < 0x80) || t[0] > 0x8A) ==> r == (flights, Err(Parse(InvalidValue))))
      && (2 <= |t| < 4 && 0x80 <= t[0] <= 0x8A ==> r == (flights, Err(Panic)))
      && (|t| > 12 && 0x80 <= t[0] <= 0x8A ==> r == (flights, Err(Parse(InsufficientBuffer))))
  {
    if |pdu.transport| >= 2 { ControlOctet(pdu.transport[0]); }
  }

  lemma ControlOctet(b: byte)
    ensures b & 0x80 == 0 <==> b < 0x80
    ensures b & 0x7F == if b < 0x80 then b else b - 0x80
  {
  }

  // A network PDU.
  ghost function Receive(c: Crypto, node: Node, capacity: nat, flights: map<u16, I.Flight>, pdu: NetworkPdu)
    : (map<u16, I.Flight>, Result<Option<Message>, DriverError>)
    requires I.AllWellFormed(flights) && |pdu.obfuscated| == 6
  {
    match TryKeys(c, node.keys, pdu, Accepted(node.ivIndex, pdu.ivi))
    case Err(e) => (flights, Err(e))
    case Ok(None) => (flights, Ok(None))
    case Ok(Some(cleartext)) => ReceiveLower(c, node, capacity, flights, cleartext.control, cleartext.pdu)
  }

  // A segment of a message goes to reassembly under its source, and what that hands over is decrypted.
  lemma SegmentThroughStack(c: Crypto, node: Node, capacity: nat, flights: map<u16, I.Flight>,
                            msg: Segmentation.Message, a: Segmentation.Arrival)
    requires I.AllWellFormed(flights) && msg.Valid() && a.index <= msg.SegN()
    ensures var transport := LowerAccess.Emit(OutboundSegmentation.SegmentOf(msg.payload, msg.aid, msg.meta, a.index));
      var (flights', outcome) := I.Step(capacity, flights, Segmentation.Arrive(msg, a));
      ReceiveLower(c, node, capacity, flights, false, OutboundSegmentation.CleartextPdu(transport, a.meta))
      == (flights', if outcome.Err? then Err(outcome.error)
                    else if !Delivery.Delivers(outcome) then Ok(None)
                    else Handed(c, node.deviceKey, outcome.value.upper.value))
  {
    var s := OutboundSegmentation.SegmentOf(msg.payload, msg.aid, msg.meta, a.index);
    Segmentation.ArrivedPdu(msg, a);
    LowerAccess.AidBack(s.aid);
  }

  // So does a segment of a control PDU; one that completes it hands up the opcode and the parameters.
  lemma ControlThroughStack(c: Crypto, node: Node, capacity: nat, flights: map<u16, I.Flight>, pdu: CleartextPdu)
    requires I.AllWellFormed(flights) && |pdu.transport| >= 2 && Octets.Number(pdu.transport[0]) >= 0x80
    requires LowerControl.ParseSegment(pdu.transport, pdu.meta).Ok?
    ensures var (flights', outcome) := I.Step(capacity, flights, LowerControl.ParseSegment(pdu.transport, pdu.meta).value);
      var (r, received) := ReceiveLower(c, node, capacity, flights, true, pdu);
      && r == flights'
      && (outcome.Err? ==> received == Err(outcome.error))
      && (outcome.Ok? && outcome.value.upper.None? ==> received == Ok(None))
      && (outcome.Ok? && outcome.value.upper.Some? && outcome.value.upper.value.UpperControl? ==>
          received == Ok(Some(ControlOf(outcome.value.upper.value.opcode, outcome.value.upper.value.parameters))))
  {
    Octets.OctetBits(pdu.transport[0]);
  }

  // What the network layer does not decrypt leaves the messages in flight alone; a whole control PDU is
  // handed up.
  lemma NetworkCases(c: Crypto, node: Node, capacity: nat, flights: map<u16, I.Flight>, pdu: NetworkPdu)
    requires I.AllWellFormed(flights) && |pdu.obfuscated| == 6
    ensures var (r, found) := (Receive(c, node, capacity, flights, pdu), TryKeys(c, node.keys, pdu, Accepted(node.ivIndex, pdu.ivi)));
      && (found.Err? ==> r == (flights, Err(found.error)))
      && (found.Ok? && found.value.None? ==> r == (flights, Ok(None)))
      && (found.Ok? && found.value.Some? && found.value.value.control ==>
          var t := found.value.value.pdu.transport;
          |t| >= 2 && t[0] <= 10 ==> r == (flights, Ok(Some(ControlOf(t[0], t[1..])))))
  {
    var found := TryKeys(c, node.keys, pdu, Accepted(node.ivIndex, pdu.ivi));
    if found.Ok? && found.value.Some? { ControlCases(c, node, capacity, flights, found.value.value.pdu); }
  }

  // Messages of up to 376 octets are sent, longer ones refused.
  lemma SentLimits(c: Crypto, deviceKey: nat, m: AccessMessage, counter: u32)
    requires Lawful(c)
    ensures Cleartexts(c, deviceKey, m, counter).Ok? <==> |m.Payload()| <= 376
    ensures Cleartexts(c, deviceKey, m, counter) == Err(InsufficientSpace) <==> |m.Payload()| > 376
  {
  }

  // ---------------------------------------------------------------- a message that fits one PDU

  // What the receiver decrypts, given the octets that were sealed and a number with the same low bits.
  lemma OpensOwn(c: Crypto, deviceKey: nat, m: AccessMessage, seqNum: u32, seqNum': u32, split: nat)
    requires Lawful(c) && Low24(seqNum') == Low24(seqNum) && |Sealed(c, deviceKey, m, seqNum)| == split + TRANSMIC_SIZE
    ensures var sealed := Sealed(c, deviceKey, m, seqNum);
      DecryptAccess(c, deviceKey, I.UpperAccess(sealed[..split], sealed[split..], None, m.MetaWith(seqNum')))
      == match Opcode.Split(m.Payload())
         case None => Err(Parse(InvalidPDUFormat))
         case Some((opcode, parameters)) => Ok(m.(opcode := opcode, parameters := parameters))
  {
    var sealed := Sealed(c, deviceKey, m, seqNum);
    assert sealed[..split] + sealed[split..] == sealed;
    DeviceNoncesEqual(Bit32, seqNum, m.src, m.dst, m.ivIndex, Bit32, seqNum', m.src, m.dst, m.ivIndex);
  }

  // A message that another node sealed with a MIC of eight octets opens too, under the nonce that says so.
  lemma OpensLongMic(c: Crypto, deviceKey: nat, m: AccessMessage, seqNum: u32, sealed: bytes)
    requires Lawful(c) && sealed == c.seal(deviceKey, DeviceNonce(Bit64, seqNum, m.src, m.dst, m.ivIndex), 8, m.Payload())
    ensures var n := |m.Payload()|;
      |sealed| == n + 8
      && (DecryptAccess(c, deviceKey, I.UpperAccess(sealed[..n], sealed[n..], None, m.MetaWith(seqNum))) == Ok(m)
          <==> Opcode.Survives(m.opcode))
  {
    var n := |m.Payload()|;
    assert sealed[..n] + sealed[n..] == sealed;
    Opcode.SplitOfEmit(m.opcode, m.parameters);
  }

  // What is never understood: a message under an application key, or one that does not open.
  lemma NotUnderstood(c: Crypto, deviceKey: nat, upper: I.UpperPdu)
    requires upper.UpperAccess?
    requires var (meta, szmic) := (upper.meta, if |upper.transmic| == 8 then Bit64 else Bit32);
      upper.aid.Some? || c.open(deviceKey, DeviceNonce(szmic, meta.seqNum, meta.src, meta.dst, meta.ivIndex),
                                |upper.transmic|, upper.payload + upper.transmic).None?
    ensures DecryptAccess(c, deviceKey, upper) == Err(InvalidPDU)
  {
  }

  lemma UnsegmentedTransport(sealed: bytes, meta: Meta, meta': Meta)
    requires TRANSMIC_SIZE <= |sealed|
    ensures var pdu := OutboundSegmentation.UnsegmentedPdu(sealed, None, meta).(meta := meta');
      var split := |sealed| - TRANSMIC_SIZE;
      && |pdu.transport| == |sealed| + 1 && pdu.transport[0] == 0
      && LowerUnsegmented(pdu) == Ok(I.UpperAccess(sealed[..split], sealed[split..], None, meta'))
  {
    var pdu := OutboundSegmentation.UnsegmentedPdu(sealed, None, meta);
    assert pdu.transport[1..] == sealed;
    ZeroOctet();
  }

  lemma ZeroOctet()
    ensures LowerAccess.ParseAid(0) == None
    ensures (0 as byte) & 0x80 == 0
  {
  }

  lemma EncryptOne(c: Crypto, key: NetworkKey, pdu: CleartextPdu)
    requires Encrypt(c, key, Cleartext(false, pdu)).Ok?
    ensures EncryptAll(c, key, [pdu]) == [Encrypt(c, key, Cleartext(false, pdu)).value]
  {
    var pdus := [pdu];
    assert pdus[1..] == [] && EncryptAll(c, key, pdus[1..]) == [];
  }

  // A message of at most eleven octets is one network PDU, with the number of its nonce.
  lemma OnePdu(c: Crypto, key: NetworkKey, deviceKey: nat, m: AccessMessage, counter: u32)
    requires Lawful(c) && |m.Payload()| <= 11
    ensures var pdu := OutboundSegmentation.UnsegmentedPdu(Sealed(c, deviceKey, m, counter), None, m.MetaWith(counter));
      && Cleartexts(c, deviceKey, m, counter) == Ok([pdu]) && 0 < |pdu.transport| <= TRANSPORT_CAPACITY
      && Encrypt(c, key, Cleartext(false, pdu)).Ok?
      && OutboundPdus(c, key, deviceKey, m, counter) == Ok([Encrypt(c, key, Cleartext(false, pdu)).value])
  {
    var pdu := OutboundSegmentation.UnsegmentedPdu(Sealed(c, deviceKey, m, counter), None, m.MetaWith(counter));
    AlwaysEncrypts(c, key, Cleartext(false, pdu));
    EncryptOne(c, key, pdu);
  }

  // A message that fits one PDU is received as it was sent, with whatever else is in flight, exactly
  // when its opcode survives.
  lemma FullStackRoundTrip(
    c: Crypto, key: NetworkKey, m: AccessMessage, counter: u32, pdu: NetworkPdu,
    node: Node, k: nat, capacity: nat, flights: map<u16, I.Flight>)
    requires Lawful(c) && I.AllWellFormed(flights) && |m.Payload()| <= 11 && m.ttl < 0x80 && m.src < 0x8000
    requires OutboundPdus(c, key, node.deviceKey, m, counter) == Ok([pdu]) && |pdu.obfuscated| == 6
    requires k < |node.keys| && node.keys[k] == key && OpensFirst(c, node.keys, k, pdu, m.ivIndex)
    requires node.ivIndex == m.ivIndex || (node.ivIndex == m.ivIndex + 1 && node.ivIndex > 1)
    ensures Receive(c, node, capacity, flights, pdu) == (flights, Ok(Some(AccessOf(m)))) <==> Opcode.Survives(m.opcode)
  {
    var sealed := Sealed(c, node.deviceKey, m, counter);
    var sent := Cleartext(false, OutboundSegmentation.UnsegmentedPdu(sealed, None, m.MetaWith(counter)));
    OnePdu(c, key, node.deviceKey, m, counter);
    assert Encrypt(c, key, sent) == Ok(pdu) by { assert [Encrypt(c, key, sent).value][0] == [pdu][0]; }
    DecryptOfEncrypt(c, key, sent, pdu);
    AcceptedIsSenders(node.ivIndex, m.ivIndex);
    FoundByKey(c, node.keys, k, pdu, m.ivIndex);
    UnsegmentedReceived(c, node, m, counter, capacity, flights, Carried(sent).pdu);
  }

  lemma UnsegmentedReceived(c: Crypto, node: Node, m: AccessMessage, counter: u32, capacity: nat,
                            flights: map<u16, I.Flight>, pdu: CleartextPdu)
    requires Lawful(c) && I.AllWellFormed(flights) && |m.Payload()| <= 11
    requires var sealed := Sealed(c, node.deviceKey, m, counter);
      pdu == OutboundSegmentation.UnsegmentedPdu(sealed, None, m.MetaWith(counter)).(meta := m.MetaWith(Low24(counter)))
    ensures ReceiveLower(c, node, capacity, flights, false, pdu) == (flights, Ok(Some(AccessOf(m)))) <==> Opcode.Survives(m.opcode)
  {
    var sealed := Sealed(c, node.deviceKey, m, counter);
    UnsegmentedTransport(sealed, m.MetaWith(counter), m.MetaWith(Low24(counter)));
    OpensOwn(c, node.deviceKey, m, counter, Low24(counter), |m.Payload()|);
    Opcode.SplitOfEmit(m.opcode, m.parameters);
  }

  // ---------------------------------------------------------------- a message in segments

  // The ciphertext of the message opens under no nonce but its own.
  ghost predicate OpensUnderOwnNonceOnly(c: Crypto, deviceKey: nat, m: AccessMessage, seqNum: u32) {
    forall nonce | nonce != m.NonceWith(seqNum) ::
      c.open(deviceKey, nonce, TRANSMIC_SIZE, Sealed(c, deviceKey, m, seqNum)).None?
  }

  function Segmented(c: Crypto, deviceKey: nat, m: AccessMessage, seqNum: u32): Segmentation.Message {
    Segmentation.Message(Sealed(c, deviceKey, m, seqNum), None, m.MetaWith(seqNum))
  }

  // Segments arrive with the metadata of the network PDUs that carried them.
  ghost predicate Honest(m: AccessMessage, seqNum: u32, arrivals: seq<Segmentation.Arrival>) {
    forall a | a in arrivals ::
      a.meta == m.MetaWith(Low24(OutboundSegmentation.NumberOf(m.MetaWith(seqNum), Increment(seqNum), false, a.index)))
  }

  // Segment i carries the number i after that of the nonce.
  lemma {:induction false} AfterIncrement(x: u32, i: nat)
    ensures After(Increment(x), i) == After(x, i + 1)
  {
    if i > 0 { AfterIncrement(x, i - 1); }
  }

  lemma SegmentNumber(m: AccessMessage, seqNum: u32, i: nat)
    ensures OutboundSegmentation.NumberOf(m.MetaWith(seqNum), Increment(seqNum), false, i) == After(seqNum, i)
  {
    if i > 0 { AfterIncrement(seqNum, i - 1); }
  }

  lemma LowOfIncrement(x: u32)
    ensures Low24(Increment(x)) == if Low24(x) == 0xFF_FFFF then 0 else Low24(x) + 1
  {
  }

  lemma {:induction false} LowOfAfter(x: u32, i: nat)
    requires i < 0x100_0000
    ensures Low24(After(x, i)) == if Low24(x) + i < 0x100_0000 then Low24(x) + i else Low24(x) + i - 0x100_0000
  {
    if i > 0 {
      LowOfAfter(x, i - 1);
      LowOfIncrement(After(x, i - 1));
    }
  }

  lemma OtherNonce(m: AccessMessage, seqNum: u32, i: nat)
    requires 0 < i < 32
    ensures m.NonceWith(Low24(After(seqNum, i))) != m.NonceWith(seqNum)
  {
    LowOfAfter(seqNum, i);
    DeviceNoncesEqual(Bit32, Low24(After(seqNum, i)), m.src, m.dst, m.ivIndex, Bit32, seqNum, m.src, m.dst, m.ivIndex);
  }

  // Reassembly hands the upper layer the number of the completing segment. Unless that is the first
  // one, the ciphertext does not open.
  lemma SegmentedNeverOpens(c: Crypto, deviceKey: nat, m: AccessMessage, seqNum: u32, i: nat)
    requires Lawful(c) && OpensUnderOwnNonceOnly(c, deviceKey, m, seqNum)
    requires 11 < |m.Payload()| <= 376 && 0 < i < 32
    ensures Segmented(c, deviceKey, m, seqNum).Valid()
    ensures DecryptAccess(c, deviceKey, Delivery.Whole(Delivery.AsContent(Segmented(c, deviceKey, m, seqNum)), m.MetaWith(Low24(After(seqNum, i)))))
         == Err(InvalidPDU)
  {
    var msg := Segmented(c, deviceKey, m, seqNum);
    OtherNonce(m, seqNum, i);
    var split := |msg.payload| - 4;
    assert msg.payload[..split] + msg.payload[split..] == msg.payload;
  }

  // A cipher whose MIC tells one key and nonce from all others.
  function MarkedSeal(marked: nat, own: bytes, key: nat, nonce: bytes, mic: nat, p: bytes): (sealed: bytes)
    ensures |sealed| == |p| + mic
    ensures mic > 0 ==> sealed[|sealed| - 1] == if key == marked && nonce == own then 1 else 0
    ensures sealed[..|p|] == p
  {
    p + seq(mic, _ => if key == marked && nonce == own then 1 as byte else 0)
  }

  function MarkedOpen(marked: nat, own: bytes, key: nat, nonce: bytes, mic: nat, s: bytes): Option<bytes> {
    if |s| >= mic && s == MarkedSeal(marked, own, key, nonce, mic, s[..|s| - mic]) then Some(s[..|s| - mic]) else None
  }

  // Both assumptions on the cipher can be met at once.
  lemma IdealCipherExists(deviceKey: nat, m: AccessMessage, seqNum: u32) returns (c: Crypto)
    ensures Lawful(c) && OpensUnderOwnNonceOnly(c, deviceKey, m, seqNum)
  {
    var own := m.NonceWith(seqNum);
    c := Crypto((key: nat, nonce: bytes, mic: nat, p: bytes) => MarkedSeal(deviceKey, own, key, nonce, mic, p),
                (key: nat, nonce: bytes, mic: nat, s: bytes) => MarkedOpen(deviceKey, own, key, nonce, mic, s),
                (key: nat, data: bytes, i: nat) => 0);
  }

  // Whether some order of arrival of the PDUs of a message makes the receiver's upper layer see it.
  ghost predicate Receivable(c: Crypto, deviceKey: nat, m: AccessMessage, seqNum: u32)
    requires Lawful(c) && |m.Payload()| <= 376
  {
    if |m.Payload()| <= 11 then
      var split := |m.Payload()|;
      var sealed := Sealed(c, deviceKey, m, seqNum);
      DecryptAccess(c, deviceKey, I.UpperAccess(sealed[..split], sealed[split..], None, m.MetaWith(Low24(seqNum)))) == Ok(m)
    else
      exists arrivals: seq<Segmentation.Arrival>, k: nat ::
        && Delivery.From(Segmented(c, deviceKey, m, seqNum), arrivals) && Honest(m, seqNum, arrivals)
        && Delivery.DeliveredAt(Segmented(c, deviceKey, m, seqNum), arrivals, k)
        && Understood(c, deviceKey, m,
             Segmentation.LastOutcome(Delivery.Wire(Segmented(c, deviceKey, m, seqNum), arrivals[..k + 1])))
  }

  ghost predicate Understood(c: Crypto, deviceKey: nat, m: AccessMessage, outcome: I.Outcome)
    requires Delivery.Delivers(outcome)
  {
    outcome.value.upper.value.UpperAccess? && DecryptAccess(c, deviceKey, outcome.value.upper.value) == Ok(m)
  }

  // A message under the device key can be received exactly when it is not segmented and its opcode
  // survives.
  lemma ReceivableIffUnsegmented(c: Crypto, deviceKey: nat, m: AccessMessage, seqNum: u32)
    requires Lawful(c) && |m.Payload()| <= 376 && OpensUnderOwnNonceOnly(c, deviceKey, m, seqNum)
    ensures Receivable(c, deviceKey, m, seqNum) <==> |m.Payload()| <= 11 && Opcode.Survives(m.opcode)
  {
    if |m.Payload()| <= 11 {
      OpensOwn(c, deviceKey, m, seqNum, Low24(seqNum), |m.Payload()|);
      Opcode.SplitOfEmit(m.opcode, m.parameters);
    } else {
      forall arrivals: seq<Segmentation.Arrival>, k: nat |
        && Delivery.From(Segmented(c, deviceKey, m, seqNum), arrivals) && Honest(m, seqNum, arrivals)
        && Delivery.DeliveredAt(Segmented(c, deviceKey, m, seqNum), arrivals, k)
        ensures !Understood(c, deviceKey, m,
             Segmentation.LastOutcome(Delivery.Wire(Segmented(c, deviceKey, m, seqNum), arrivals[..k + 1])))
      {
        // The completing segment is always the last, and never the first.
        Delivery.OnlyTheFinalDelivers(Segmented(c, deviceKey, m, seqNum), arrivals, k);
        var i := arrivals[k].index;
        assert arrivals[k] in arrivals;
        SegmentNumber(m, seqNum, i);
        SegmentedNeverOpens(c, deviceKey, m, seqNum, i);
      }
    }
  }
}
