/** The octets of advertising-bearer PDUs. */
module PbAdvCodec {
  import opened Wrappers
  import opened Mesh
  import opened Octets
  import opened PbAdvSegments
  import opened PbAdvInterface

  const PB_ADV: byte := 0x29
  const PB_ADV_MTU: nat := 64
  const DATA_CAPACITY: nat := 64
  const UUID_SIZE: nat := 16

  // Link opens and closes are only ever received: sending them emits nothing.
  function EmitGeneric(g: GenericPdu): bytes {
    match g
    case TransactionStart(segN, totalLen, fcs, data) => [Octet(segN) << 2] + U16(totalLen % 0x1_0000) + [fcs] + data
    case TransactionContinuation(i, data) => [(Octet(i) << 2) | 0x02] + data
    case TransactionAck => [0x01]
    case LinkAck => [0x07]
    case LinkOpen(_) => []
    case LinkClose(_) => []
  }

  function ParseGeneric(data: bytes): Option<GenericPdu> {
    if data == [] then None
    else if data[0] & 0x03 == 0 then
      if |data| < 5 || |data| - 4 > DATA_CAPACITY then None
      else Some(TransactionStart(Number((data[0] & 0xFC) >> 2), ToU16(data[1], data[2]), data[3], data[4..]))
    else if data[0] & 0x03 == 1 then
      if |data| == 1 && data[0] & 0xFC == 0 then Some(TransactionAck) else None
    else if data[0] & 0x03 == 2 then
      if |data| < 2 || |data| - 1 > DATA_CAPACITY then None
      else Some(TransactionContinuation(Number((data[0] & 0xFC) >> 2), data[1..]))
    else ParseBearerControl(data)
  }

  function ParseBearerControl(data: bytes): Option<GenericPdu>
    requires data != []
  {
    var opcode := (data[0] & 0x3F) >> 2;
    if opcode == 0 && |data| == 1 + UUID_SIZE then Some(LinkOpen(data[1..]))
    else if opcode == 1 && |data| == 1 then Some(LinkAck)
    else if opcode == 2 && |data| == 2 && data[1] <= 2 then Some(LinkClose(data[1]))
    else None
  }

  function Emit(p: AdvPdu): Option<bytes> {
    var body := [PB_ADV] + U32(p.linkId) + [Octet(p.number)] + EmitGeneric(p.pdu);
    if 1 + |body| > PB_ADV_MTU then None else Some([Octet(|body|)] + body)
  }

  function Parse(data: bytes): Option<AdvPdu> {
    if |data| < 8 || data[1] != PB_ADV then None
    else
      match ParseGeneric(data[7..])
      case None => None
      case Some(g) => Some(AdvPdu(ToU32(data[2], data[3], data[4], data[5]), Number(data[6]), g))
  }

  // What a generic PDU must satisfy to survive: six bits for an index, sixteen for the length, and
  // some data; link opens and closes do not.
  predicate Survives(g: GenericPdu) {
    match g
    case TransactionStart(segN, totalLen, _, data) => segN < 64 && totalLen < 0x1_0000 && 0 < |data| <= DATA_CAPACITY
    case TransactionContinuation(i, data) => i < 64 && 0 < |data| <= DATA_CAPACITY
    case TransactionAck => true
    case LinkAck => true
    case _ => false
  }

  lemma IndexBits(b: byte)
    ensures (b << 2) & 0x03 == 0 && ((b << 2) & 0xFC) >> 2 == b & 0x3F
    ensures ((b << 2) | 0x02) & 0x03 == 2 && (((b << 2) | 0x02) & 0xFC) >> 2 == b & 0x3F
    ensures b & 0x3F == b <==> b < 0x40
  {
  }

  lemma SixBits(b: byte)
    ensures b < 0x40 <==> Number(b) < 64
  {
  }

  lemma IndexBack(n: u8)
    ensures Number(Octet(n) & 0x3F) == n <==> n < 64
  {
    IndexBits(Octet(n));
    SixBits(Octet(n));
    SameNumber(Octet(n) & 0x3F, Octet(n));
  }

  // A start, given the octet with its index and the two with its length.
  lemma ParseOfStart(first: byte, len: bytes, fcs: byte, data: bytes)
    requires |len| == 2 && first & 0x03 == 0
    ensures ParseGeneric([first] + len + [fcs] + data)
         == if 0 < |data| <= DATA_CAPACITY then
              Some(TransactionStart(Number((first & 0xFC) >> 2), ToU16(len[0], len[1]), fcs, data))
            else None
  {
    StartParts(first, len, fcs, data);
  }

  lemma ParseOfContinuation(first: byte, data: bytes)
    requires first & 0x03 == 2
    ensures ParseGeneric([first] + data)
         == if 0 < |data| <= DATA_CAPACITY then Some(TransactionContinuation(Number((first & 0xFC) >> 2), data)) else None
  {
    assert ([first] + data)[1..] == data;
  }

  lemma LowHalf(n: nat)
    ensures n % 0x1_0000 == n <==> n < 0x1_0000
  {
  }

  lemma StartRoundTrip(segN: u8, totalLen: nat, fcs: byte, data: bytes)
    ensures var g := TransactionStart(segN, totalLen, fcs, data);
      ParseGeneric(EmitGeneric(g)) == Some(g) <==> Survives(g)
  {
    var len := totalLen % 0x1_0000;
    IndexBits(Octet(segN));
    ParseOfStart(Octet(segN) << 2, U16(len), fcs, data);
    IndexBack(segN);
    U16RoundTrip(len);
    LowHalf(totalLen);
  }

  lemma ContinuationRoundTrip(i: u8, data: bytes)
    ensures var g := TransactionContinuation(i, data);
      ParseGeneric(EmitGeneric(g)) == Some(g) <==> Survives(g)
  {
    IndexBits(Octet(i));
    ParseOfContinuation((Octet(i) << 2) | 0x02, data);
    IndexBack(i);
  }

  lemma GenericRoundTrip(g: GenericPdu)
    ensures ParseGeneric(EmitGeneric(g)) == Some(g) <==> Survives(g)
  {
    match g
    case TransactionStart(segN, totalLen, fcs, data) => StartRoundTrip(segN, totalLen, fcs, data);
    case TransactionContinuation(i, data) => ContinuationRoundTrip(i, data);
    case _ =>
  }

  lemma StartParts(first: byte, len: bytes, fcs: byte, data: bytes)
    requires |len| == 2
    ensures var e := [first] + len + [fcs] + data;
      && |e| == 4 + |data| && e[0] == first && e[1] == len[0] && e[2] == len[1] && e[3] == fcs && e[4..] == data
  {
  }

  lemma HeaderParts(len: byte, link: bytes, number: byte, g: bytes)
    requires |link| == 4
    ensures var e := [len] + ([PB_ADV] + link + [number] + g);
      && |e| == 7 + |g| && e[1] == PB_ADV && e[2..6] == link && e[6] == number && e[7..] == g
      && e[2] == link[0] && e[3] == link[1] && e[4] == link[2] && e[5] == link[3]
  {
  }

  // A PDU that fits the bearer is read back exactly when its generic part survives.
  lemma RoundTrip(p: AdvPdu, data: bytes)
    requires Emit(p) == Some(data)
    ensures Parse(data) == Some(p) <==> Survives(p.pdu)
  {
    var g := EmitGeneric(p.pdu);
    HeaderParts(data[0], U32(p.linkId), Octet(p.number), g);
    U32RoundTrip(p.linkId);
    GenericRoundTrip(p.pdu);
  }

  // Every segment of a provisioning PDU fits the bearer, in 31 octets, and is read back as it was.
  lemma PieceOnTheAir(o: Outgoing, i: nat)
    requires 0 < |o.pdu| <= PDU_CAPACITY && i < ChunkCount(o.pdu)
    ensures Emit(o.Pieces()[i]).Some? && |Emit(o.Pieces()[i]).value| <= 31
    ensures Parse(Emit(o.Pieces()[i]).value) == Some(o.Pieces()[i])
  {
    ChunkCountBound(o.pdu);
    var p := o.Pieces()[i];
    assert Survives(p.pdu);
    RoundTrip(p, Emit(p).value);
  }

  // ---------------------------------------------------------------- link control, as it is received

  lemma ControlBits(b: byte)
    ensures b & 0x3F == 0x03 <==> b & 0x03 == 3 && (b & 0x3F) >> 2 == 0
    ensures b & 0x3F == 0x07 <==> b & 0x03 == 3 && (b & 0x3F) >> 2 == 1
    ensures b & 0x3F == 0x0B <==> b & 0x03 == 3 && (b & 0x3F) >> 2 == 2
    ensures b & 0x03 in {0, 1, 2, 3}
  {
  }

  // The octets that are read as link control, of which the top two bits of the first are ignored: an
  // open with the sixteen octets of a UUID, an acknowledgement, and a close with one of three reasons.
  lemma LinkControl(d: bytes)
    ensures forall u :: ParseGeneric(d) == Some(LinkOpen(u)) <==> |d| == 17 && d[0] & 0x3F == 0x03 && d[1..] == u
    ensures ParseGeneric(d) == Some(LinkAck) <==> |d| == 1 && d[0] & 0x3F == 0x07
    ensures forall r :: ParseGeneric(d) == Some(LinkClose(r)) <==> |d| == 2 && d[0] & 0x3F == 0x0B && d[1] == r && r <= 2
  {
    if d != [] { ControlBits(d[0]); }
  }

  // A transaction's segments, as they are received.
  lemma TransactionOctets(d: bytes)
    ensures forall segN, len, fcs, data :: ParseGeneric(d) == Some(TransactionStart(segN, len, fcs, data)) <==>
      && 5 <= |d| <= 68 && d[0] & 0x03 == 0 && segN == Number(d[0] >> 2) && len == Number(d[1]) * 0x100 + Number(d[2])
      && fcs == d[3] && data == d[4..]
    ensures forall i, data :: ParseGeneric(d) == Some(TransactionContinuation(i, data)) <==>
      2 <= |d| <= 65 && d[0] & 0x03 == 2 && i == Number(d[0] >> 2) && data == d[1..]
    ensures ParseGeneric(d) == Some(TransactionAck) <==> d == [0x01]
  {
    if d != [] {
      ControlBits(d[0]);
      IndexOf(d[0]);
    }
  }

  lemma IndexOf(b: byte)
    ensures (b & 0xFC) >> 2 == b >> 2
    ensures b == 0x01 <==> b & 0x03 == 1 && b & 0xFC == 0
  {
  }

  // The octets of an advertising PDU, after its length: type 0x29, link, transaction number, and the rest.
  lemma AdvertisingOctets(d: bytes, p: AdvPdu)
    ensures Parse(d) == Some(p) <==>
      && |d| >= 8 && d[1] == 0x29 && ParseGeneric(d[7..]) == Some(p.pdu)
      && p.linkId == Number(d[2]) * 0x100_0000 + Number(d[3]) * 0x1_0000 + Number(d[4]) * 0x100 + Number(d[5])
      && p.number == Number(d[6])
  {
  }

  // What is sent: the number of octets that follow, type 0x29, link, number and the generic PDU, if that
  // makes at most sixty-four octets.
  lemma EmittedOctets(p: AdvPdu)
    ensures Emit(p).Some? <==> 7 + |EmitGeneric(p.pdu)| <= 64
    ensures Emit(p).Some? ==> var d := Emit(p).value;
      && |d| == 7 + |EmitGeneric(p.pdu)| && Number(d[0]) == |d| - 1 && d[1] == 0x29
      && ToU32(d[2], d[3], d[4], d[5]) == p.linkId && Number(d[6]) == p.number && d[7..] == EmitGeneric(p.pdu)
  {
    if Emit(p).Some? {
      HeaderParts(Emit(p).value[0], U32(p.linkId), Octet(p.number), EmitGeneric(p.pdu));
      U32RoundTrip(p.linkId);
    }
  }

  lemma StartFields(segN: u8, totalLen: u16, first: byte, len: bytes, fcs: byte, data: bytes)
    requires segN < 64 && first == Octet(segN) << 2 && len == U16(totalLen)
    ensures var d := [first] + len + [fcs] + data;
      && |d| == 4 + |data| && Number(d[0]) == 4 * segN && Number(d[1]) * 0x100 + Number(d[2]) == totalLen
      && d[3] == fcs && d[4..] == data
  {
    StartParts(first, len, fcs, data);
    FourTimes(Octet(segN));
    U16RoundTrip(totalLen);
  }

  // The segments and acknowledgements that are sent.
  lemma EmittedStart(segN: u8, totalLen: nat, fcs: byte, data: bytes)
    requires segN < 64 && totalLen < 0x1_0000
    ensures var d := EmitGeneric(TransactionStart(segN, totalLen, fcs, data));
      && |d| == 4 + |data| && Number(d[0]) == 4 * segN && Number(d[1]) * 0x100 + Number(d[2]) == totalLen
      && d[3] == fcs && d[4..] == data
  {
    StartFields(segN, totalLen, Octet(segN) << 2, U16(totalLen), fcs, data);
    LowHalf(totalLen);
  }

  lemma EmittedContinuation(i: u8, data: bytes)
    requires i < 64
    ensures var d := EmitGeneric(TransactionContinuation(i, data));
      |d| == 1 + |data| && Number(d[0]) == 4 * i + 2 && d[1..] == data
  {
    FourTimes(Octet(i));
  }

  lemma EmittedAcks()
    ensures EmitGeneric(TransactionAck) == [0x01] && EmitGeneric(LinkAck) == [0x07]
  {
  }

  lemma FourTimes(b: byte)
    requires Number(b) < 64
    ensures Number(b << 2) == 4 * Number(b) && Number((b << 2) | 0x02) == 4 * Number(b) + 2
  {
    SixBits(b);
    Shifted(b);
  }

  lemma Shifted(b: byte)
    requires b < 0x40
    ensures Number(b << 2) == 4 * Number(b) && Number((b << 2) | 0x02) == 4 * Number(b) + 2
  {
  }

  // What opens a link on the air: a closed device that receives the octets of a link open for its own
  // UUID takes over link and number, and acknowledges.
  lemma OctetsOpenLink<T>(s: Iface, d: bytes, uuid: bytes, parse: bytes -> Option<T>)
    requires s.Valid() && s.linkId.None? && |d| == 24 && d[1] == 0x29 && d[7] == 0x03 && d[8..] == uuid
    ensures Parse(d).Some?
    ensures var (link, number) := (ToU32(d[2], d[3], d[4], d[5]), Number(d[6]));
      Receive(s, Parse(d).value, uuid, parse)
      == Reaction(s.(linkId := Some(link), inbound := Some(number)), [AdvPdu(link, 0, LinkAck)], Quiet)
  {
    LinkControl(d[7..]);
    assert d[7..][1..] == uuid;
    ThreeIsOpen(d[7]);
  }

  lemma ThreeIsOpen(b: byte)
    requires b == 0x03
    ensures b & 0x3F == 0x03
  {
  }

  // And what closes it.
  lemma OctetsCloseLink<T>(s: Iface, d: bytes, uuid: bytes, parse: bytes -> Option<T>)
    requires s.Valid() && |d| == 9 && d[1] == 0x29 && d[7] == 0x0B && d[8] <= 2
    ensures Parse(d).Some?
    ensures Receive(s, Parse(d).value, uuid, parse) == Reaction(s.(linkId := None, inbound := None), [], Quiet)
  {
    LinkControl(d[7..]);
    ElevenIsClose(d[7]);
  }

  lemma ElevenIsClose(b: byte)
    requires b == 0x0B
    ensures b & 0x3F == 0x0B
  {
  }
}
