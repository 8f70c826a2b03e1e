/** The provisioning side of the advertising bearer: links, transactions and acknowledgements. */
module PbAdvInterface {
  import opened Wrappers
  import opened Mesh
  import opened PbAdvSegments

  datatype AdvPdu = AdvPdu(linkId: u32, number: u8, pdu: GenericPdu)

  // A PDU kept for retransmission until its transaction is acknowledged.
  datatype Outgoing = Outgoing(linkId: u32, number: u8, pdu: bytes) {
    function Pieces(): (r: seq<AdvPdu>)
      requires |pdu| <= PDU_CAPACITY
      ensures |r| == ChunkCount(pdu)
      ensures forall i | 0 <= i < |r| :: r[i] == AdvPdu(linkId, number, Piece(pdu, i))
    {
      seq(ChunkCount(pdu), i requires 0 <= i < ChunkCount(pdu) => AdvPdu(linkId, number, Piece(pdu, i)))
    }
  }

  // ---------------------------------------------------------------- specification, on values

  datatype Iface = Iface(
    linkId: Option<u32>, inbound: Option<u8>, acked: Option<u8>,
    buffer: Option<Slots>, outbound: Option<Outgoing>, outboundNumber: u8)
  {
    predicate Valid() { outbound.Some? ==> |outbound.value.pdu| <= PDU_CAPACITY }
  }

  // What `receive` returns: a PDU for the layer above, nothing, an error, or a Rust panic.
  datatype Reception<+T> = Up(pdu: T) | Quiet | InvalidLink | Crashed

  datatype Reaction<+T> = Reaction(state: Iface, sent: seq<AdvPdu>, reception: Reception<T>)

  function Resent(s: Iface): seq<AdvPdu>
    requires s.Valid()
  {
    if s.outbound.Some? then s.outbound.value.Pieces() else []
  }

  // Whether the transaction is the one being collected, making it so when none is.
  function ShouldProcess(s: Iface, number: u8): (bool, Iface) {
    if s.inbound == Some(number) then (true, s)
    else if s.inbound.None? && s.acked.Some? && s.acked.value < number then (true, s.(inbound := Some(number)))
    else (false, s)
  }

  // Acknowledges the transaction that has just been passed up, unless it is not above the last one.
  function AckTransaction<T>(s: Iface, up: T): Reaction<T> {
    if s.inbound.Some? && (s.acked.None? || s.inbound.value > s.acked.value) then
      if s.linkId.None? then Reaction(s, [], InvalidLink)
      else Reaction(s.(acked := s.inbound, inbound := None),
                    [AdvPdu(s.linkId.value, s.inbound.value, TransactionAck)], Up(up))
    else Reaction(s, [], Up(up))
  }

  // A segment of the transaction being collected.
  function Gather<T>(s: Iface, pdu: GenericPdu, parse: bytes -> Option<T>): Reaction<T> {
    var (buffer, outcome) := Collect(s.buffer, pdu, parse);
    var s' := s.(buffer := buffer);
    match outcome {
      case Passed(t) => AckTransaction(s', t)
      case Nothing => Reaction(s', [], Quiet)
      case Panicked => Reaction(s', [], Crashed)
    }
  }

  // A segment of any other transaction: acknowledged again when it is not above the last one, and
  // the PDU that awaits its own acknowledgement is sent again.
  function Refuse<T>(s: Iface, number: u8): Reaction<T>
    requires s.Valid()
  {
    var again := s.acked.Some? && s.acked.value >= number;
    if again && s.linkId.None? then Reaction(s, [], InvalidLink)
    else Reaction(s, AckAgain(s, number) + Resent(s), Quiet)
  }

  function AckAgain(s: Iface, number: u8): seq<AdvPdu> {
    if s.acked.Some? && s.acked.value >= number && s.linkId.Some? then [AdvPdu(s.linkId.value, number, TransactionAck)]
    else []
  }

  function ReceiveTransaction<T>(s: Iface, pdu: AdvPdu, parse: bytes -> Option<T>): Reaction<T>
    requires s.Valid()
  {
    var (process, s') := ShouldProcess(s, pdu.number);
    if process then Gather(s', pdu.pdu, parse) else Refuse(s', pdu.number)
  }

  function Receive<T>(s: Iface, pdu: AdvPdu, deviceUuid: bytes, parse: bytes -> Option<T>): (r: Reaction<T>)
    requires s.Valid()
    ensures r.state.Valid()
  {
    match pdu.pdu
    case LinkOpen(uuid) =>
      if uuid != deviceUuid then Reaction(s, [], Quiet)
      else if s.linkId.None? then
        Reaction(s.(inbound := Some(pdu.number), linkId := Some(pdu.linkId)), [AdvPdu(pdu.linkId, 0, LinkAck)], Quiet)
      else if s.linkId.value == pdu.linkId then Reaction(s, [AdvPdu(pdu.linkId, 0, LinkAck)], Quiet)
      else Reaction(s, [], InvalidLink)
    case LinkAck => Reaction(s, [], Quiet)
    case LinkClose(_) => Reaction(s.(linkId := None, inbound := None), [], Quiet)
    case TransactionStart(_, _, _, _) => ReceiveTransaction(s, pdu, parse)
    case TransactionContinuation(_, _) => ReceiveTransaction(s, pdu, parse)
    case TransactionAck =>
      Reaction(if s.outbound.Some? && s.outbound.value.number == pdu.number then s.(outbound := None) else s, [], Quiet)
  }

  function NextNumber(n: u8): u8 { if n == 0xFF then 0 else n + 1 }

  // Sending a provisioning PDU: the number is used up even when there is no link.
  function Transmit(s: Iface, pdu: bytes): (r: Reaction<()>)
    requires s.Valid() && |pdu| <= PDU_CAPACITY
    ensures r.state.Valid()
  {
    var s1 := s.(outboundNumber := NextNumber(s.outboundNumber));
    if s.linkId.None? then Reaction(s1, [], InvalidLink)
    else
      var o := Outgoing(s.linkId.value, s.outboundNumber, pdu);
      Reaction(s1.(outbound := Some(o)), o.Pieces(), Quiet)
  }

  lemma Associative(a: seq<AdvPdu>, b: seq<AdvPdu>, c: seq<AdvPdu>)
    ensures a + b + c == a + (b + c)
  {
  }

  // ---------------------------------------------------------------- the interface, updated in place

  datatype OutboundPdu = OutboundPdu(linkId: u32, number: u8, segments: OutboundSegments)

  class AdvertisingInterface<T> {
    const segmentation: Segmentation
    const parse: bytes -> Option<T>
    var linkId: Option<u32>
    var inbound: Option<u8>
    var acked: Option<u8>
    var outbound: Option<OutboundPdu>
    var outboundNumber: u8
    var transmitted: seq<AdvPdu>

    ghost function Parts(): set<object?>
      reads this, segmentation
    {
      {segmentation, segmentation.inboundSegments} +
      (if outbound.Some? then {outbound.value.segments} else {})
    }

    ghost predicate Valid()
      reads this, Parts()
    {
      outbound.Some? ==> outbound.value.segments.Valid()
    }

    ghost function View(): (s: Iface)
      reads this, Parts()
      requires Valid()
      ensures s.Valid()
    {
      Iface(linkId, inbound, acked, segmentation.Buffer(),
            if outbound.None? then None
            else Some(Outgoing(outbound.value.linkId, outbound.value.number, outbound.value.segments.pdu)),
            outboundNumber)
    }

    // The interface has reacted as specified, with this trace before the reaction.
    ghost predicate Did<U>(r: Reaction<U>, before: seq<AdvPdu>, reception: Reception<U>)
      reads this, Parts()
      requires Valid()
    {
      View() == r.state && transmitted == before + r.sent && reception == r.reception
    }

    constructor (parse: bytes -> Option<T>)
      ensures Valid() && View() == Iface(None, None, None, None, None, 0x80) && transmitted == []
      ensures this.parse == parse && fresh(segmentation)
    {
      this.parse := parse;
      segmentation := new Segmentation();
      linkId, inbound, acked, outbound := None, None, None, None;
      outboundNumber, transmitted := 0x80, [];
    }

    method TransmitAdvertisingPdu(pdu: AdvPdu)
      modifies this`transmitted
      ensures transmitted == old(transmitted) + [pdu]
    {
      transmitted := transmitted + [pdu];
    }

    // Sends the segments of a PDU one after the other.
    method TransmitSegments(o: OutboundPdu)
      requires o.segments.Valid()
      modifies this`transmitted
      ensures transmitted == old(transmitted) + Outgoing(o.linkId, o.number, o.segments.pdu).Pieces()
    {
      ghost var sent: seq<AdvPdu> := [];
      var iter := new OutboundSegmentsIter(o.segments);
      var item := iter.Next();
      while item.Some?
        invariant iter.segments == o.segments && fresh(iter) && iter.cur == |sent| + 1
        invariant |sent| <= ChunkCount(o.segments.pdu)
        invariant item == if |sent| < ChunkCount(o.segments.pdu) then Some(Piece(o.segments.pdu, |sent|)) else None
        invariant forall i | 0 <= i < |sent| :: sent[i] == AdvPdu(o.linkId, o.number, Piece(o.segments.pdu, i))
        invariant transmitted == old(transmitted) + sent
        decreases ChunkCount(o.segments.pdu) - |sent|
      {
        sent := sent + [AdvPdu(o.linkId, o.number, item.value)];
        TransmitAdvertisingPdu(AdvPdu(o.linkId, o.number, item.value));
        item := iter.Next();
      }
      assert sent == Outgoing(o.linkId, o.number, o.segments.pdu).Pieces();
    }

    // Sends the PDU that awaits its acknowledgement again, if there is one.
    method Retransmit()
      requires Valid()
      modifies this`transmitted
      ensures transmitted == old(transmitted) + Resent(View())
    {
      if outbound.Some? {
        TransmitSegments(outbound.value);
      }
    }

    method ShouldProcessTransaction(number: u8) returns (process: bool)
      requires Valid()
      modifies this`inbound
      ensures Valid() && (process, View()) == ShouldProcess(old(View()), number)
    {
      match (inbound, acked) {
        case (Some(current), _) => return current == number;
        case (None, Some(last)) =>
          if last < number {
            inbound := Some(number);
            return true;
          }
          return false;
        case (None, None) => return false;
      }
    }

    method AckCurrentTransaction(up: T) returns (reception: Reception<T>)
      requires Valid()
      modifies this`transmitted, this`acked, this`inbound
      ensures Valid() && Did(AckTransaction(old(View()), up), old(transmitted), reception)
    {
      if inbound.Some? && (acked.None? || inbound.value > acked.value) {
        if linkId.None? { return InvalidLink; }
        TransmitAdvertisingPdu(AdvPdu(linkId.value, inbound.value, TransactionAck));
        acked := inbound;
        inbound := None;
      }
      return Up(up);
    }

    method GatherSegment(pdu: GenericPdu) returns (reception: Reception<T>)
      requires Valid()
      modifies this`transmitted, this`acked, this`inbound, segmentation, segmentation.inboundSegments
      ensures Valid() && Did(Gather(old(View()), pdu, parse), old(transmitted), reception)
    {
      var outcome := segmentation.ProcessInbound(pdu, parse);
      match outcome {
        case Passed(t) => reception := AckCurrentTransaction(t);
        case Nothing => return Quiet;
        case Panicked => return Crashed;
      }
    }

    method TryAckTransactionAgain(number: u8) returns (ok: bool)
      requires Valid()
      modifies this`transmitted
      ensures ok <==> !(acked.Some? && acked.value >= number && linkId.None?)
      ensures transmitted == old(transmitted) + AckAgain(View(), number)
    {
      if acked.Some? && acked.value >= number {
        if linkId.None? { return false; }
        TransmitAdvertisingPdu(AdvPdu(linkId.value, number, TransactionAck));
      }
      return true;
    }

    method RefuseSegment(number: u8) returns (reception: Reception<T>)
      requires Valid()
      modifies this`transmitted
      ensures Valid() && Did(Refuse(old(View()), number), old(transmitted), reception)
    {
      ghost var s := View();
      var ok := TryAckTransactionAgain(number);
      if !ok { return InvalidLink; }
      assert View() == s;
      Retransmit();
      Associative(old(transmitted), AckAgain(s, number), Resent(s));
      return Quiet;
    }

    method ReceiveSegment(pdu: AdvPdu) returns (reception: Reception<T>)
      requires Valid()
      modifies this, segmentation, segmentation.inboundSegments
      ensures Valid() && Did(ReceiveTransaction(old(View()), pdu, parse), old(transmitted), reception)
    {
      var process := ShouldProcessTransaction(pdu.number);
      if process {
        reception := GatherSegment(pdu.pdu);
      } else {
        reception := RefuseSegment(pdu.number);
      }
    }

    // receive_pb_adv, for a PDU that parses.
    method ReceivePbAdv(pdu: AdvPdu, deviceUuid: bytes) returns (reception: Reception<T>)
      requires Valid()
      modifies this, segmentation, segmentation.inboundSegments
      ensures Valid() && Did(Receive(old(View()), pdu, deviceUuid, parse), old(transmitted), reception)
    {
      match pdu.pdu {
        case LinkOpen(uuid) =>
          if uuid != deviceUuid { return Quiet; }
          if linkId.None? {
            inbound := Some(pdu.number);
            linkId := Some(pdu.linkId);
          } else if linkId.value != pdu.linkId {
            return InvalidLink;
          }
          TransmitAdvertisingPdu(AdvPdu(pdu.linkId, 0, LinkAck));
          return Quiet;
        case LinkAck => return Quiet;
        case LinkClose(_) =>
          linkId := None;
          inbound := None;
          return Quiet;
        case TransactionStart(_, _, _, _) => reception := ReceiveSegment(pdu);
        case TransactionContinuation(_, _) => reception := ReceiveSegment(pdu);
        case TransactionAck =>
          if outbound.Some? && outbound.value.number == pdu.number {
            outbound := None;
          }
          return Quiet;
      }
    }

    method TransmitProvisioningPdu(pdu: bytes) returns (reception: Reception<()>)
      requires Valid() && |pdu| <= PDU_CAPACITY
      modifies this
      ensures Valid() && Did(Transmit(old(View()), pdu), old(transmitted), reception)
    {
      var segments := new OutboundSegments(pdu);
      var number := outboundNumber;
      outboundNumber := NextNumber(number);
      if linkId.None? { return InvalidLink; }
      outbound := Some(OutboundPdu(linkId.value, number, segments));
      TransmitSegments(outbound.value);
      return Quiet;
    }
  }
}
