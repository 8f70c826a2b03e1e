/** Transaction numbers over whole runs of the advertising interface, whatever arrives. */
module Transactions {
  import opened Wrappers
  import opened Mesh
  import opened PbAdvSegments
  import opened PbAdvInterface
  import Leftover

  datatype Event = Arrives(pdu: AdvPdu) | Sends(payload: bytes)

  predicate Sendable(e: Event) { e.Sends? ==> |e.payload| <= PDU_CAPACITY }

  function Next<T>(s: Iface, e: Event, uuid: bytes, parse: bytes -> Option<T>): (s': Iface)
    requires s.Valid() && Sendable(e)
    ensures s'.Valid()
  {
    match e
    case Arrives(pdu) => Receive(s, pdu, uuid, parse).state
    case Sends(payload) => Transmit(s, payload).state
  }

  // The numbers of the transactions whose PDU is passed up in a run.
  function PassedUp<T>(s: Iface, events: seq<Event>, uuid: bytes, parse: bytes -> Option<T>): seq<u8>
    requires s.Valid() && forall e | e in events :: Sendable(e)
    decreases |events|
  {
    if events == [] then []
    else PassedBy(s, events[0], uuid, parse) + PassedUp(Next(s, events[0], uuid, parse), events[1..], uuid, parse)
  }

  function PassedBy<T>(s: Iface, e: Event, uuid: bytes, parse: bytes -> Option<T>): seq<u8>
    requires s.Valid()
  {
    if e.Arrives? && Receive(s, e.pdu, uuid, parse).reception.Up? then [e.pdu.number] else []
  }

  // Strictly increasing numbers, none below lo.
  predicate IncreasingFrom(lo: nat, s: seq<u8>) {
    && (forall i | 0 <= i < |s| :: lo <= s[i])
    && forall i, j | 0 <= i < j < |s| :: s[i] < s[j]
  }

  lemma Prepend(lo: nat, x: u8, lo': nat, s: seq<u8>)
    requires lo <= x < lo' && IncreasingFrom(lo', s)
    ensures IncreasingFrom(lo, [x] + s)
  {
  }

  // A current transaction is newer than the last one acknowledged.
  predicate Ahead(s: Iface) { s.inbound.Some? && s.acked.Some? ==> s.inbound.value > s.acked.value }

  // A link opened with a number that is not newer than the last acknowledged one.
  predicate StaleOpen(s: Iface, e: Event, uuid: bytes) {
    e.Arrives? && e.pdu.pdu == LinkOpen(uuid) && s.linkId.None? && s.acked.Some? && e.pdu.number <= s.acked.value
  }

  function Above(acked: Option<u8>): nat { if acked.Some? then acked.value + 1 else 0 }

  // The acknowledged number never decreases: not in any state, not on any event.
  lemma AckedNeverDecreases<T>(s: Iface, e: Event, uuid: bytes, parse: bytes -> Option<T>)
    requires s.Valid() && Sendable(e)
    ensures Above(s.acked) <= Above(Next(s, e, uuid, parse).acked)
  {
  }

  // The one event that puts the current transaction behind the acknowledged ones is a stale open.
  lemma AheadIsKept<T>(s: Iface, e: Event, uuid: bytes, parse: bytes -> Option<T>)
    requires s.Valid() && Sendable(e) && Ahead(s)
    ensures Ahead(Next(s, e, uuid, parse)) <==> !StaleOpen(s, e, uuid)
  {
  }

  // Passing a PDU up acknowledges its transaction, which was not acknowledged before.
  lemma PassedIsAcked<T>(s: Iface, pdu: AdvPdu, uuid: bytes, parse: bytes -> Option<T>)
    requires s.Valid() && Ahead(s) && Receive(s, pdu, uuid, parse).reception.Up?
    ensures Above(s.acked) <= pdu.number
    ensures Receive(s, pdu, uuid, parse).state.acked == Some(pdu.number)
    ensures s.linkId.Some? && AdvPdu(s.linkId.value, pdu.number, TransactionAck) in Receive(s, pdu, uuid, parse).sent
  {
  }

  // What every PDU but a segment brings about, in every state. An open for another device is ignored,
  // one for this device opens the link, repeats its acknowledgement, or is refused when another link is
  // open; closing forgets link and current transaction; an acknowledgement with the number of the PDU
  // that is kept lets it go.
  lemma ControlReceived<T>(s: Iface, pdu: AdvPdu, uuid: bytes, parse: bytes -> Option<T>)
    requires s.Valid()
    ensures var r := Receive(s, pdu, uuid, parse);
      match pdu.pdu
      case LinkOpen(u) =>
        && r.state == (if u == uuid && s.linkId.None? then s.(linkId := Some(pdu.linkId), inbound := Some(pdu.number)) else s)
        && r.sent == (if u == uuid && s.linkId in {None, Some(pdu.linkId)} then [AdvPdu(pdu.linkId, 0, LinkAck)] else [])
        && r.reception == (if u == uuid && s.linkId !in {None, Some(pdu.linkId)} then InvalidLink else Quiet)
      case LinkAck => r == Reaction(s, [], Quiet)
      case LinkClose(_) => r == Reaction(s.(linkId := None, inbound := None), [], Quiet)
      case TransactionAck =>
        && r.sent == [] && r.reception == Quiet
        && r.state == (if s.outbound.Some? && s.outbound.value.number == pdu.number then s.(outbound := None) else s)
      case _ => true
  {
  }

  // What a segment of the current transaction, or of the next one, brings about: it is collected, and
  // when it completes a PDU that decodes, that is passed up and acknowledged, unless the transaction is
  // not newer than the last one acknowledged.
  lemma SegmentCollected<T>(s: Iface, pdu: AdvPdu, uuid: bytes, parse: bytes -> Option<T>)
    requires s.Valid() && (pdu.pdu.TransactionStart? || pdu.pdu.TransactionContinuation?)
    requires s.inbound == Some(pdu.number) || (s.inbound.None? && s.acked.Some? && s.acked.value < pdu.number)
    ensures var (r, (buffer, outcome)) := (Receive(s, pdu, uuid, parse), Collect(s.buffer, pdu.pdu, parse));
      var now := s.(inbound := Some(pdu.number), buffer := buffer);
      match outcome
      case Nothing => r == Reaction(now, [], Quiet)
      case Panicked => r == Reaction(now, [], Crashed)
      case Passed(t) =>
        if s.acked.Some? && s.acked.value >= pdu.number then r == Reaction(now, [], Up(t))
        else if s.linkId.None? then r == Reaction(now, [], InvalidLink)
        else r == Reaction(now.(inbound := None, acked := Some(pdu.number)),
                           [AdvPdu(s.linkId.value, pdu.number, TransactionAck)], Up(t))
  {
  }

  ghost predicate NoStaleOpen<T>(s: Iface, events: seq<Event>, uuid: bytes, parse: bytes -> Option<T>)
    requires s.Valid() && forall e | e in events :: Sendable(e)
    decreases |events|
  {
    events != [] ==> !StaleOpen(s, events[0], uuid) && NoStaleOpen(Next(s, events[0], uuid, parse), events[1..], uuid, parse)
  }

  // Without a stale open, however many links are opened and closed, the transactions passed up have
  // strictly increasing numbers: none is passed up twice.
  lemma {:induction false} PassedUpIncreases<T>(s: Iface, events: seq<Event>, uuid: bytes, parse: bytes -> Option<T>)
    requires s.Valid() && Ahead(s) && forall e | e in events :: Sendable(e)
    requires NoStaleOpen(s, events, uuid, parse)
    ensures IncreasingFrom(Above(s.acked), PassedUp(s, events, uuid, parse))
    decreases |events|
  {
    if events != [] {
      var e := events[0];
      AheadIsKept(s, e, uuid, parse);
      AckedNeverDecreases(s, e, uuid, parse);
      var s' := Next(s, e, uuid, parse);
      PassedUpIncreases(s', events[1..], uuid, parse);
      if PassedBy(s, e, uuid, parse) != [] {
        PassedIsAcked(s, e.pdu, uuid, parse);
        Prepend(Above(s.acked), e.pdu.number, Above(s'.acked), PassedUp(s', events[1..], uuid, parse));
      }
    }
  }

  // Closing a link keeps the acknowledged number, so opening the next one can be stale; then a
  // PDU that fits one segment is passed up again each time it arrives, and never acknowledged.
  lemma StaleTransactionRepeats<T>(s: Iface, number: u8, data: bytes, fcs: byte, uuid: bytes, parse: bytes -> Option<T>)
    requires s.Valid() && s.inbound == Some(number) && parse(data).Some?
    ensures var pdu := AdvPdu(0, number, TransactionStart(0, |data|, fcs, data));
      Receive(s, pdu, uuid, parse) == Reaction(s, [], Up(parse(data).value)) <==> !Ahead(s)
  {
  }

  // A number that is not newer is acknowledged without being passed up, so a peer whose numbers
  // wrap around loses every PDU from there on, and believes that it was delivered.
  lemma OlderNumberIsLost<T>(s: Iface, pdu: AdvPdu, uuid: bytes, parse: bytes -> Option<T>)
    requires s.Valid() && s.linkId.Some? && s.acked.Some? && s.inbound != Some(pdu.number)
    requires pdu.pdu.TransactionStart? || pdu.pdu.TransactionContinuation?
    ensures var r := Receive(s, pdu, uuid, parse);
      pdu.number <= s.acked.value <==>
        r.state == s && r.reception == Quiet && AdvPdu(s.linkId.value, pdu.number, TransactionAck) in r.sent
  {
  }

  // Nothing empties the buffer but a message decoded from it, not even closing the link. Until
  // then its first chunk stays, and what is decoded starts with it, whichever message it came from.
  lemma FirstChunkStays<T>(s: Iface, x: bytes, pdu: AdvPdu, uuid: bytes, parse: bytes -> Option<T>)
    requires s.Valid() && s.buffer.Some? && s.buffer.value != [] && s.buffer.value[0] == Some(x)
    requires !(pdu.pdu.TransactionStart? && pdu.pdu.segN == 0)
    ensures var r := Receive(s, pdu, uuid, parse);
      || (r.state.buffer.Some? && r.state.buffer.value != [] && r.state.buffer.value[0] == Some(x) && !r.reception.Up?)
      || exists y :: x <= y && parse(y).Some? && r.reception in {InvalidLink, Up(parse(y).value)}
  {
    var s' := ShouldProcess(s, pdu.number).1;
    if pdu.pdu.TransactionContinuation? && pdu.pdu.segmentIndex < |s.buffer.value| {
      var (slots, i) := (s.buffer.value, pdu.pdu.segmentIndex);
      var filled := if slots[i].None? then slots[i := Some(pdu.pdu.data)] else slots;
      Leftover.FirstChunkLeads(filled, x);
      assert parse(Join(filled)).Some? || parse(Join(filled)).None?;
    }
  }
}
