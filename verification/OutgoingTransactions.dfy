/** What the advertising interface sends over whole runs: the numbers of its transactions, and how long
    a PDU is sent again. */
module OutgoingTransactions {
  import opened Wrappers
  import opened Mesh
  import opened PbAdvSegments
  import opened PbAdvInterface
  import opened Transactions

  predicate AllSendable(events: seq<Event>) { forall i | 0 <= i < |events| :: Transactions.Sendable(events[i]) }

  function After<T>(s: Iface, events: seq<Event>, uuid: bytes, parse: bytes -> Option<T>): (s': Iface)
    requires s.Valid() && AllSendable(events)
    ensures s'.Valid()
  {
    if events == [] then s else Next(After(s, Front(events), uuid, parse), Last(events), uuid, parse)
  }

  function Sends(events: seq<Event>): nat {
    if events == [] then 0 else Sends(Front(events)) + if Last(events).Sends? then 1 else 0
  }

  lemma NumberMoves<T>(s: Iface, e: Event, x: nat, uuid: bytes, parse: bytes -> Option<T>)
    requires s.Valid() && Transactions.Sendable(e) && s.outboundNumber == x % 0x100
    ensures Next(s, e, uuid, parse).outboundNumber == (x + if e.Sends? then 1 else 0) % 0x100
  {
    OneMore(x);
  }

  lemma OneMore(x: nat)
    ensures (x % 0x100 + 1) % 0x100 == (x + 1) % 0x100
  {
  }

  lemma {:induction false} NumberFrom<T>(s: Iface, events: seq<Event>, x: nat, uuid: bytes, parse: bytes -> Option<T>)
    requires s.Valid() && AllSendable(events) && s.outboundNumber == x % 0x100
    ensures After(s, events, uuid, parse).outboundNumber == (x + Sends(events)) % 0x100
  {
    if events != [] {
      NumberFrom(s, Front(events), x, uuid, parse);
      NumberMoves(After(s, Front(events), uuid, parse), Last(events), x + Sends(Front(events)), uuid, parse);
    }
  }

  // Every PDU that is sent takes the next number, also without a link, and nothing else takes one.
  lemma NumberAfter<T>(s: Iface, events: seq<Event>, uuid: bytes, parse: bytes -> Option<T>)
    requires s.Valid() && AllSendable(events)
    ensures After(s, events, uuid, parse).outboundNumber == (s.outboundNumber + Sends(events)) % 0x100
  {
    NumberFrom(s, events, s.outboundNumber, uuid, parse);
  }

  // All pieces of the i-th PDU of a run, and nothing else, go out on the link under the number i after
  // the first, and the PDU is kept; without a link nothing goes out, and what was kept stays.
  lemma SentUnderNumber<T>(s: Iface, before: seq<Event>, payload: bytes, uuid: bytes, parse: bytes -> Option<T>)
    requires s.Valid() && AllSendable(before) && |payload| <= PDU_CAPACITY
    ensures var (now, number) := (After(s, before, uuid, parse), (s.outboundNumber + Sends(before)) % 0x100);
      var r := Transmit(now, payload);
      if now.linkId.None? then r.sent == [] && r.reception == InvalidLink && r.state.outbound == now.outbound
      else
        && r.reception == Quiet && |r.sent| == ChunkCount(payload)
        && (forall i | 0 <= i < |r.sent| :: r.sent[i] == AdvPdu(now.linkId.value, number, Piece(payload, i)))
        && r.state.outbound == Some(Outgoing(now.linkId.value, number, payload))
  {
    NumberAfter(s, before, uuid, parse);
  }

  lemma SendsOfMore(a: seq<Event>, e: Event)
    ensures Sends(a + [e]) == Sends(a) + if e.Sends? then 1 else 0
  {
    assert Front(a + [e]) == a;
  }

  lemma {:induction false} SendsConcat(a: seq<Event>, b: seq<Event>)
    ensures Sends(a + b) == Sends(a) + Sends(b)
  {
    if b == [] {
      assert a + b == a;
    } else {
      SendsConcat(a, Front(b));
      assert a + b == a + Front(b) + [Last(b)];
      SendsOfMore(a + Front(b), Last(b));
    }
  }

  lemma Apart(x: nat, y: nat)
    requires x < y < x + 0x100
    ensures x % 0x100 != y % 0x100
  {
    var (p, q) := (x / 0x100, y / 0x100);
    assert x == 0x100 * p + x % 0x100 && y == 0x100 * q + y % 0x100;
  }

  lemma SendsOfTwo(before: seq<Event>, first: Event, between: seq<Event>)
    requires first.Sends?
    ensures Sends(before + [first] + between) == Sends(before) + 1 + Sends(between)
  {
    SendsOfMore(before, first);
    SendsConcat(before + [first], between);
  }

  // Two PDUs with fewer than 255 others between them have different numbers.
  lemma NumbersApart<T>(s: Iface, before: seq<Event>, first: Event, between: seq<Event>, uuid: bytes, parse: bytes -> Option<T>)
    requires s.Valid() && first.Sends? && AllSendable(before) && Transactions.Sendable(first) && AllSendable(between)
    requires Sends(between) < 0xFF
    ensures AllSendable(before + [first] + between)
    ensures After(s, before, uuid, parse).outboundNumber
         != After(s, before + [first] + between, uuid, parse).outboundNumber
  {
    NumberAfter(s, before, uuid, parse);
    NumberAfter(s, before + [first] + between, uuid, parse);
    SendsOfTwo(before, first, between);
    Apart(s.outboundNumber + Sends(before), s.outboundNumber + Sends(before) + 1 + Sends(between));
  }

  // ---------------------------------------------------------------- sent again until acknowledged

  predicate Acknowledges(e: Event, number: u8) { e.Arrives? && e.pdu.pdu == TransactionAck && e.pdu.number == number }

  predicate Acknowledged(events: seq<Event>, number: u8) {
    exists i :: 0 <= i < |events| && Acknowledges(events[i], number)
  }

  lemma AcknowledgedByMore(events: seq<Event>, number: u8)
    requires events != []
    ensures Acknowledged(events, number) <==> Acknowledged(Front(events), number) || Acknowledges(Last(events), number)
  {
    if Acknowledged(Front(events), number) {
      var i :| 0 <= i < |Front(events)| && Acknowledges(Front(events)[i], number);
      assert Acknowledges(events[i], number);
    }
    assert forall i | 0 <= i < |Front(events)| :: events[i] == Front(events)[i];
  }

  lemma KeptByEvent<T>(s: Iface, e: Event, uuid: bytes, parse: bytes -> Option<T>)
    requires s.Valid() && e.Arrives?
    ensures Next(s, e, uuid, parse).outbound
         == if s.outbound.Some? && Acknowledges(e, s.outbound.value.number) then None else s.outbound
  {
  }

  // A PDU is kept until its own number is acknowledged, whatever else arrives, even across links.
  lemma {:induction false} KeptUntilAcknowledged<T>(s: Iface, events: seq<Event>, uuid: bytes, parse: bytes -> Option<T>)
    requires s.Valid() && s.outbound.Some? && forall i | 0 <= i < |events| :: events[i].Arrives?
    ensures AllSendable(events)
    ensures After(s, events, uuid, parse).outbound
         == if Acknowledged(events, s.outbound.value.number) then None else s.outbound
  {
    if events != [] {
      KeptUntilAcknowledged(s, Front(events), uuid, parse);
      KeptByEvent(After(s, Front(events), uuid, parse), Last(events), uuid, parse);
      AcknowledgedByMore(events, s.outbound.value.number);
    }
  }

  predicate IsSegment(g: GenericPdu) { g.TransactionStart? || g.TransactionContinuation? }

  // A segment that does not belong to the current transaction and does not begin the next: its number
  // is acknowledged again when it is not above the last acknowledged one, and the PDU that is kept is
  // sent again.
  lemma RefusedSegment<T>(s: Iface, pdu: AdvPdu, uuid: bytes, parse: bytes -> Option<T>)
    requires s.Valid() && IsSegment(pdu.pdu)
    requires s.inbound != Some(pdu.number) && (s.inbound.Some? || s.acked.None? || s.acked.value >= pdu.number)
    ensures var r := Receive(s, pdu, uuid, parse);
      && r.state == s
      && (if s.acked.Some? && s.acked.value >= pdu.number then
            if s.linkId.None? then r.reception == InvalidLink && r.sent == []
            else r.reception == Quiet && r.sent == [AdvPdu(s.linkId.value, pdu.number, TransactionAck)] + Resent(s)
          else r.reception == Quiet && r.sent == Resent(s))
  {
    assert [] + Resent(s) == Resent(s);
  }

  // What goes with each refused segment: a PDU sent on an open link, in full and under its number, until
  // that number is acknowledged, and nothing after.
  lemma ResentUntilAcknowledged<T>(s: Iface, payload: bytes, events: seq<Event>, uuid: bytes, parse: bytes -> Option<T>)
    requires s.Valid() && s.linkId.Some? && |payload| <= PDU_CAPACITY
    requires forall i | 0 <= i < |events| :: events[i].Arrives?
    ensures AllSendable(events)
    ensures var sent := Resent(After(Next(s, Event.Sends(payload), uuid, parse), events, uuid, parse));
      if Acknowledged(events, s.outboundNumber) then sent == []
      else
        && |sent| == ChunkCount(payload)
        && forall i | 0 <= i < |sent| :: sent[i] == AdvPdu(s.linkId.value, s.outboundNumber, Piece(payload, i))
  {
    KeptUntilAcknowledged(Next(s, Event.Sends(payload), uuid, parse), events, uuid, parse);
  }
}
