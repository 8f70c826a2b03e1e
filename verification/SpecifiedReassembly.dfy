/** Reassembly as section 3.5.3 of the Mesh Profile specification asks for it: the offset of a segment
    decides whether it has been seen, and the header carries all five bits of it. It shows what the two
    deviations of the code cost: every message is delivered, in every order. */
module SpecifiedReassembly {
  import opened Wrappers
  import opened Mesh
  import opened BlockAck
  import opened InboundSegmentation
  import opened OutboundSegmentation
  import opened Segmentation
  import opened Delivery
  import opened AckHistory
  import LowerAccess

  // The header with the high bits of SegO in their place.
  function HighBits(segO: byte): byte { (segO & 0x18) >> 3 }

  function Emit(s: LowerAccess.Segment): bytes { LowerAccess.EmitWith(s, HighBits(s.segO)) }

  lemma HighBitsInPlace(z: bv16, segO: byte)
    ensures HighBits(segO) < 8
    ensures LowerAccess.ReadSegO(segO, HighBits(segO)) == segO & 0x1F
    ensures LowerAccess.ReadSeqZero(z, HighBits(segO)) == z & 0x1FFF
  {
  }

  lemma Widths(s: LowerAccess.Segment)
    ensures LowerAccess.Read(s, HighBits(s.segO)) == s <==>
            s.segO < 32 && s.segN < 32 && s.seqZero < 0x2000 && (s.aid.Some? ==> s.aid.value < 64)
  {
  }

  // With the offset in place, a header survives exactly when every field fits its width.
  lemma HeaderRoundTrip(s: LowerAccess.Segment)
    requires |s.segmentM| <= LowerAccess.SEGMENT_SIZE
    ensures LowerAccess.Parse(Emit(s)) == Ok(s) <==>
            s.segO < 32 && s.segN < 32 && s.seqZero < 0x2000 && (s.aid.Some? ==> s.aid.value < 64)
  {
    HighBitsInPlace(s.seqZero, s.segO);
    LowerAccess.ParseOfEmitWith(s, HighBits(s.segO));
    Widths(s);
  }

  // One segment of a source, with the "already seen" test on its offset.
  ghost function Handle(f: Flight, pdu: SegmentedPdu): (r: (Option<Flight>, Outcome))
    requires f.WellFormed()
    ensures r.0.Some? ==> r.0.value.WellFormed()
  {
    if f.kind != pdu.kind || f.seqZero != pdu.seqZero then (Some(f), Err(InvalidPDU))
    else if IsAcked(f.acks, pdu.segO) then (Some(f), Ok(SegmentationResult(f.acks, pdu.meta, None)))
    else Admit(f, pdu)
  }

  // Segments of an access or a control PDU in some order, each as often as it likes.
  ghost predicate Segments(m: Content, z: bv16, pdus: seq<SegmentedPdu>)
    requires m.Valid()
  {
    forall pdu | pdu in pdus :: Carries(m, z, pdu, pdu.segO)
  }

  ghost function InFlight(pdus: seq<SegmentedPdu>): (f: Option<Flight>)
    ensures Sane(f)
  {
    if pdus == [] then None else Handle(Current(InFlight(Front(pdus)), Last(pdus)), Last(pdus)).0
  }

  ghost function LastResult(pdus: seq<SegmentedPdu>): Outcome
    requires pdus != []
  {
    Handle(Current(InFlight(Front(pdus)), Last(pdus)), Last(pdus)).1
  }

  // The offsets that have arrived since the message was last delivered.
  function Arrived(pdus: seq<SegmentedPdu>, n: nat): set<nat> {
    if pdus == [] then {}
    else
      var seen := Arrived(Front(pdus), n) + {Last(pdus).segO};
      if seen == All(n) then {} else seen
  }

  // One segment: it delivers the message exactly when it is the last one missing.
  lemma SegmentStep(m: Content, z: bv16, seen: set<nat>, f: Option<Flight>, pdu: SegmentedPdu)
    requires m.Valid() && Carries(m, z, pdu, pdu.segO) && Holds(m, z, seen, f) && seen != All(m.SegN())
    ensures Sane(f) && var (f', outcome) := Handle(Current(f, pdu), pdu);
      var more := seen + {pdu.segO};
      && outcome.Ok?
      && Holds(m, z, if more == All(m.SegN()) then {} else more, f')
      && (if more == All(m.SegN()) then outcome.value.upper == Some(Whole(m, pdu.meta)) else !Delivers(outcome))
  {
    var (n, i) := (m.SegN(), pdu.segO);
    NewIsAssembled(m, z, pdu, i);
    var g := Current(f, pdu);
    assert IsAcked(g.acks, i) <==> i in seen;
    if i in seen {
      assert seen + {i} == seen;
    } else {
      StoreOfSegment(m, z, seen, g, pdu, i);
      var acked := Store(g, pdu).value.(acks := Ack(g.acks, i));
      CompleteIffAll(acked.acks, seen + {i}, n);
      if seen + {i} == All(n) { ReassembleOfAll(m, z, acked, pdu); }
    }
  }

  lemma {:induction false} HoldsAfter(m: Content, z: bv16, pdus: seq<SegmentedPdu>)
    requires m.Valid() && Segments(m, z, pdus)
    ensures Holds(m, z, Arrived(pdus, m.SegN()), InFlight(pdus)) && Arrived(pdus, m.SegN()) != All(m.SegN())
  {
    assert 0 in All(m.SegN());
    if pdus != [] {
      assert Last(pdus) in pdus && forall p | p in Front(pdus) :: p in pdus;
      HoldsAfter(m, z, Front(pdus));
      SegmentStep(m, z, Arrived(Front(pdus), m.SegN()), InFlight(Front(pdus)), Last(pdus));
    }
  }

  lemma LastSegment(m: Content, z: bv16, pdus: seq<SegmentedPdu>)
    requires m.Valid() && Segments(m, z, pdus) && pdus != []
    ensures var (n, last) := (m.SegN(), Last(pdus));
      var complete := Arrived(Front(pdus), n) + {last.segO} == All(n);
      && LastResult(pdus).Ok?
      && LastResult(pdus).value.upper == if complete then Some(Whole(m, last.meta)) else None
  {
    assert Last(pdus) in pdus && forall p | p in Front(pdus) :: p in pdus;
    HoldsAfter(m, z, Front(pdus));
    SegmentStep(m, z, Arrived(Front(pdus), m.SegN()), InFlight(Front(pdus)), Last(pdus));
  }

  // The octets of a segment with its offset in place, and what reassembly gets from them.
  function Transport(msg: Message, i: nat): bytes
    requires msg.Valid() && i <= msg.SegN()
  {
    Emit(SegmentOf(msg.payload, msg.aid, msg.meta, i))
  }

  lemma FromTransport(msg: Message, i: nat, meta: Meta)
    requires msg.Valid() && i <= msg.SegN()
    ensures FromWire(Transport(msg, i), meta).Ok?
    ensures var pdu := FromWire(Transport(msg, i), meta).value; Carries(AsContent(msg), Zero(msg), pdu, i) && pdu.meta == meta
  {
    var s := SegmentOf(msg.payload, msg.aid, msg.meta, i);
    HighBitsInPlace(s.seqZero, s.segO);
    LowerAccess.ParseOfEmitWith(s, HighBits(s.segO));
    Narrow(msg.SegN());
    Narrow(i);
    CutTheSame(msg, i);
    if s.aid.Some? { AidFits(s.aid.value); }
  }

  // What reassembly gets when segments of the message arrive, in any order and as often as they like.
  ghost predicate Received(msg: Message, arrivals: seq<Arrival>, pdus: seq<SegmentedPdu>)
    requires msg.Valid() && From(msg, arrivals)
  {
    && |pdus| == |arrivals|
    && forall k | 0 <= k < |pdus| :: FromWire(Transport(msg, arrivals[k].index), arrivals[k].meta) == Ok(pdus[k])
  }

  lemma ReceivedCarries(msg: Message, arrivals: seq<Arrival>, pdus: seq<SegmentedPdu>)
    requires msg.Valid() && From(msg, arrivals) && Received(msg, arrivals, pdus)
    ensures Segments(AsContent(msg), Zero(msg), pdus)
    ensures forall k | 0 <= k < |pdus| :: pdus[k].segO == arrivals[k].index && pdus[k].meta == arrivals[k].meta
  {
    CutTheSame(msg, 0);
    forall k | 0 <= k < |pdus|
      ensures Carries(AsContent(msg), Zero(msg), pdus[k], arrivals[k].index)
      ensures pdus[k].meta == arrivals[k].meta
    {
      FromTransport(msg, arrivals[k].index, arrivals[k].meta);
    }
  }

  // Whatever the order and however often segments are repeated: the message is delivered, as it was
  // sent, each time the last missing segment arrives, and at no other time. This holds for every
  // message of up to thirty-two segments, from the octets of its segments on.
  lemma DeliveredWhenComplete(msg: Message, arrivals: seq<Arrival>, pdus: seq<SegmentedPdu>)
    requires msg.Valid() && From(msg, arrivals) && Received(msg, arrivals, pdus) && pdus != []
    ensures var (n, last) := (msg.SegN(), Last(arrivals));
      var complete := Arrived(Front(pdus), n) + {last.index} == All(n);
      && LastResult(pdus).Ok?
      && LastResult(pdus).value.upper == if complete then Some(Whole(AsContent(msg), last.meta)) else None
  {
    ReceivedCarries(msg, arrivals, pdus);
    LastSegment(AsContent(msg), Zero(msg), pdus);
  }
}
