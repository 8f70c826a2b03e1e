/** Provisioning PDUs from one side's values to the other side's, through octets, segments and the
    stop-and-wait protocol of a link. */
module PduDelivery {
  import opened Wrappers
  import opened Mesh
  import PbAdvSegments
  import opened PbAdvInterface
  import ProvisioningCodec
  import opened Leftover
  import opened StopAndWait

  type Pdu = ProvisioningCodec.Pdu

  function Decode(octets: bytes): Option<Pdu> {
    match ProvisioningCodec.Parse(octets) case Ok(p) => Some(p) case Err(_) => None
  }

  function Encoded(pdus: seq<Pdu>): (msgs: seq<bytes>)
    ensures |msgs| == |pdus| && forall i | 0 <= i < |pdus| :: msgs[i] == ProvisioningCodec.Emit(pdus[i])
  {
    seq(|pdus|, i requires 0 <= i < |pdus| => ProvisioningCodec.Emit(pdus[i]))
  }

  // The PDUs that the parser accepts, in whatever form.
  predicate Accepted(pdus: seq<Pdu>) {
    forall i | 0 <= i < |pdus| :: ProvisioningCodec.Parse(ProvisioningCodec.Emit(pdus[i])).Ok?
  }

  predicate AllSurvive(pdus: seq<Pdu>) { forall i | 0 <= i < |pdus| :: ProvisioningCodec.Survives(pdus[i]) }

  lemma SurvivorsAreAccepted(pdus: seq<Pdu>)
    requires AllSurvive(pdus)
    ensures Accepted(pdus)
  {
    forall i | 0 <= i < |pdus| ensures ProvisioningCodec.Parse(ProvisioningCodec.Emit(pdus[i])).Ok? {
      ProvisioningCodec.RoundTrip(pdus[i]);
    }
  }

  lemma EncodedIsSendable(pdus: seq<Pdu>)
    ensures Sendable(Encoded(pdus))
  {
    var msgs := Encoded(pdus);
    forall i | 0 <= i < |msgs| ensures |msgs[i]| <= PbAdvSegments.PDU_CAPACITY {
      ProvisioningCodec.EmitFits(pdus[i]);
    }
  }

  // Any PDUs make a session, as long as the numbers last.
  function Carrying(uuid: bytes, linkId: u32, base: u8, pdus: seq<Pdu>): (s: Session)
    requires base + |pdus| <= 0x100
    ensures s.Valid()
  {
    EncodedIsSendable(pdus);
    Session(uuid, linkId, base, Encoded(pdus))
  }

  lemma AcceptedParse(pdus: seq<Pdu>)
    requires Accepted(pdus)
    ensures AllParse(Encoded(pdus), Decode)
  {
  }

  lemma PrefixOfSurvivors(delivered: seq<Pdu>, pdus: seq<Pdu>)
    requires AllSurvive(pdus) && Prefix(delivered, Encoded(pdus), Decode)
    ensures delivered <= pdus
  {
    forall i | 0 <= i < |delivered| ensures delivered[i] == pdus[i] {
      ProvisioningCodec.RoundTrip(pdus[i]);
    }
  }

  lemma AllOfThemSurvive(delivered: seq<Pdu>, pdus: seq<Pdu>)
    requires Prefix(delivered, Encoded(pdus), Decode) && delivered == pdus
    ensures AllSurvive(pdus)
  {
    forall i | 0 <= i < |pdus| ensures ProvisioningCodec.Survives(pdus[i]) {
      ProvisioningCodec.RoundTrip(pdus[i]);
    }
  }

  ghost predicate InOrderAlways(d: Iface, s: Session, pdus: seq<Pdu>)
    requires s.Valid() && Closed(d)
  {
    forall events: seq<Event> | Possible(Start(d), events, s, Decode) :: Run(Start(d), events, s, Decode).delivered <= pdus
  }

  // On newer numbers and a clean buffer, for PDUs that the parser accepts: what comes out is always a
  // prefix of what went in exactly when every PDU survives its octets.
  lemma PdusInOrderExactly(d: Iface, s: Session, pdus: seq<Pdu>)
    requires s.base + |pdus| <= 0x100 && s == Carrying(s.uuid, s.linkId, s.base, pdus) && Accepted(pdus)
    requires Closed(d) && Newer(d, s) && d.buffer.None?
    ensures InOrderAlways(d, s, pdus) <==> AllSurvive(pdus)
  {
    AcceptedParse(pdus);
    if AllSurvive(pdus) {
      forall events: seq<Event> | Possible(Start(d), events, s, Decode)
        ensures Run(Start(d), events, s, Decode).delivered <= pdus
      {
        StopAndWaitDelivery(d, events, s, Decode);
        PrefixOfSurvivors(Run(Start(d), events, s, Decode).delivered, pdus);
      }
    } else {
      assert Possible(Start(d), [], s, Decode);
      var all := NeverStuck(d, [], s, Decode);
      assert [] + all == all;
      var end := Run(Start(d), all, s, Decode);
      if end.delivered <= pdus { AllOfThemSurvive(end.delivered, pdus); }
    }
  }

  // And every run can be continued until exactly those PDUs have come out, and the sender knows.
  lemma PdusDelivered(d: Iface, before: seq<Event>, s: Session, pdus: seq<Pdu>) returns (after: seq<Event>)
    requires s.base + |pdus| <= 0x100 && s == Carrying(s.uuid, s.linkId, s.base, pdus) && AllSurvive(pdus)
    requires Closed(d) && Newer(d, s) && d.buffer.None? && Possible(Start(d), before, s, Decode)
    ensures Possible(Start(d), before + after, s, Decode)
    ensures var end := Run(Start(d), before + after, s, Decode); end.delivered == pdus && end.cur == |pdus|
  {
    SurvivorsAreAccepted(pdus);
    AcceptedParse(pdus);
    after := NeverStuck(d, before, s, Decode);
    PrefixOfSurvivors(Run(Start(d), before + after, s, Decode).delivered, pdus);
  }
}
