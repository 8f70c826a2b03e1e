/** The block acknowledgement of a source against the history of its segments, whatever they are. */
module AckHistory {
  import opened Wrappers
  import opened Mesh
  import opened BlockAck
  import opened InboundSegmentation
  import opened Segmentation

  // Whether a segment is written into the message in flight, rather than refused or taken as seen.
  ghost predicate Ingests(f: Flight, pdu: SegmentedPdu)
    requires f.WellFormed()
  {
    && f.kind == pdu.kind && f.seqZero == pdu.seqZero && !IsAcked(f.acks, pdu.segN)
    && Store(f, pdu).Ok? && pdu.segO <= f.segN
  }

  ghost function Current(f: Option<Flight>, pdu: SegmentedPdu): (g: Flight)
    requires Sane(f)
    ensures g.WellFormed()
  {
    if f.Some? then f.value else NewFlight(pdu)
  }

  // The offsets that were ingested since the message in flight began.
  ghost function Ingested(pdus: seq<SegmentedPdu>): set<nat> {
    if pdus == [] || InFlightAfter(pdus).None? then {}
    else
      var before := InFlightAfter(Front(pdus));
      (if before.None? then {} else Ingested(Front(pdus)))
      + (if Ingests(Current(before, Last(pdus)), Last(pdus)) then {Last(pdus).segO} else {})
  }

  // One segment: it sets the bit of its offset exactly when it is ingested, and touches no other; what
  // is reported is the new value, which is all ones exactly when the message is handed over.
  lemma AcksAfter(g: Flight, pdu: SegmentedPdu)
    requires g.WellFormed()
    ensures var (f', outcome) := Handle(g, pdu);
      && (f'.Some? ==> f'.value.segN == g.segN)
      && (f'.Some? ==> forall k: nat ::
            IsAcked(f'.value.acks, k) <==> IsAcked(g.acks, k) || (k == pdu.segO && Ingests(g, pdu)))
      && (outcome.Ok? && f'.Some? ==> outcome.value.blockAck == f'.value.acks && outcome.value.upper.None?)
      && (f'.None? ==> outcome.Ok? && outcome.value.upper.Some?)
  {
    forall k: nat ensures IsAcked(Ack(g.acks, pdu.segO), k) <==> IsAcked(g.acks, k) || k == pdu.segO {
      AckSetsOneBit(g.acks, pdu.segO, k);
    }
  }

  // In every reachable reassembly, bit i is set exactly when segment i was ingested, and no bit lies
  // above the last segment.
  lemma {:induction false} AcksAreTheIngested(pdus: seq<SegmentedPdu>)
    ensures InFlightAfter(pdus).Some? ==>
      && (forall k: nat :: IsAcked(InFlightAfter(pdus).value.acks, k) <==> k in Ingested(pdus))
      && (forall k | k in Ingested(pdus) :: k <= InFlightAfter(pdus).value.segN)
  {
    if pdus != [] {
      AcksAreTheIngested(Front(pdus));
      var before := InFlightAfter(Front(pdus));
      AcksAfter(Current(before, Last(pdus)), Last(pdus));
      if before.None? {
        forall k: nat ensures !IsAcked(0, k) { NothingAcked(k); }
      }
    }
  }
}
