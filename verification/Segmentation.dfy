/** What the two halves of the lower transport layer achieve together. */
module Segmentation {
  import opened Wrappers
  import opened Mesh
  import opened BlockAck
  import opened InboundSegmentation
  import opened OutboundSegmentation
  import LowerAccess

  // ---------------------------------------------------------------- one source in isolation

  ghost predicate Sane(f: Option<Flight>) { f.Some? ==> f.value.WellFormed() }

  // Reassembly for a single source with its own, never-full table.
  ghost function SoloStep(f: Option<Flight>, pdu: SegmentedPdu): (r: (Option<Flight>, Outcome))
    requires Sane(f)
    ensures Sane(r.0)
  {
    Handle(if f.Some? then f.value else NewFlight(pdu), pdu)
  }

  // What is in flight for the source after a run of its segments, and the outcomes of the run.
  ghost function InFlightAfter(pdus: seq<SegmentedPdu>): (f: Option<Flight>)
    ensures Sane(f)
  {
    if pdus == [] then None else SoloStep(InFlightAfter(Front(pdus)), Last(pdus)).0
  }

  ghost function Solo(pdus: seq<SegmentedPdu>): (outcomes: seq<Outcome>)
    ensures |outcomes| == |pdus|
  {
    if pdus == [] then [] else Solo(Front(pdus)) + [LastOutcome(pdus)]
  }

  ghost function LastOutcome(pdus: seq<SegmentedPdu>): Outcome
    requires pdus != []
  {
    SoloStep(InFlightAfter(Front(pdus)), Last(pdus)).1
  }

  function Lookup(m: map<u16, Flight>, src: u16): Option<Flight> {
    if src in m then Some(m[src]) else None
  }

  // The segments of one source, and the outcomes they get when all sources share one table.
  function Of(pdus: seq<SegmentedPdu>, src: u16): seq<SegmentedPdu> {
    if pdus == [] then []
    else Of(Front(pdus), src) + (if Last(pdus).meta.src == src then [Last(pdus)] else [])
  }

  ghost function TableAfter(capacity: nat, pdus: seq<SegmentedPdu>): (m: map<u16, Flight>)
    ensures AllWellFormed(m)
  {
    if pdus == [] then map[] else Step(capacity, TableAfter(capacity, Front(pdus)), Last(pdus)).0
  }

  ghost function OutcomesOf(capacity: nat, pdus: seq<SegmentedPdu>, src: u16): (outcomes: seq<Outcome>)
    ensures |outcomes| == |Of(pdus, src)|
  {
    if pdus == [] then []
    else
      OutcomesOf(capacity, Front(pdus), src) +
      (if Last(pdus).meta.src == src then [Step(capacity, TableAfter(capacity, Front(pdus)), Last(pdus)).1] else [])
  }

  lemma StepOnOwnSource(capacity: nat, m: map<u16, Flight>, pdu: SegmentedPdu)
    requires AllWellFormed(m)
    requires Step(capacity, m, pdu).1 != Err(InsufficientSpace)
    ensures Sane(Lookup(m, pdu.meta.src))
    ensures (Lookup(Step(capacity, m, pdu).0, pdu.meta.src), Step(capacity, m, pdu).1)
         == SoloStep(Lookup(m, pdu.meta.src), pdu)
  {
  }

  lemma StepOnOtherSource(capacity: nat, m: map<u16, Flight>, pdu: SegmentedPdu, src: u16)
    requires AllWellFormed(m) && pdu.meta.src != src
    ensures Lookup(Step(capacity, m, pdu).0, src) == Lookup(m, src)
  {
  }

  lemma SoloNeverRefuses(f: Option<Flight>, pdu: SegmentedPdu)
    requires Sane(f)
    ensures SoloStep(f, pdu).1 != Err(InsufficientSpace)
  {
  }

  const REFUSED: Outcome := Err(InsufficientSpace)

  // Sources do not disturb each other: for every interleaving of arbitrary segments, the outcomes
  // of one source are those of its own segments run alone, exactly when none of them was refused
  // for lack of room.
  lemma {:induction false} NonInterference(capacity: nat, pdus: seq<SegmentedPdu>, src: u16)
    ensures OutcomesOf(capacity, pdus, src) == Solo(Of(pdus, src)) <==> REFUSED !in OutcomesOf(capacity, pdus, src)
    ensures REFUSED !in OutcomesOf(capacity, pdus, src) ==>
      Lookup(TableAfter(capacity, pdus), src) == InFlightAfter(Of(pdus, src))
  {
    if pdus != [] {
      var (front, pdu) := (Front(pdus), Last(pdus));
      NonInterference(capacity, front, src);
      var m := TableAfter(capacity, front);
      if pdu.meta.src != src {
        StepOnOtherSource(capacity, m, pdu, src);
        assert Of(pdus, src) == Of(front, src);
        assert OutcomesOf(capacity, pdus, src) == OutcomesOf(capacity, front, src);
      } else {
        SoloNeverRefuses(InFlightAfter(Of(front, src)), pdu);
        if Step(capacity, m, pdu).1 != REFUSED { StepOnOwnSource(capacity, m, pdu); }
        assert Front(Of(pdus, src)) == Of(front, src);
        Snoc(OutcomesOf(capacity, front, src), Step(capacity, m, pdu).1, Solo(Of(front, src)), LastOutcome(Of(pdus, src)));
      }
    }
  }

  lemma Snoc(s: seq<Outcome>, a: Outcome, t: seq<Outcome>, b: Outcome)
    requires |s| == |t|
    ensures s + [a] == t + [b] <==> s == t && a == b
    ensures REFUSED in s + [a] <==> REFUSED in s || a == REFUSED
  {
    assert (s + [a])[..|s|] == s && (t + [b])[..|t|] == t;
    assert (s + [a])[|s|] == a && (t + [b])[|t|] == b;
  }

  function Sources(pdus: seq<SegmentedPdu>): set<u16> { set pdu | pdu in pdus :: pdu.meta.src }

  // Nothing is refused while the sources heard fit the table.
  lemma {:induction false} FewSourcesNeverRefused(capacity: nat, pdus: seq<SegmentedPdu>, src: u16, heard: set<u16>)
    requires Sources(pdus) <= heard && |heard| <= capacity
    ensures TableAfter(capacity, pdus).Keys <= heard
    ensures REFUSED !in OutcomesOf(capacity, pdus, src)
  {
    if pdus != [] {
      var (front, pdu) := (Front(pdus), Last(pdus));
      assert pdu in pdus && pdu.meta.src in Sources(pdus) && Sources(front) <= Sources(pdus);
      FewSourcesNeverRefused(capacity, front, src, heard);
      RoomMeansAdmission(capacity, TableAfter(capacity, front), pdu, heard);
    }
  }

  lemma Admitted(capacity: nat, m: map<u16, Flight>, pdu: SegmentedPdu)
    requires AllWellFormed(m) && (pdu.meta.src in m || |m| < capacity)
    ensures Step(capacity, m, pdu).1 == Handle(Entered(m, pdu)[pdu.meta.src], pdu).1
    ensures Step(capacity, m, pdu).0.Keys <= m.Keys + {pdu.meta.src}
  {
  }

  lemma NeverForSpace(f: Flight, pdu: SegmentedPdu)
    requires f.WellFormed()
    ensures Handle(f, pdu).1 != Err(InsufficientSpace)
  {
  }

  lemma RoomMeansAdmission(capacity: nat, m: map<u16, Flight>, pdu: SegmentedPdu, heard: set<u16>)
    requires AllWellFormed(m)
    requires m.Keys <= heard && pdu.meta.src in heard && |heard| <= capacity
    ensures Step(capacity, m, pdu).1 != Err(InsufficientSpace)
    ensures Step(capacity, m, pdu).0.Keys <= heard
  {
    if pdu.meta.src !in m {
      SmallerSet(m.Keys, heard, pdu.meta.src);
      assert |m| == |m.Keys|;
    }
    Admitted(capacity, m, pdu);
    NeverForSpace(Entered(m, pdu)[pdu.meta.src], pdu);
  }

  lemma SmallerSet(a: set<u16>, b: set<u16>, x: u16)
    requires a <= b && x in b && x !in a
    ensures |a| < |b|
  {
    var extra := b - a;
    assert b == a + extra && a !! extra && |b| == |a| + |extra|;
    assert extra != {};
  }

  // ---------------------------------------------------------------- one message, any delivery

  // What the lower layer hands to reassembly when a transport PDU arrives.
  function FromWire(transport: bytes, meta: Meta): Result<SegmentedPdu, DriverError> {
    match LowerAccess.Parse(transport)
    case Err(e) => Err(e)
    case Ok(s) => Ok(SegmentedPdu(Access(s.szmic), s.aid, s.seqZero, s.segO as nat, s.segN as nat, s.segmentM, meta))
  }

  // Which segment of the message arrives, and the metadata of the network PDU it came in.
  datatype Arrival = Arrival(index: nat, meta: Meta)

  // A segmented message as its sender sees it.
  datatype Message = Message(payload: bytes, aid: Option<byte>, meta: Meta) {
    ghost predicate Valid() {
      UNSEGMENTED_MTU < |payload| <= PAYLOAD_CAPACITY && (aid.Some? ==> aid.value < 64)
    }

    function SegN(): nat { if payload == [] then 0 else ChunkCount(payload) - 1 }
  }

  // The segment as reassembly receives it; ArrivedPdu ties it to the bytes on the air.
  function Arrive(msg: Message, a: Arrival): SegmentedPdu
    requires msg.Valid() && a.index <= msg.SegN()
  {
    SegmentedPdu(Access(Bit32), msg.aid,
      LowerAccess.ReceivedSeqZero(SeqZeroOf(msg.meta.seqNum), a.index as byte),
      LowerAccess.ReceivedSegO(a.index as byte) as nat,
      msg.SegN(), Chunk(msg.payload, a.index), a.meta)
  }

  lemma ArrivedPdu(msg: Message, a: Arrival)
    requires msg.Valid() && a.index <= msg.SegN()
    ensures FromWire(LowerAccess.Emit(SegmentOf(msg.payload, msg.aid, msg.meta, a.index)), a.meta) == Ok(Arrive(msg, a))
  {
    var s := SegmentOf(msg.payload, msg.aid, msg.meta, a.index);
    LowerAccess.ParseOfEmit(s);
    Narrow(msg.SegN());
    if s.aid.Some? { AidFits(s.aid.value); }
  }

  lemma AidFits(a: byte)
    requires a < 64
    ensures a & 0x3F == a
  {
  }

  lemma Narrow(n: nat)
    requires n < 32
    ensures ((n as byte) & 0x1F) as nat == n
  {
  }

  lemma SmallOffset(i: nat, z: bv16)
    requires i < 8
    ensures LowerAccess.ReceivedSegO(i as byte) as nat == i
    ensures LowerAccess.ReceivedSeqZero(z, i as byte) == z & 0x1FFF
  {
    assert (i as byte) & 0x07 == i as byte && (i as byte) & 0x18 == 0;
  }

  lemma LostOffset(i: nat)
    requires i < 32
    ensures LowerAccess.ReceivedSegO(i as byte) as nat != 8
  {
    LowerAccess.NeverReceived(i as byte);
  }
}
