/** When a segmented message is delivered: every order of arrival, with every duplication. */
module Delivery {
  import opened Wrappers
  import opened Mesh
  import opened BlockAck
  import opened InboundSegmentation
  import opened OutboundSegmentation
  import opened Segmentation
  import LowerAccess

  ghost predicate From(msg: Message, arrivals: seq<Arrival>) {
    forall a | a in arrivals :: a.index <= msg.SegN()
  }

  ghost function Wire(msg: Message, arrivals: seq<Arrival>): (pdus: seq<SegmentedPdu>)
    requires msg.Valid() && From(msg, arrivals)
    ensures |pdus| == |arrivals|
    ensures forall k | 0 <= k < |pdus| :: pdus[k] == Arrive(msg, arrivals[k])
  {
    seq(|arrivals|, k requires 0 <= k < |arrivals| => Arrive(msg, arrivals[k]))
  }

  ghost predicate Delivers(outcome: Outcome) { outcome.Ok? && outcome.value.upper.Some? }

  // ---------------------------------------------------------------- at most eight segments

  function All(n: nat): (s: set<nat>)
    ensures forall i: nat :: i in s <==> i <= n
  {
    if n == 0 then {0} else All(n - 1) + {n}
  }

  // The segments ingested since the last delivery. Once the last segment is in, nothing more gets in.
  function Seen(arrivals: seq<Arrival>, n: nat): (s: set<nat>) {
    if arrivals == [] then {}
    else Next(Seen(Front(arrivals), n), Last(arrivals).index, n)
  }

  function Next(seen: set<nat>, i: nat, n: nat): set<nat> {
    if n in seen then seen
    else if seen + {i} == All(n) then {}
    else seen + {i}
  }

  // What is cut into segments: an upper access PDU with its MIC, or the parameters of a control PDU.
  datatype Content = Content(kind: Kind, payload: bytes, aid: Option<byte>) {
    // Twelve octets a segment for access PDUs, eight for control PDUs.
    function Size(): nat { if kind.Access? then 12 else 8 }

    // Up to 380 octets, with a MIC of four or eight, or up to 256.
    ghost predicate Valid() {
      match kind
      case Access(szmic) => (if szmic.Bit32? then 4 else 8) <= |payload| <= 380
      case Control(_) => 0 < |payload| <= 256
    }

    function SegN(): nat { if payload == [] then 0 else (|payload| - 1) / Size() }

    function Part(i: nat): (c: bytes)
      requires payload != [] && i <= SegN()
      ensures 0 < |c| <= Size()
      ensures i < SegN() ==> |c| == Size()
      ensures Size() * i + |c| <= |payload| && (i == SegN() ==> Size() * i + |c| == |payload|)
    {
      payload[Size() * i..if Size() * i + Size() <= |payload| then Size() * i + Size() else |payload|]
    }
  }

  // A received segment that carries part i of the content, under the sequence-zero z.
  ghost predicate Carries(m: Content, z: bv16, pdu: SegmentedPdu, i: nat)
    requires m.Valid()
  {
    && i <= m.SegN() && pdu.segO == i && pdu.segN == m.SegN()
    && pdu.kind == m.kind && pdu.aid == m.aid && pdu.seqZero == z
    && pdu.segmentM == m.Part(i)
  }

  ghost predicate Holds(m: Content, z: bv16, seen: set<nat>, f: Option<Flight>)
    requires m.Valid()
  {
    && (f.None? <==> seen == {})
    && seen <= All(m.SegN())
    && (f.Some? ==> Assembled(m, z, seen, f.value))
  }

  ghost predicate Assembled(m: Content, z: bv16, seen: set<nat>, g: Flight)
    requires m.Valid()
  {
    && g.WellFormed() && g.kind == m.kind && g.seqZero == z && g.segN == m.SegN()
    && (forall i: nat :: IsAcked(g.acks, i) <==> i in seen)
    && (forall i | i in seen :: HasPart(m, g.data, i))
    && (m.SegN() in seen ==> g.len == |m.payload|)
  }

  ghost predicate HasPart(m: Content, data: bytes, i: nat)
    requires m.Valid() && |data| >= |m.payload|
  {
    i <= m.SegN() && data[m.Size() * i..m.Size() * i + |m.Part(i)|] == m.Part(i)
  }

  // Different parts lie apart.
  lemma PartsApart(m: Content, i: nat, j: nat)
    requires m.Valid() && i < j <= m.SegN()
    ensures m.Size() * i + |m.Part(i)| <= m.Size() * j
  {
  }

  lemma StoreKeepsParts(m: Content, data: bytes, i: nat, j: nat)
    requires m.Valid() && |data| >= |m.payload| && i <= m.SegN()
    requires j == i || HasPart(m, data, j)
    ensures HasPart(m, Splice(data, m.Size() * i, m.Part(i)), j)
  {
    if j < i { PartsApart(m, j, i); }
    if i < j { PartsApart(m, i, j); }
  }

  lemma PartOf(m: Content, k: nat)
    requires m.Valid() && k < |m.payload|
    ensures var i := k / m.Size();
      i <= m.SegN() && m.Size() * i <= k < m.Size() * i + |m.Part(i)| && m.Part(i)[k - m.Size() * i] == m.payload[k]
  {
  }

  lemma PartsAreThePayload(m: Content, data: bytes)
    requires m.Valid() && |data| >= |m.payload|
    requires forall i: nat | i <= m.SegN() :: HasPart(m, data, i)
    ensures data[..|m.payload|] == m.payload
  {
    forall k | 0 <= k < |m.payload| ensures data[k] == m.payload[k] {
      var i := k / m.Size();
      PartOf(m, k);
      assert HasPart(m, data, i);
      assert data[m.Size() * i..m.Size() * i + |m.Part(i)|][k - m.Size() * i] == data[k];
    }
  }

  // What is handed over: the payload, with a MIC of four or eight octets split off an access PDU.
  function Whole(m: Content, meta: Meta): UpperPdu
    requires m.Valid()
  {
    match m.kind
    case Access(szmic) =>
      var split := |m.payload| - if szmic.Bit32? then 4 else 8;
      UpperAccess(m.payload[..split], m.payload[split..], m.aid, meta)
    case Control(opcode) => UpperControl(opcode, m.payload, meta)
  }

  // Storing a segment adds its part and nothing else.
  lemma StoreOfSegment(m: Content, z: bv16, seen: set<nat>, g: Flight, pdu: SegmentedPdu, i: nat)
    requires m.Valid() && Assembled(m, z, seen, g) && Carries(m, z, pdu, i) && seen <= All(m.SegN())
    ensures Store(g, pdu).Ok?
    ensures Assembled(m, z, seen + {i}, Store(g, pdu).value.(acks := Ack(g.acks, i)))
  {
    var stored := Store(g, pdu).value;
    forall j | j in seen + {i} ensures HasPart(m, stored.data, j) {
      StoreKeepsParts(m, g.data, i, j);
    }
    forall k: nat ensures IsAcked(Ack(g.acks, i), k) <==> k in seen + {i} { AckSetsOneBit(g.acks, i, k); }
  }

  lemma ReassembleOfAll(m: Content, z: bv16, g: Flight, pdu: SegmentedPdu)
    requires m.Valid() && Assembled(m, z, All(m.SegN()), g) && pdu.aid == m.aid
    ensures Reassemble(g, pdu) == Ok(Whole(m, pdu.meta))
  {
    forall k: nat | k <= m.SegN() ensures HasPart(m, g.data, k) { assert k in All(m.SegN()); }
    PartsAreThePayload(m, g.data);
    assert m.SegN() in All(m.SegN());
    if m.kind.Access? {
      var split := |m.payload| - if m.kind.szmic.Bit32? then 4 else 8;
      assert g.data[split..|m.payload|] == g.data[..|m.payload|][split..];
      assert g.data[..split] == g.data[..|m.payload|][..split];
    }
  }

  lemma NewIsAssembled(m: Content, z: bv16, pdu: SegmentedPdu, i: nat)
    requires m.Valid() && Carries(m, z, pdu, i)
    ensures Assembled(m, z, {}, NewFlight(pdu))
  {
    forall k: nat ensures !IsAcked(0, k) { NothingAcked(k); }
  }

  // One segment of the message: it never fails, it delivers exactly when it is the last one
  // missing and the message's final segment had not been ingested before, and what it delivers is
  // the payload that was cut, with the metadata of the segment that completed it.
  lemma StepOfSegment(m: Content, z: bv16, seen: set<nat>, f: Option<Flight>, pdu: SegmentedPdu, i: nat)
    requires m.Valid() && Carries(m, z, pdu, i) && Holds(m, z, seen, f)
    ensures Sane(f) && var (f', outcome) := SoloStep(f, pdu);
      && outcome.Ok?
      && Holds(m, z, Next(seen, i, m.SegN()), f')
      && (Delivers(outcome) <==> m.SegN() !in seen && seen + {i} == All(m.SegN()))
      && (Delivers(outcome) ==>
          outcome.value == SegmentationResult(Pow2(m.SegN() + 1) - 1, pdu.meta, Some(Whole(m, pdu.meta))))
  {
    var n := m.SegN();
    NewIsAssembled(m, z, pdu, i);
    var g := if f.Some? then f.value else NewFlight(pdu);
    assert IsAcked(g.acks, n) <==> n in seen;
    if n !in seen {
      StoreOfSegment(m, z, seen, g, pdu, i);
      var acked := Store(g, pdu).value.(acks := Ack(g.acks, i));
      CompleteIffAll(acked.acks, seen + {i}, n);
      if seen + {i} == All(n) { ReassembleOfAll(m, z, acked, pdu); }
    }
  }

  lemma CompleteIffAll(acks: nat, seen: set<nat>, n: nat)
    requires forall k: nat :: IsAcked(acks, k) <==> k in seen
    requires seen <= All(n)
    ensures Complete(acks, n) <==> seen == All(n)
    ensures Complete(acks, n) ==> acks == Pow2(n + 1) - 1
  {
    CompleteValue(acks, n);
    if Complete(acks, n) { assert forall k | k in All(n) :: IsAcked(acks, k); }
    if seen == All(n) { assert forall k: nat | k <= n :: k in All(n); }
  }

  // ---------------------------------------------------------------- whole runs

  // The segments that the arrivals bring, with their metadata.
  ghost predicate Brings(m: Content, z: bv16, arrivals: seq<Arrival>, pdus: seq<SegmentedPdu>)
    requires m.Valid()
  {
    && |pdus| == |arrivals|
    && forall k | 0 <= k < |pdus| :: Carries(m, z, pdus[k], arrivals[k].index) && pdus[k].meta == arrivals[k].meta
  }

  function Zero(msg: Message): bv16 { SeqZeroOf(msg.meta.seqNum) & 0x1FFF }

  lemma ShortOffset(msg: Message, a: Arrival)
    requires msg.Valid() && msg.SegN() < 8 && a.index <= msg.SegN()
    ensures Arrive(msg, a).segO == a.index
  {
    SmallOffset(a.index, 0);
  }

  lemma ZeroRead(msg: Message, a: Arrival)
    requires msg.Valid() && a.index <= msg.SegN()
    ensures Arrive(msg, a).seqZero == LowerAccess.ReceivedSeqZero(SeqZeroOf(msg.meta.seqNum), a.index as byte)
  {
  }

  lemma ZeroSurvives(msg: Message, i: nat, read: bv16)
    requires i < 8 && read == LowerAccess.ReceivedSeqZero(SeqZeroOf(msg.meta.seqNum), i as byte)
    ensures read == Zero(msg)
  {
    SmallOffset(i, SeqZeroOf(msg.meta.seqNum));
  }

  lemma ShortZero(msg: Message, a: Arrival)
    requires msg.Valid() && msg.SegN() < 8 && a.index <= msg.SegN()
    ensures Arrive(msg, a).seqZero == Zero(msg)
  {
    ZeroRead(msg, a);
    ZeroSurvives(msg, a.index, Arrive(msg, a).seqZero);
  }

  function AsContent(msg: Message): (c: Content)
    ensures msg.Valid() ==> c.Valid() && c.SegN() == msg.SegN()
  {
    Content(Access(Bit32), msg.payload, msg.aid)
  }

  lemma CutTheSame(msg: Message, i: nat)
    requires msg.Valid() && i <= msg.SegN()
    ensures AsContent(msg).Valid() && AsContent(msg).SegN() == msg.SegN() && AsContent(msg).Part(i) == Chunk(msg.payload, i)
  {
  }

  lemma ShortArrival(msg: Message, a: Arrival)
    requires msg.Valid() && msg.SegN() < 8 && a.index <= msg.SegN()
    ensures AsContent(msg).Valid() && Carries(AsContent(msg), Zero(msg), Arrive(msg, a), a.index) && Arrive(msg, a).meta == a.meta
  {
    CutTheSame(msg, a.index);
    ShortOffset(msg, a);
    ShortZero(msg, a);
  }

  lemma ShortRun(msg: Message, arrivals: seq<Arrival>)
    requires msg.Valid() && msg.SegN() < 8 && From(msg, arrivals)
    ensures AsContent(msg).Valid() && AsContent(msg).SegN() == msg.SegN()
    ensures Brings(AsContent(msg), Zero(msg), arrivals, Wire(msg, arrivals))
  {
    CutTheSame(msg, 0);
    forall k | 0 <= k < |arrivals|
      ensures Carries(AsContent(msg), Zero(msg), Wire(msg, arrivals)[k], arrivals[k].index)
      ensures Wire(msg, arrivals)[k].meta == arrivals[k].meta
    {
      ShortArrival(msg, arrivals[k]);
    }
  }

  lemma FrontOfWire(msg: Message, arrivals: seq<Arrival>)
    requires msg.Valid() && From(msg, arrivals) && arrivals != []
    ensures From(msg, Front(arrivals)) && Last(arrivals) in arrivals
    ensures Front(Wire(msg, arrivals)) == Wire(msg, Front(arrivals))
    ensures Last(Wire(msg, arrivals)) == Arrive(msg, Last(arrivals))
  {
  }

  lemma {:induction false} InFlightOfRun(m: Content, z: bv16, arrivals: seq<Arrival>, pdus: seq<SegmentedPdu>)
    requires m.Valid() && Brings(m, z, arrivals, pdus)
    ensures Holds(m, z, Seen(arrivals, m.SegN()), InFlightAfter(pdus))
  {
    if pdus != [] {
      InFlightOfRun(m, z, Front(arrivals), Front(pdus));
      StepOfSegment(m, z, Seen(Front(arrivals), m.SegN()), InFlightAfter(Front(pdus)), Last(pdus), Last(arrivals).index);
    }
  }

  // The outcome of the last segment of a run of segments, of an access or a control PDU, whatever came
  // before.
  lemma OutcomeOfRun(m: Content, z: bv16, arrivals: seq<Arrival>, pdus: seq<SegmentedPdu>)
    requires m.Valid() && Brings(m, z, arrivals, pdus) && pdus != []
    ensures var (seen, a, n) := (Seen(Front(arrivals), m.SegN()), Last(arrivals), m.SegN());
      var outcome := LastOutcome(pdus);
      && outcome.Ok?
      && (Delivers(outcome) <==> n !in seen && seen + {a.index} == All(n))
      && (Delivers(outcome) ==> outcome.value == SegmentationResult(Pow2(n + 1) - 1, a.meta, Some(Whole(m, a.meta))))
  {
    InFlightOfRun(m, z, Front(arrivals), Front(pdus));
    StepOfSegment(m, z, Seen(Front(arrivals), m.SegN()), InFlightAfter(Front(pdus)), Last(pdus), Last(arrivals).index);
  }

  function Indices(arrivals: seq<Arrival>): set<nat> { set a | a in arrivals :: a.index }

  // The final segment arrives for the first time at position k, after all the others.
  ghost predicate FinalComesLast(arrivals: seq<Arrival>, n: nat, k: nat) {
    k < |arrivals| && arrivals[k].index == n && n !in Indices(arrivals[..k]) && Indices(arrivals[..k + 1]) == All(n)
  }

  ghost predicate DeliveredIn(pdus: seq<SegmentedPdu>, k: nat) { k < |pdus| && Delivers(LastOutcome(pdus[..k + 1])) }

  ghost predicate DeliveredAt(msg: Message, arrivals: seq<Arrival>, k: nat)
    requires msg.Valid() && From(msg, arrivals)
  {
    k < |arrivals| && Delivers(LastOutcome(Wire(msg, arrivals[..k + 1])))
  }

  lemma DeliveredOnWire(msg: Message, arrivals: seq<Arrival>, k: nat)
    requires msg.Valid() && From(msg, arrivals)
    ensures DeliveredAt(msg, arrivals, k) <==> DeliveredIn(Wire(msg, arrivals), k)
  {
    if k < |arrivals| { assert Wire(msg, arrivals)[..k + 1] == Wire(msg, arrivals[..k + 1]); }
  }

  lemma IndicesSnoc(arrivals: seq<Arrival>)
    requires arrivals != []
    ensures Indices(arrivals) == Indices(Front(arrivals)) + {Last(arrivals).index}
  {
    assert arrivals == Front(arrivals) + [Last(arrivals)];
  }

  // Before the final segment, every segment that arrived is in.
  lemma {:induction false} SeenBeforeFinal(arrivals: seq<Arrival>, n: nat)
    requires n !in Indices(arrivals)
    ensures Seen(arrivals, n) == Indices(arrivals)
  {
    if arrivals != [] {
      IndicesSnoc(arrivals);
      SeenBeforeFinal(Front(arrivals), n);
      assert n in All(n);
    }
  }

  // Once the final segment is in, nothing changes any more.
  lemma {:induction false} SeenAfterFinal(arrivals: seq<Arrival>, n: nat, k: nat)
    requires k <= |arrivals| && n in Seen(arrivals[..k], n)
    ensures Seen(arrivals, n) == Seen(arrivals[..k], n)
  {
    if k < |arrivals| {
      assert Front(arrivals)[..k] == arrivals[..k];
      SeenAfterFinal(Front(arrivals), n, k);
    } else {
      assert arrivals[..k] == arrivals;
    }
  }

  // A position at which the final segment arrives for the first time.
  lemma {:induction false} FirstFinal(arrivals: seq<Arrival>, n: nat) returns (k: nat)
    requires n in Indices(arrivals)
    ensures k < |arrivals| && arrivals[k].index == n && n !in Indices(arrivals[..k])
  {
    IndicesSnoc(arrivals);
    if n in Indices(Front(arrivals)) {
      k := FirstFinal(Front(arrivals), n);
      assert Front(arrivals)[..k] == arrivals[..k];
    } else {
      k := |arrivals| - 1;
    }
  }

  // A run of segments of an access or a control PDU delivers it if and only if the final segment first
  // arrives after all the others.
  lemma SegmentsDelivered(m: Content, z: bv16, arrivals: seq<Arrival>, pdus: seq<SegmentedPdu>)
    requires m.Valid() && Brings(m, z, arrivals, pdus)
    ensures (exists k :: DeliveredIn(pdus, k)) <==> (exists k :: FinalComesLast(arrivals, m.SegN(), k))
  {
    forall k | FinalComesLast(arrivals, m.SegN(), k) ensures DeliveredIn(pdus, k) {
      DeliveredIfLast(m, z, arrivals, pdus, k);
    }
    if exists k :: DeliveredIn(pdus, k) {
      var k :| DeliveredIn(pdus, k);
      var j := LastIfDelivered(m, z, arrivals, pdus, k);
    }
  }

  // So it is for a message of at most eight segments, from the octets that its sender emits on.
  lemma ShortMessageDelivered(msg: Message, arrivals: seq<Arrival>)
    requires msg.Valid() && msg.SegN() < 8 && From(msg, arrivals)
    ensures (exists k :: DeliveredAt(msg, arrivals, k)) <==> (exists k :: FinalComesLast(arrivals, msg.SegN(), k))
  {
    ShortRun(msg, arrivals);
    SegmentsDelivered(AsContent(msg), Zero(msg), arrivals, Wire(msg, arrivals));
    forall k: nat ensures DeliveredAt(msg, arrivals, k) <==> DeliveredIn(Wire(msg, arrivals), k) {
      DeliveredOnWire(msg, arrivals, k);
    }
  }

  lemma PrefixBrings(m: Content, z: bv16, arrivals: seq<Arrival>, pdus: seq<SegmentedPdu>, k: nat)
    requires m.Valid() && Brings(m, z, arrivals, pdus) && k < |pdus|
    ensures Brings(m, z, arrivals[..k + 1], pdus[..k + 1]) && Front(arrivals[..k + 1]) == arrivals[..k]
  {
  }

  lemma DeliveredIfLast(m: Content, z: bv16, arrivals: seq<Arrival>, pdus: seq<SegmentedPdu>, k: nat)
    requires m.Valid() && Brings(m, z, arrivals, pdus) && FinalComesLast(arrivals, m.SegN(), k)
    ensures DeliveredIn(pdus, k)
  {
    PrefixBrings(m, z, arrivals, pdus, k);
    IndicesSnoc(arrivals[..k + 1]);
    SeenBeforeFinal(arrivals[..k], m.SegN());
    OutcomeOfRun(m, z, arrivals[..k + 1], pdus[..k + 1]);
  }

  lemma LastIfDelivered(m: Content, z: bv16, arrivals: seq<Arrival>, pdus: seq<SegmentedPdu>, k: nat) returns (j: nat)
    requires m.Valid() && Brings(m, z, arrivals, pdus) && DeliveredIn(pdus, k)
    ensures FinalComesLast(arrivals, m.SegN(), j)
  {
    var n := m.SegN();
    PrefixBrings(m, z, arrivals, pdus, k);
    OutcomeOfRun(m, z, arrivals[..k + 1], pdus[..k + 1]);
    IndicesSnoc(arrivals[..k + 1]);
    if n !in Indices(arrivals[..k]) {
      SeenBeforeFinal(arrivals[..k], n);
      j := k;
    } else {
      j := FinalWasLast(arrivals[..k], n);
      FinalOfPrefix(arrivals, n, k, j);
    }
  }

  lemma FinalOfPrefix(arrivals: seq<Arrival>, n: nat, k: nat, j: nat)
    requires k <= |arrivals| && FinalComesLast(arrivals[..k], n, j)
    ensures FinalComesLast(arrivals, n, j)
  {
    assert arrivals[..k][..j] == arrivals[..j] && arrivals[..k][..j + 1] == arrivals[..j + 1];
  }

  // If the final segment arrived and is not in, the message had been completed by it.
  lemma FinalWasLast(arrivals: seq<Arrival>, n: nat) returns (j: nat)
    requires n in Indices(arrivals) && n !in Seen(arrivals, n)
    ensures FinalComesLast(arrivals, n, j)
  {
    j := FirstFinal(arrivals, n);
    var prefix := arrivals[..j + 1];
    assert Front(prefix) == arrivals[..j];
    SeenBeforeFinal(arrivals[..j], n);
    IndicesSnoc(prefix);
    if Indices(prefix) != All(n) {
      SeenAfterFinal(arrivals, n, j + 1);
    }
  }

  // ---------------------------------------------------------------- a source that is stuck

  // A segment that cannot move the flight: one of another message, or one whose SegN counts as seen.
  predicate Blocked(f: Flight, pdu: SegmentedPdu) {
    pdu.kind != f.kind || pdu.seqZero != f.seqZero || IsAcked(f.acks, pdu.segN)
  }

  lemma BlockedStep(f: Flight, pdu: SegmentedPdu)
    requires f.WellFormed() && Blocked(f, pdu)
    ensures var (f', outcome) := SoloStep(Some(f), pdu);
      && f' == Some(f) && !Delivers(outcome)
      && (outcome == Err(InvalidPDU) <==> pdu.kind != f.kind || pdu.seqZero != f.seqZero)
  {
  }

  lemma Joined(before: seq<SegmentedPdu>, later: seq<SegmentedPdu>)
    requires later != []
    ensures Front(before + later) == before + Front(later) && Last(before + later) == Last(later)
    ensures Last(later) in later && forall pdu | pdu in Front(later) :: pdu in later
  {
  }

  // Nothing moves it: segments of other messages are refused, and no message is delivered, for ever.
  lemma {:induction false} BlockedRun(before: seq<SegmentedPdu>, f: Flight, later: seq<SegmentedPdu>)
    requires InFlightAfter(before) == Some(f) && forall pdu | pdu in later :: Blocked(f, pdu)
    ensures InFlightAfter(before + later) == Some(f)
    ensures later != [] ==>
      && !Delivers(LastOutcome(before + later))
      && (LastOutcome(before + later) == Err(InvalidPDU) <==> Last(later).kind != f.kind || Last(later).seqZero != f.seqZero)
  {
    if later == [] {
      assert before + later == before;
    } else {
      Joined(before, later);
      BlockedRun(before, f, Front(later));
      BlockedStep(f, Last(later));
    }
  }

  // The final segment is in, and the message was never delivered.
  ghost predicate Stuck(msg: Message, arrivals: seq<Arrival>)
    requires msg.Valid() && From(msg, arrivals)
  {
    msg.SegN() in Indices(arrivals) && forall k :: !DeliveredAt(msg, arrivals, k)
  }

  lemma StuckHasFinal(msg: Message, arrivals: seq<Arrival>)
    requires msg.Valid() && msg.SegN() < 8 && From(msg, arrivals) && Stuck(msg, arrivals)
    ensures msg.SegN() in Seen(arrivals, msg.SegN())
  {
    if msg.SegN() !in Seen(arrivals, msg.SegN()) {
      var j := FinalWasLast(arrivals, msg.SegN());
      ShortRun(msg, arrivals);
      DeliveredIfLast(AsContent(msg), Zero(msg), arrivals, Wire(msg, arrivals), j);
      DeliveredOnWire(msg, arrivals, j);
    }
  }

  // Of the message itself, or with another sequence-zero.
  ghost predicate OwnOrOther(msg: Message, pdu: SegmentedPdu)
    requires msg.Valid()
  {
    pdu.seqZero != Zero(msg) || pdu.segN == msg.SegN()
  }

  // Once a short message's final segment has arrived before another of its segments, the source is
  // stuck for good: whatever arrives from it later, of the message or with another sequence-zero,
  // delivers nothing, and every segment with another sequence-zero is refused.
  lemma StuckForGood(msg: Message, arrivals: seq<Arrival>, later: seq<SegmentedPdu>)
    requires msg.Valid() && msg.SegN() < 8 && From(msg, arrivals) && Stuck(msg, arrivals)
    requires forall pdu | pdu in later :: OwnOrOther(msg, pdu)
    ensures later != [] ==> !Delivers(LastOutcome(Wire(msg, arrivals) + later))
    ensures later != [] && Last(later).seqZero != Zero(msg) ==>
      LastOutcome(Wire(msg, arrivals) + later) == Err(InvalidPDU)
  {
    StuckHasFinal(msg, arrivals);
    ShortRun(msg, arrivals);
    InFlightOfRun(AsContent(msg), Zero(msg), arrivals, Wire(msg, arrivals));
    var f := InFlightAfter(Wire(msg, arrivals)).value;
    assert IsAcked(f.acks, msg.SegN());
    BlockedRun(Wire(msg, arrivals), f, later);
  }

  // ---------------------------------------------------------------- more than eight segments

  ghost predicate EighthMissing(msg: Message, f: Option<Flight>) {
    Sane(f) && (f.Some? ==> f.value.segN == msg.SegN() && !IsAcked(f.value.acks, 8))
  }

  lemma LongStep(msg: Message, f: Option<Flight>, pdu: SegmentedPdu)
    requires msg.SegN() >= 8 && EighthMissing(msg, f)
    requires pdu.segN == msg.SegN() && pdu.segO != 8
    ensures EighthMissing(msg, SoloStep(f, pdu).0) && !Delivers(SoloStep(f, pdu).1)
  {
    NothingAcked(8);
    var acks := if f.Some? then f.value.acks else 0;
    AckSetsOneBit(acks, pdu.segO, 8);
  }

  lemma {:induction false} LongRun(msg: Message, arrivals: seq<Arrival>)
    requires msg.Valid() && msg.SegN() >= 8 && From(msg, arrivals)
    ensures EighthMissing(msg, InFlightAfter(Wire(msg, arrivals)))
    ensures arrivals != [] ==> !Delivers(LastOutcome(Wire(msg, arrivals)))
  {
    if arrivals != [] {
      FrontOfWire(msg, arrivals);
      LongRun(msg, Front(arrivals));
      LostOffset(Last(arrivals).index);
      LongStep(msg, InFlightAfter(Wire(msg, Front(arrivals))), Arrive(msg, Last(arrivals)));
    }
  }

  // No order of arrival ever delivers a message of more than eight segments.
  lemma LongMessageNeverDelivered(msg: Message, arrivals: seq<Arrival>, k: nat)
    requires msg.Valid() && msg.SegN() >= 8 && From(msg, arrivals)
    ensures !DeliveredAt(msg, arrivals, k)
  {
    if k < |arrivals| {
      LongRun(msg, arrivals[..k + 1]);
    }
  }

  // Only the final segment ever completes a message, and its metadata becomes that of the message.
  lemma OnlyTheFinalDelivers(msg: Message, arrivals: seq<Arrival>, k: nat)
    requires msg.Valid() && From(msg, arrivals) && DeliveredAt(msg, arrivals, k)
    ensures arrivals[k].index == msg.SegN() < 8
    ensures LastOutcome(Wire(msg, arrivals[..k + 1])).value.upper == Some(Whole(AsContent(msg), arrivals[k].meta))
  {
    if msg.SegN() >= 8 {
      LongMessageNeverDelivered(msg, arrivals, k);
    } else {
      ShortRun(msg, arrivals[..k + 1]);
      OutcomeOfRun(AsContent(msg), Zero(msg), arrivals[..k + 1], Wire(msg, arrivals[..k + 1]));
      assert msg.SegN() in All(msg.SegN());
    }
  }

  // The messages some order of arrival delivers are exactly those of at most 96 bytes.
  lemma DeliverableIffShort(msg: Message)
    requires msg.Valid()
    ensures (exists arrivals, k :: From(msg, arrivals) && DeliveredAt(msg, arrivals, k)) <==> |msg.payload| <= 96
  {
    if |msg.payload| <= 96 {
      var arrivals := InOrder(msg, msg.SegN());
      assert FinalComesLast(arrivals, msg.SegN(), msg.SegN());
      ShortRun(msg, arrivals);
      DeliveredIfLast(AsContent(msg), Zero(msg), arrivals, Wire(msg, arrivals), msg.SegN());
      DeliveredOnWire(msg, arrivals, msg.SegN());
    } else {
      forall arrivals, k | From(msg, arrivals) ensures !DeliveredAt(msg, arrivals, k) {
        LongMessageNeverDelivered(msg, arrivals, k);
      }
    }
  }

  lemma {:induction false} InOrder(msg: Message, n: nat) returns (arrivals: seq<Arrival>)
    requires n <= msg.SegN()
    ensures From(msg, arrivals) && |arrivals| == n + 1 && arrivals[n].index == n
    ensures n !in Indices(arrivals[..n]) && Indices(arrivals[..n + 1]) == All(n)
  {
    var a := Arrival(n, msg.meta);
    if n == 0 {
      arrivals := [a];
      assert arrivals[..1] == [a];
    } else {
      var before := InOrder(msg, n - 1);
      arrivals := before + [a];
      assert arrivals[..n] == before && before[..n] == before && arrivals[..n + 1] == arrivals;
      assert Front(arrivals) == before;
      IndicesSnoc(arrivals);
    }
  }
}
