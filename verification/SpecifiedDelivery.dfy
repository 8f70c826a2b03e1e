/** Segmented messages under the device key, with reassembly as specified and the metadata of the first
    segment for the upper layer: what the code of system.rs would have to hand up. */
module SpecifiedDelivery {
  import opened Wrappers
  import opened Mesh
  import opened Nonce
  import opened NetworkLayer
  import opened DeviceMessages
  import opened SpecifiedReassembly
  import I = InboundSegmentation
  import S = Segmentation
  import D = Delivery
  import Opcode

  // The metadata that came with the latest first segment.
  function FirstMeta(pdus: seq<I.SegmentedPdu>): Option<Meta> {
    if pdus == [] then None else if Last(pdus).segO == 0 then Some(Last(pdus).meta) else FirstMeta(Front(pdus))
  }

  // The last segment completes the message, and with the metadata of the first it opens.
  ghost predicate Understood(c: Crypto, deviceKey: nat, m: AccessMessage, pdus: seq<I.SegmentedPdu>) {
    && pdus != [] && D.Delivers(LastResult(pdus)) && FirstMeta(pdus).Some?
    && var upper := LastResult(pdus).value.upper.value.(meta := FirstMeta(pdus).value);
       upper.UpperAccess? && DecryptAccess(c, deviceKey, upper) == Ok(m)
  }

  ghost predicate UnderstoodAt(c: Crypto, deviceKey: nat, m: AccessMessage, pdus: seq<I.SegmentedPdu>, k: nat) {
    k < |pdus| && Understood(c, deviceKey, m, pdus[..k + 1])
  }

  function Offsets(pdus: seq<I.SegmentedPdu>): set<nat> { set pdu | pdu in pdus :: pdu.segO as nat }

  lemma OffsetsSnoc(pdus: seq<I.SegmentedPdu>)
    requires pdus != []
    ensures Offsets(pdus) == Offsets(Front(pdus)) + {Last(pdus).segO}
  {
    assert pdus == Front(pdus) + [Last(pdus)];
  }

  // Once every segment has arrived, some segment completed the message.
  lemma {:induction false} SomeCompletes(pdus: seq<I.SegmentedPdu>, n: nat) returns (k: nat)
    requires Offsets(pdus) <= D.All(n)
    ensures k <= |pdus|
    ensures k == |pdus| ==> Arrived(pdus, n) == Offsets(pdus)
    ensures k < |pdus| ==> Arrived(pdus[..k], n) + {pdus[k].segO} == D.All(n)
  {
    k := 0;
    if pdus != [] {
      OffsetsSnoc(pdus);
      k := SomeCompletes(Front(pdus), n);
      if k < |pdus| - 1 {
        assert Front(pdus)[..k] == pdus[..k];
      } else {
        assert pdus[..k] == Front(pdus);
        k := if Arrived(Front(pdus), n) + {Last(pdus).segO} == D.All(n) then k else |pdus|;
      }
    }
  }

  // The first segment of a message that has been completed came with the number of the nonce.
  lemma {:induction false} FirstMetaIsFirst(m: AccessMessage, seqNum: u32, arrivals: seq<S.Arrival>,
                                            pdus: seq<I.SegmentedPdu>)
    requires |pdus| == |arrivals| && Honest(m, seqNum, arrivals)
    requires forall k | 0 <= k < |pdus| :: pdus[k].segO == arrivals[k].index && pdus[k].meta == arrivals[k].meta
    ensures FirstMeta(pdus) == if 0 in Offsets(pdus) then Some(m.MetaWith(Low24(seqNum))) else None
  {
    if pdus != [] {
      var (a, pdu) := (Last(arrivals), Last(pdus));
      OffsetsSnoc(pdus);
      assert a in arrivals && forall x | x in Front(arrivals) :: x in arrivals;
      FirstMetaIsFirst(m, seqNum, Front(arrivals), Front(pdus));
    }
  }

  lemma {:induction false} ArrivedIsOffset(pdus: seq<I.SegmentedPdu>, n: nat)
    ensures Arrived(pdus, n) <= Offsets(pdus)
  {
    if pdus != [] {
      OffsetsSnoc(pdus);
      ArrivedIsOffset(Front(pdus), n);
    }
  }

  lemma OpensWithFirst(c: Crypto, deviceKey: nat, m: AccessMessage, seqNum: u32)
    requires Lawful(c) && 11 < |m.Payload()| <= 376
    ensures Segmented(c, deviceKey, m, seqNum).Valid()
    ensures DecryptAccess(c, deviceKey, D.Whole(D.AsContent(Segmented(c, deviceKey, m, seqNum)), m.MetaWith(Low24(seqNum)))) == Ok(m)
       <==> Opcode.Survives(m.opcode)
  {
    OpensOwn(c, deviceKey, m, seqNum, Low24(seqNum), |m.Payload()|);
    Opcode.SplitOfEmit(m.opcode, m.parameters);
  }

  // Segments of the encrypted message arrive, with the metadata of the PDUs that carried them.
  ghost predicate OnAir(c: Crypto, deviceKey: nat, m: AccessMessage, seqNum: u32,
                        arrivals: seq<S.Arrival>, pdus: seq<I.SegmentedPdu>) {
    && Lawful(c) && 11 < |m.Payload()| <= 376 && Segmented(c, deviceKey, m, seqNum).Valid()
    && D.From(Segmented(c, deviceKey, m, seqNum), arrivals) && Honest(m, seqNum, arrivals)
    && Received(Segmented(c, deviceKey, m, seqNum), arrivals, pdus)
  }

  lemma OnAirPrefix(c: Crypto, deviceKey: nat, m: AccessMessage, seqNum: u32,
                    arrivals: seq<S.Arrival>, pdus: seq<I.SegmentedPdu>, k: nat)
    requires OnAir(c, deviceKey, m, seqNum, arrivals, pdus) && k < |pdus|
    ensures OnAir(c, deviceKey, m, seqNum, arrivals[..k + 1], pdus[..k + 1])
    ensures Front(pdus[..k + 1]) == pdus[..k] && Last(pdus[..k + 1]) == pdus[k]
  {
    assert forall x | x in arrivals[..k + 1] :: x in arrivals;
  }

  lemma MetaWhenComplete(m: AccessMessage, seqNum: u32, arrivals: seq<S.Arrival>, pdus: seq<I.SegmentedPdu>, n: nat)
    requires |pdus| == |arrivals| && Honest(m, seqNum, arrivals) && pdus != []
    requires forall k | 0 <= k < |pdus| :: pdus[k].segO == arrivals[k].index && pdus[k].meta == arrivals[k].meta
    requires Arrived(Front(pdus), n) + {Last(pdus).segO} == D.All(n)
    ensures FirstMeta(pdus) == Some(m.MetaWith(Low24(seqNum)))
  {
    FirstMetaIsFirst(m, seqNum, arrivals, pdus);
    OffsetsSnoc(pdus);
    ArrivedIsOffset(Front(pdus), n);
    assert 0 in D.All(n);
  }

  // Whatever the order of arrival: each time the message is complete, it is understood exactly when its
  // opcode survives.
  lemma UnderstoodWhenComplete(c: Crypto, deviceKey: nat, m: AccessMessage, seqNum: u32,
                               arrivals: seq<S.Arrival>, pdus: seq<I.SegmentedPdu>)
    requires OnAir(c, deviceKey, m, seqNum, arrivals, pdus) && pdus != []
    ensures var n := Segmented(c, deviceKey, m, seqNum).SegN();
      Understood(c, deviceKey, m, pdus) <==>
        Arrived(Front(pdus), n) + {Last(pdus).segO} == D.All(n) && Opcode.Survives(m.opcode)
  {
    var msg := Segmented(c, deviceKey, m, seqNum);
    ReceivedCarries(msg, arrivals, pdus);
    LastSegment(D.AsContent(msg), D.Zero(msg), pdus);
    if Arrived(Front(pdus), msg.SegN()) + {Last(pdus).segO} == D.All(msg.SegN()) {
      MetaWhenComplete(m, seqNum, arrivals, pdus, msg.SegN());
      OpensWithFirst(c, deviceKey, m, seqNum);
    }
  }

  lemma OffsetsAreIndices(arrivals: seq<S.Arrival>, pdus: seq<I.SegmentedPdu>)
    requires |pdus| == |arrivals| && forall k | 0 <= k < |pdus| :: pdus[k].segO == arrivals[k].index
    ensures Offsets(pdus) == D.Indices(arrivals)
  {
    forall x | x in D.Indices(arrivals) ensures x in Offsets(pdus) {
      var k :| 0 <= k < |arrivals| && arrivals[k].index == x;
      assert pdus[k] in pdus;
    }
    forall x | x in Offsets(pdus) ensures x in D.Indices(arrivals) {
      var k :| 0 <= k < |pdus| && pdus[k].segO == x;
      assert arrivals[k] in arrivals;
    }
  }

  lemma CompletesOnAir(c: Crypto, deviceKey: nat, m: AccessMessage, seqNum: u32,
                       arrivals: seq<S.Arrival>, pdus: seq<I.SegmentedPdu>) returns (k: nat)
    requires OnAir(c, deviceKey, m, seqNum, arrivals, pdus)
    requires D.Indices(arrivals) == D.All(Segmented(c, deviceKey, m, seqNum).SegN())
    ensures var n := Segmented(c, deviceKey, m, seqNum).SegN();
      k < |pdus| && Arrived(pdus[..k], n) + {pdus[k].segO} == D.All(n)
  {
    var msg := Segmented(c, deviceKey, m, seqNum);
    ReceivedCarries(msg, arrivals, pdus);
    OffsetsAreIndices(arrivals, pdus);
    HoldsAfter(D.AsContent(msg), D.Zero(msg), pdus);
    k := SomeCompletes(pdus, msg.SegN());
  }

  // A segmented message of which every segment arrives, in any order and as often as it likes, is
  // received exactly when its opcode survives.
  lemma ReceivedInAnyOrder(c: Crypto, deviceKey: nat, m: AccessMessage, seqNum: u32,
                           arrivals: seq<S.Arrival>, pdus: seq<I.SegmentedPdu>)
    requires OnAir(c, deviceKey, m, seqNum, arrivals, pdus)
    requires D.Indices(arrivals) == D.All(Segmented(c, deviceKey, m, seqNum).SegN())
    ensures (exists k: nat :: UnderstoodAt(c, deviceKey, m, pdus, k)) <==> Opcode.Survives(m.opcode)
  {
    forall k: nat | UnderstoodAt(c, deviceKey, m, pdus, k) ensures Opcode.Survives(m.opcode) {
      OnAirPrefix(c, deviceKey, m, seqNum, arrivals, pdus, k);
      UnderstoodWhenComplete(c, deviceKey, m, seqNum, arrivals[..k + 1], pdus[..k + 1]);
    }
    var k := CompletesOnAir(c, deviceKey, m, seqNum, arrivals, pdus);
    OnAirPrefix(c, deviceKey, m, seqNum, arrivals, pdus, k);
    UnderstoodWhenComplete(c, deviceKey, m, seqNum, arrivals[..k + 1], pdus[..k + 1]);
    assert Opcode.Survives(m.opcode) ==> UnderstoodAt(c, deviceKey, m, pdus, k);
  }
}
