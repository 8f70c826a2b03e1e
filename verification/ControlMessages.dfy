/** Control messages in segments, from their octets to what reassembly hands up. */
module ControlMessages {
  import opened Wrappers
  import opened Mesh
  import opened Octets
  import opened InboundSegmentation
  import opened Segmentation
  import opened Delivery
  import opened LowerControl

  // The transport PDU of segment i of a control message, under the sequence-zero z: a set bit and the
  // opcode, thirteen bits of z, five of i, five of the last offset, and eight octets or what is left.
  ghost predicate IsSegment(m: Content, z: nat, i: nat, d: bytes)
    requires m.Valid() && m.kind.Control?
  {
    && i <= m.SegN() && |d| >= 4 && d[4..] == m.Part(i)
    && Number(d[0]) == 0x80 + Number(m.kind.opcode)
    && z == 0x40 * (Number(d[1]) % 0x80) + Number(d[2]) / 4
    && i == 8 * (Number(d[2]) % 4) + Number(d[3]) / 0x20
    && m.SegN() == Number(d[3]) % 0x20
  }

  predicate IsControl(m: Content) { m.kind.Control? && Number(m.kind.opcode) <= 10 && m.aid.None? }

  lemma SegmentIsRead(m: Content, z: bv16, i: nat, d: bytes, meta: Meta)
    requires m.Valid() && IsControl(m) && IsSegment(m, z as nat, i, d)
    ensures ParseSegment(d, meta).Ok?
    ensures Carries(m, z, ParseSegment(d, meta).value, i) && ParseSegment(d, meta).value.meta == meta
  {
    SegmentOctets(d, meta);
    var s := ParseSegment(d, meta).value;
    SameWord(s.seqZero, z);
    SameNumber(s.kind.opcode, m.kind.opcode);
  }

  // The octets that arrive, each a segment of the message.
  ghost predicate Heard(m: Content, z: bv16, arrivals: seq<Arrival>, octets: seq<bytes>)
    requires m.Valid() && m.kind.Control?
  {
    && |octets| == |arrivals|
    && forall k | 0 <= k < |octets| :: IsSegment(m, z as nat, arrivals[k].index, octets[k])
  }

  function Parsed(arrivals: seq<Arrival>, octets: seq<bytes>): (pdus: seq<SegmentedPdu>)
    requires |octets| == |arrivals|
    requires forall k | 0 <= k < |octets| :: octets[k] != [] && ParseSegment(octets[k], arrivals[k].meta).Ok?
  {
    seq(|octets|, k requires 0 <= k < |octets| => ParseSegment(octets[k], arrivals[k].meta).value)
  }

  // A control message of up to 256 octets in up to thirty-two segments is delivered exactly when its
  // final segment first arrives after all the others.
  lemma ControlDelivered(m: Content, z: bv16, arrivals: seq<Arrival>, octets: seq<bytes>)
    requires m.Valid() && IsControl(m) && Heard(m, z, arrivals, octets)
    ensures forall k | 0 <= k < |octets| :: octets[k] != [] && ParseSegment(octets[k], arrivals[k].meta).Ok?
    ensures (exists k :: DeliveredIn(Parsed(arrivals, octets), k)) <==> (exists k :: FinalComesLast(arrivals, m.SegN(), k))
  {
    forall k | 0 <= k < |octets|
      ensures octets[k] != [] && ParseSegment(octets[k], arrivals[k].meta).Ok?
      ensures Carries(m, z, ParseSegment(octets[k], arrivals[k].meta).value, arrivals[k].index)
      ensures ParseSegment(octets[k], arrivals[k].meta).value.meta == arrivals[k].meta
    {
      SegmentIsRead(m, z, arrivals[k].index, octets[k], arrivals[k].meta);
    }
    SegmentsDelivered(m, z, arrivals, Parsed(arrivals, octets));
  }
}
