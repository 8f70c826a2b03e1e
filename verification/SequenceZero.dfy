/** The header fields that a receiver reads from the segments of a message, as numbers; and how they
    keep the messages of one source apart. */
module SequenceZero {
  import opened Wrappers
  import opened Mesh
  import opened Octets
  import opened InboundSegmentation
  import opened OutboundSegmentation
  import opened Segmentation
  import opened Delivery
  import LowerAccess

  // Sequence-zero as it is read from segment i: the low thirteen bits of the number, with the lowest of
  // them set from the seventeenth segment on.
  function ZeroRead(seqNum: u32, i: nat): nat {
    var low := seqNum % 0x2000;
    if i >= 16 && low % 2 == 0 then low + 1 else low
  }

  // The offset as it is read from segment i.
  function OffsetRead(i: nat): int {
    if i < 8 then i else if i < 16 then i + 8 else if i < 24 then i - 16 else i - 8
  }

  lemma OffsetOctet(o: byte)
    requires o < 32
    ensures LowerAccess.ReceivedSegO(o) == if o < 8 then o else if o < 16 then o + 8 else if o < 24 then o - 16 else o - 8
    ensures LowerAccess.HighBits(o) & 0x04 != 0 <==> o >= 16
  {
  }

  lemma OctetOrder(o: byte)
    requires o < 32
    ensures (o < 8 <==> Number(o) < 8) && (o < 16 <==> Number(o) < 16) && (o < 24 <==> Number(o) < 24)
    ensures Number(o + 8) == Number(o) + 8 && (o >= 16 ==> Number(o - 16) == Number(o) - 16)
    ensures o >= 8 ==> Number(o - 8) == Number(o) - 8
  {
  }

  lemma OffsetNumber(o: byte)
    requires o < 32
    ensures Number(LowerAccess.ReceivedSegO(o)) == OffsetRead(Number(o))
  {
    OffsetOctet(o);
    OctetOrder(o);
  }

  lemma ReadOfZero(z: bv16, o: byte)
    requires o < 32
    ensures LowerAccess.ReceivedSeqZero(z, o) == if o >= 16 then (z & 0x1FFF) | 1 else z & 0x1FFF
  {
    OffsetOctet(o);
  }

  lemma LowOfLow(x: u32, w: nat)
    requires w == x % 0x1_0000
    ensures w % 0x2000 == x % 0x2000
  {
    var q := x / 0x1_0000;
    assert x == 0x2000 * (8 * q) + w;
    MultipleAway(8 * q, w);
  }

  lemma MultipleAway(q: nat, w: nat)
    ensures (0x2000 * q + w) % 0x2000 == w % 0x2000
  {
    var (p, r) := (w / 0x2000, w % 0x2000);
    assert 0x2000 * q + w == 0x2000 * (q + p) + r;
    Remainder(q + p, r);
  }

  lemma ZeroOfLow(seqNum: u32, o: byte, w: nat, low: bv16, read: bv16)
    requires o < 32 && w == seqNum % 0x1_0000 && low as nat == w % 0x2000
    requires read == if o >= 16 then low | 1 else low
    ensures read as nat == ZeroRead(seqNum, Number(o))
  {
    LowOfLow(seqNum, w);
    OctetOrder(o);
    OddWord(low);
  }

  lemma ZeroOfWord(seqNum: u32, o: byte, z: bv16, read: bv16)
    requires o < 32 && z as nat == seqNum % 0x1_0000 && read == LowerAccess.ReceivedSeqZero(z, o)
    ensures read as nat == ZeroRead(seqNum, Number(o))
  {
    LowBits(z);
    ReadOfZero(z, o);
    ZeroOfLow(seqNum, o, z as nat, z & 0x1FFF, read);
  }

  // The fields read from a header, given those that were written, as numbers.
  lemma ReadHeader(s: LowerAccess.Segment, r: LowerAccess.Segment, seqNum: u32)
    requires r == LowerAccess.Received(s) && s.segO < 32 && s.segN < 32 && (s.aid.Some? ==> s.aid.value < 64)
    requires s.seqZero as nat == seqNum % 0x1_0000
    ensures r.seqZero as nat == ZeroRead(seqNum, Number(s.segO)) && Number(r.segO) == OffsetRead(Number(s.segO))
    ensures r.aid == s.aid && r.szmic == s.szmic && r.segN == s.segN && r.segmentM == s.segmentM
  {
    ZeroOfWord(seqNum, s.segO, s.seqZero, r.seqZero);
    OffsetNumber(s.segO);
    if s.aid.Some? { AidFits(s.aid.value); }
    FiveBits(s.segN);
  }

  lemma FiveBits(n: byte)
    requires n < 32
    ensures n & 0x1F == n
  {
  }

  lemma SmallOctet(n: nat)
    requires n < 32
    ensures Number(n as byte) == n && n as byte < 32
  {
  }

  lemma WrittenHeader(p: bytes, aid: Option<byte>, meta: Meta, i: nat)
    requires 15 < |p| <= 380 && i <= (|p| - 1) / 12
    ensures i < ChunkCount(p) <= 32 && ChunkCount(p) == (|p| - 1) / 12 + 1
    ensures var s := SegmentOf(p, aid, meta, i);
      && s.aid == aid && s.szmic == Bit32 && s.seqZero as nat == meta.seqNum % 0x1_0000
      && s.segO < 32 && Number(s.segO) == i && s.segN < 32 && Number(s.segN) == (|p| - 1) / 12
      && s.segmentM == p[12 * i..if 12 * i + 12 <= |p| then 12 * i + 12 else |p|]
  {
    SmallOctet(i);
    SmallOctet(ChunkCount(p) - 1);
    LowWord(meta.seqNum);
  }

  // What a receiver reads from PDU i of a segmented message, whether it is sent for the first time or
  // again: the low bits of the message's number, its offset up to the eighth segment, the number of its
  // last segment, and its twelve octets of the payload.
  lemma HeaderOnAir(p: bytes, aid: Option<byte>, meta: Meta, counter: u32, isRetransmit: bool, i: nat)
    requires 15 < |p| <= 380 && (aid.Some? ==> aid.value < 64) && i <= (|p| - 1) / 12
    ensures var sent := Outbound(p, aid, meta, counter, isRetransmit);
      && sent.Ok? && |sent.value| == (|p| - 1) / 12 + 1
      && var r := LowerAccess.Parse(sent.value[i].transport);
         && r.Ok? && r.value.aid == aid && r.value.szmic == Bit32
         && r.value.seqZero as nat == ZeroRead(meta.seqNum, i) && Number(r.value.segO) == OffsetRead(i)
         && Number(r.value.segN) == (|p| - 1) / 12
         && r.value.segmentM == p[12 * i..if 12 * i + 12 <= |p| then 12 * i + 12 else |p|]
  {
    WrittenHeader(p, aid, meta, i);
    var s := SegmentOf(p, aid, meta, i);
    LowerAccess.ParseOfEmit(s);
    ReadHeader(s, LowerAccess.Received(s), meta.seqNum);
  }

  // ---------------------------------------------------------------- two messages of one source

  lemma ZeroOfMessage(msg: Message, z: bv16, zero: bv16)
    requires z == SeqZeroOf(msg.meta.seqNum) && zero == z & 0x1FFF
    ensures zero as nat == msg.meta.seqNum % 0x2000
  {
    LowWord(msg.meta.seqNum);
    LowBits(z);
    LowOfLow(msg.meta.seqNum, z as nat);
  }

  lemma ZeroOfArrival(msg: Message, a: Arrival, zero: bv16)
    requires msg.Valid() && a.index <= msg.SegN() && zero == Arrive(msg, a).seqZero
    ensures zero as nat == ZeroRead(msg.meta.seqNum, a.index)
  {
    SmallOctet(a.index);
    LowWord(msg.meta.seqNum);
    ZeroOfWord(msg.meta.seqNum, a.index as byte, SeqZeroOf(msg.meta.seqNum), zero);
  }

  lemma RefusedIffOther(f: Flight, pdu: SegmentedPdu)
    requires f.WellFormed() && f.kind == pdu.kind
    ensures SoloStep(Some(f), pdu) == (Some(f), Err(InvalidPDU)) <==> pdu.seqZero != f.seqZero
  {
  }

  // While segments of one message are in flight, a segment of another is refused exactly when the two
  // numbers differ in their low thirteen bits; otherwise it is taken for a segment of the first.
  lemma MessagesKeptApart(first: Message, arrivals: seq<Arrival>, second: Message, a: Arrival)
    requires first.Valid() && first.SegN() < 8 && From(first, arrivals) && InFlightAfter(Wire(first, arrivals)).Some?
    requires second.Valid() && a.index <= second.SegN() && a.index < 16
    ensures var f := InFlightAfter(Wire(first, arrivals));
      SoloStep(f, Arrive(second, a)) == (f, Err(InvalidPDU)) <==> first.meta.seqNum % 0x2000 != second.meta.seqNum % 0x2000
  {
    var f, pdu := InFlightAfter(Wire(first, arrivals)).value, Arrive(second, a);
    ShortRun(first, arrivals);
    InFlightOfRun(AsContent(first), Zero(first), arrivals, Wire(first, arrivals));
    ZeroOfMessage(first, SeqZeroOf(first.meta.seqNum), f.seqZero);
    ZeroOfArrival(second, a, pdu.seqZero);
    SameWord(f.seqZero, pdu.seqZero);
    RefusedIffOther(f, pdu);
  }
}
