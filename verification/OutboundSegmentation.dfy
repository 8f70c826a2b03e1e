/** The outbound half of the lower transport layer: cutting an upper PDU into network PDUs. */
module OutboundSegmentation {
  import opened Wrappers
  import opened Mesh
  import opened Counter
  import opened Octets
  import LowerAccess

  datatype CleartextPdu = CleartextPdu(transport: bytes, meta: Meta)

  const SEGMENTED_MTU: nat := 12
  const UNSEGMENTED_MTU: nat := 15
  const PAYLOAD_CAPACITY: nat := 380

  // The number of chunks of at most twelve bytes, and the i-th of them.
  function ChunkCount(p: bytes): nat { (|p| + SEGMENTED_MTU - 1) / SEGMENTED_MTU }

  function Chunk(p: bytes, i: nat): (c: bytes)
    requires i < ChunkCount(p)
    ensures 0 < |c| <= SEGMENTED_MTU
    ensures i + 1 < ChunkCount(p) ==> |c| == SEGMENTED_MTU
    ensures SEGMENTED_MTU * i + |c| <= |p|
    ensures i + 1 == ChunkCount(p) ==> SEGMENTED_MTU * i + |c| == |p|
  {
    var end := SEGMENTED_MTU * (i + 1);
    p[SEGMENTED_MTU * i..if end <= |p| then end else |p|]
  }

  // The low sixteen bits of the sequence number; the header keeps thirteen of them.
  function SeqZeroOf(seqNum: u32): bv16 { Word(Octet(seqNum / 0x100 % 0x100), Octet(seqNum % 0x100)) }

  function SegmentOf(p: bytes, aid: Option<byte>, meta: Meta, i: nat): (s: LowerAccess.Segment)
    requires i < ChunkCount(p) <= 32
    ensures |s.segmentM| <= LowerAccess.SEGMENT_SIZE
  {
    LowerAccess.Segment(aid, Bit32, SeqZeroOf(meta.seqNum), i as byte, (ChunkCount(p) - 1) as byte, Chunk(p, i))
  }

  // How many numbers a message of this payload takes from the counter when it is segmented.
  function NumbersTaken(p: bytes, isRetransmit: bool): nat {
    if |p| <= UNSEGMENTED_MTU then 0
    else if isRetransmit then ChunkCount(p)
    else ChunkCount(p) - 1
  }

  // The sequence number of network PDU i of the message, when the counter stands at `counter`.
  function NumberOf(meta: Meta, counter: u32, isRetransmit: bool, i: nat): u32 {
    if isRetransmit then After(counter, i)
    else if i == 0 then meta.seqNum
    else After(counter, i - 1)
  }

  function PduOf(p: bytes, aid: Option<byte>, meta: Meta, counter: u32, isRetransmit: bool, i: nat): CleartextPdu
    requires i < ChunkCount(p) <= 32
  {
    CleartextPdu(LowerAccess.Emit(SegmentOf(p, aid, meta, i)),
                 meta.(seqNum := NumberOf(meta, counter, isRetransmit, i)))
  }

  function UnsegmentedPdu(p: bytes, aid: Option<byte>, meta: Meta): CleartextPdu {
    CleartextPdu([LowerAccess.EmitAid(aid)] + p, meta)
  }

  function SegmentedPdus(p: bytes, aid: Option<byte>, meta: Meta, counter: u32,
                         isRetransmit: bool): (r: seq<CleartextPdu>)
    requires ChunkCount(p) <= 32
    ensures |r| == ChunkCount(p)
    ensures forall i | 0 <= i < |r| :: r[i] == PduOf(p, aid, meta, counter, isRetransmit, i)
  {
    seq(ChunkCount(p), i requires 0 <= i < ChunkCount(p) => PduOf(p, aid, meta, counter, isRetransmit, i))
  }

  function Outbound(p: bytes, aid: Option<byte>, meta: Meta, counter: u32, isRetransmit: bool)
    : Result<seq<CleartextPdu>, DriverError>
  {
    if |p| > PAYLOAD_CAPACITY then Err(InsufficientSpace)
    else if |p| <= UNSEGMENTED_MTU then Ok([UnsegmentedPdu(p, aid, meta)])
    else Ok(SegmentedPdus(p, aid, meta, counter, isRetransmit))
  }

  method EmitSegment(p: bytes, aid: Option<byte>, meta: Meta, segO: nat, seqNum: u32,
                     ghost counter: u32, ghost isRetransmit: bool)
    returns (pdu: CleartextPdu)
    requires segO < ChunkCount(p) <= 32
    requires seqNum == NumberOf(meta, counter, isRetransmit, segO)
    ensures pdu == SegmentedPdus(p, aid, meta, counter, isRetransmit)[segO]
  {
    var segment := SegmentOf(p, aid, meta, segO);
    pdu := CleartextPdu(LowerAccess.Emit(segment), meta.(seqNum := seqNum));
  }

  // How many numbers the segments before segO have taken from the counter.
  function TakenBefore(isRetransmit: bool, segO: nat): nat { if isRetransmit || segO == 0 then segO else segO - 1 }

  method TakeNumber(sequence: Sequence, meta: Meta, isRetransmit: bool, segO: nat, ghost counter: u32)
    returns (seqNum: u32)
    requires sequence.seqNum == After(counter, TakenBefore(isRetransmit, segO))
    modifies sequence
    ensures seqNum == NumberOf(meta, counter, isRetransmit, segO)
    ensures sequence.seqNum == After(counter, TakenBefore(isRetransmit, segO + 1))
  {
    if !isRetransmit && segO == 0 { return meta.seqNum; }
    seqNum := sequence.Next();
  }

  method EmitSegments(sequence: Sequence, p: bytes, aid: Option<byte>, meta: Meta, isRetransmit: bool)
    returns (pdus: seq<CleartextPdu>)
    requires ChunkCount(p) <= 32
    modifies sequence
    ensures pdus == SegmentedPdus(p, aid, meta, old(sequence.seqNum), isRetransmit)
    ensures sequence.seqNum == After(old(sequence.seqNum), TakenBefore(isRetransmit, ChunkCount(p)))
  {
    pdus := [];
    ghost var counter := sequence.seqNum;
    ghost var all := SegmentedPdus(p, aid, meta, counter, isRetransmit);
    for segO := 0 to ChunkCount(p)
      invariant pdus == all[..segO]
      invariant sequence.seqNum == After(counter, TakenBefore(isRetransmit, segO))
    {
      var seqNum := TakeNumber(sequence, meta, isRetransmit, segO, counter);
      var pdu := EmitSegment(p, aid, meta, segO, seqNum, counter, isRetransmit);
      pdus := pdus + [pdu];
    }
    assert all[..ChunkCount(p)] == all;
  }

  // Cuts the payload (with its MIC) into network PDUs, taking one sequence number for each of them
  // except the first PDU of a first transmission, which carries the number of the upper nonce.
  method Process(sequence: Sequence, p: bytes, aid: Option<byte>, meta: Meta, isRetransmit: bool)
    returns (result: Result<seq<CleartextPdu>, DriverError>)
    modifies sequence
    ensures result == Outbound(p, aid, meta, old(sequence.seqNum), isRetransmit)
    ensures sequence.seqNum == After(old(sequence.seqNum), if result.Ok? then NumbersTaken(p, isRetransmit) else 0)
  {
    if |p| > PAYLOAD_CAPACITY { return Err(InsufficientSpace); }
    if |p| <= UNSEGMENTED_MTU { return Ok([UnsegmentedPdu(p, aid, meta)]); }
    var pdus := EmitSegments(sequence, p, aid, meta, isRetransmit);
    return Ok(pdus);
  }

  // The chunks put together are the payload: nothing is lost or repeated at the cuts.
  function Joined(p: bytes, k: nat): bytes
    requires k <= ChunkCount(p)
  {
    if k == 0 then [] else Joined(p, k - 1) + Chunk(p, k - 1)
  }

  lemma {:induction false} JoinedIsPrefix(p: bytes, k: nat)
    requires k <= ChunkCount(p)
    ensures Joined(p, k) == p[..if SEGMENTED_MTU * k <= |p| then SEGMENTED_MTU * k else |p|]
  {
    if k > 0 { JoinedIsPrefix(p, k - 1); }
  }

  lemma ChunksJoin(p: bytes)
    ensures Joined(p, ChunkCount(p)) == p
  {
    JoinedIsPrefix(p, ChunkCount(p));
  }

  // ---------------------------------------------------------------- in numbers

  // The numbers of the PDUs of a segmented message, and how far the counter moves: a retransmission
  // takes one for each segment, a first transmission none for the first.
  lemma NumbersOnAir(p: bytes, aid: Option<byte>, meta: Meta, counter: u32, isRetransmit: bool, i: nat)
    requires 15 < |p| <= 380 && i <= (|p| - 1) / 12 && counter + 32 < 0x1_0000_0000
    ensures var sent := Outbound(p, aid, meta, counter, isRetransmit);
      && sent.Ok? && |sent.value| == (|p| - 1) / 12 + 1
      && sent.value[i].meta == meta.(seqNum := if isRetransmit then counter + i
                                               else if i == 0 then meta.seqNum else counter + i - 1)
    ensures After(counter, NumbersTaken(p, isRetransmit)) == counter + (|p| - 1) / 12 + if isRetransmit then 1 else 0
  {
    assert ChunkCount(p) == (|p| - 1) / 12 + 1;
    AfterIsSum(counter, i);
    if i > 0 { AfterIsSum(counter, i - 1); }
    AfterIsSum(counter, NumbersTaken(p, isRetransmit));
  }

  // Up to fifteen octets go out in one PDU, under the number of the message and behind an octet with the
  // key's six bits, and take no further number; more than 380 do not fit.
  lemma OutboundLimits(p: bytes, aid: Option<byte>, meta: Meta, counter: u32, isRetransmit: bool)
    requires aid.Some? ==> aid.value < 0x40
    ensures var sent := Outbound(p, aid, meta, counter, isRetransmit);
      && (sent == Err(InsufficientSpace) <==> |p| > 380) && (sent.Err? ==> |p| > 380)
      && (|p| <= 15 ==>
          && sent.value == [CleartextPdu([if aid.Some? then aid.value + 0x40 else 0] + p, meta)]
          && NumbersTaken(p, isRetransmit) == 0)
  {
    if aid.Some? { KeyOctet(aid.value); }
  }

  lemma KeyOctet(a: byte)
    requires a < 0x40
    ensures LowerAccess.EmitAid(Some(a)) == a + 0x40
  {
  }
}
