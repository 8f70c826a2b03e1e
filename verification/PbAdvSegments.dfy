/** Provisioning PDUs cut into advertising-bearer transactions, and put together again. */
module PbAdvSegments {
  import opened Wrappers
  import opened Mesh
  import Fcs

  datatype GenericPdu =
    | TransactionStart(segN: u8, totalLen: nat, fcs: byte, data: bytes)
    | TransactionContinuation(segmentIndex: u8, data: bytes)
    | TransactionAck
    | LinkOpen(uuid: bytes)
    | LinkAck
    | LinkClose(reason: byte)

  const START_MTU: nat := 20
  const CONTINUATION_MTU: nat := 23
  const PDU_CAPACITY: nat := 128

  // ---------------------------------------------------------------- outbound

  // Where chunk i starts; the first chunk is shorter than the others.
  function Offset(i: nat): nat { if i == 0 then 0 else START_MTU + (i - 1) * CONTINUATION_MTU }

  function ChunkCount(p: bytes): nat {
    if |p| <= START_MTU then 1 else 1 + (|p| - START_MTU + CONTINUATION_MTU - 1) / CONTINUATION_MTU
  }

  lemma ChunkCountBound(p: bytes)
    requires |p| <= PDU_CAPACITY
    ensures ChunkCount(p) <= 6
  {
  }

  function Chunk(p: bytes, i: nat): (c: bytes)
    requires i < ChunkCount(p)
    ensures Offset(i) + |c| <= |p|
    ensures i + 1 < ChunkCount(p) ==> Offset(i) + |c| == Offset(i + 1)
    ensures i + 1 == ChunkCount(p) ==> Offset(i) + |c| == |p|
    ensures |c| <= if i == 0 then START_MTU else CONTINUATION_MTU
    ensures p != [] ==> c != []
  {
    p[Offset(i)..if Offset(i + 1) <= |p| then Offset(i + 1) else |p|]
  }

  function Piece(p: bytes, i: nat): GenericPdu
    requires i < ChunkCount(p) && |p| <= PDU_CAPACITY
  {
    ChunkCountBound(p);
    if i == 0 then TransactionStart(ChunkCount(p) - 1, |p|, Fcs.Of(p), Chunk(p, 0))
    else TransactionContinuation(i, Chunk(p, i))
  }

  // OutboundSegments and its iterator: the encoded PDU, and how much of it has been handed out.
  class OutboundSegments {
    const pdu: bytes
    var numSegments: u8
    var fcs: byte

    ghost predicate Valid()
      reads this
    {
      |pdu| <= PDU_CAPACITY && numSegments == ChunkCount(pdu) && fcs == Fcs.Of(pdu)
    }

    constructor (pdu: bytes)
      requires |pdu| <= PDU_CAPACITY
      ensures Valid() && this.pdu == pdu
    {
      this.pdu := pdu;
      new;
      fcs := Fcs.Compute(pdu);
      ChunkCountBound(pdu);
      numSegments := NumChunks(pdu);
    }
  }

  method NumChunks(pdu: bytes) returns (numChunks: nat)
    ensures numChunks == ChunkCount(pdu)
  {
    var len := |pdu|;
    if len <= START_MTU { return 1; }
    numChunks := 1;
    len := len - START_MTU;
    while len > 0
      invariant 0 < len
      invariant numChunks + (len + CONTINUATION_MTU - 1) / CONTINUATION_MTU == ChunkCount(pdu)
      decreases len
    {
      numChunks := numChunks + 1;
      if len > CONTINUATION_MTU {
        len := len - CONTINUATION_MTU;
      } else {
        break;
      }
    }
  }

  class OutboundSegmentsIter {
    const segments: OutboundSegments
    var cur: nat

    constructor (segments: OutboundSegments)
      ensures this.segments == segments && cur == 0
    {
      this.segments, cur := segments, 0;
    }

    method Next() returns (item: Option<GenericPdu>)
      requires segments.Valid()
      modifies this
      ensures cur == old(cur) + 1
      ensures item == if old(cur) < ChunkCount(segments.pdu) then Some(Piece(segments.pdu, old(cur))) else None
    {
      var pdu, i := segments.pdu, cur;
      cur := cur + 1;
      if i == 0 {
        var chunk := if |pdu| <= START_MTU then pdu else pdu[0..START_MTU];
        assert chunk == Chunk(pdu, 0);
        return Some(TransactionStart(segments.numSegments - 1, |pdu|, segments.fcs, chunk));
      }
      var chunkStart := START_MTU + (i - 1) * CONTINUATION_MTU;
      if chunkStart >= |pdu| { return None; }
      ChunkCountBound(pdu);
      var chunkEnd := chunkStart + CONTINUATION_MTU;
      var chunk := if chunkEnd <= |pdu| then pdu[chunkStart..chunkEnd] else pdu[chunkStart..];
      assert chunk == Chunk(pdu, i);
      return Some(TransactionContinuation(i, chunk));
    }
  }

  // ---------------------------------------------------------------- inbound

  // The slots of a transaction being collected.
  type Slots = seq<Option<bytes>>

  const MAX_SLOTS: nat := 32
  const JOIN_CAPACITY: nat := 1024

  predicate Full(slots: Slots) { forall i | 0 <= i < |slots| :: slots[i].Some? }

  function Join(slots: Slots): bytes {
    if slots == [] then []
    else Join(Front(slots)) + (if Last(slots).Some? then Last(slots).value else [])
  }

  function NewSlots(segN: u8, data: bytes): (slots: Slots)
    ensures |slots| == segN + 1 && slots[0] == Some(data)
    ensures forall i | 1 <= i < |slots| :: slots[i] == None
  {
    [Some(data)] + seq(segN, _ => None)
  }

  datatype Outcome<+T> = Passed(pdu: T) | Nothing | Panicked

  // One segment of a transaction, with what has been collected so far. A transaction that does not
  // decode stays collected; an index past the announced number of segments is a Rust panic.
  function Collect<T>(buffer: Option<Slots>, pdu: GenericPdu, parse: bytes -> Option<T>): (Option<Slots>, Outcome<T>) {
    match pdu
    case TransactionStart(segN, _, _, data) =>
      if segN == 0 then
        (buffer, match parse(data) case Some(t) => Passed(t) case None => Nothing)
      else if buffer.None? && segN < MAX_SLOTS then (Some(NewSlots(segN, data)), Nothing)
      else (buffer, Nothing)
    case TransactionContinuation(i, data) =>
      if buffer.None? then (None, Nothing)
      else if i >= |buffer.value| then (buffer, Panicked)
      else
        var slots := if buffer.value[i].None? then buffer.value[i := Some(data)] else buffer.value;
        if !Full(slots) || |Join(slots)| > JOIN_CAPACITY then (Some(slots), Nothing)
        else
          Decide(slots, parse(Join(slots)))
    case _ => (buffer, Nothing)
  }

  function Decide<T>(slots: Slots, parsed: Option<T>): (Option<Slots>, Outcome<T>) {
    match parsed
    case None => (Some(slots), Nothing)
    case Some(t) => (None, Passed(t))
  }

  class InboundSegments {
    var segments: Slots

    constructor (segN: u8, data: bytes)
      requires segN < MAX_SLOTS
      ensures segments == NewSlots(segN, data)
    {
      segments := [];
      new;
      for i := 0 to segN + 1
        invariant |segments| == i && forall k | 0 <= k < i :: segments[k] == None
      {
        segments := segments + [None];
      }
      segments := segments[0 := Some(data)];
    }

    method IsComplete() returns (complete: bool)
      ensures complete <==> Full(segments)
    {
      for i := 0 to |segments|
        invariant forall k | 0 <= k < i :: segments[k].Some?
      {
        if segments[i].None? { return false; }
      }
      return true;
    }

    // Appends the chunks; fails when the destination is too small.
    method Fill() returns (data: Option<bytes>)
      requires Full(segments)
      ensures data == if |Join(segments)| <= JOIN_CAPACITY then Some(Join(segments)) else None
    {
      var filled: bytes := [];
      for i := 0 to |segments|
        invariant filled == Join(segments[..i]) && |filled| <= JOIN_CAPACITY
      {
        assert Front(segments[..i + 1]) == segments[..i];
        filled := filled + segments[i].value;
        if |filled| > JOIN_CAPACITY {
          JoinGrows(segments, i + 1);
          return None;
        }
      }
      assert segments[..|segments|] == segments;
      return Some(filled);
    }

    method Receive<T>(i: u8, data: bytes, parse: bytes -> Option<T>) returns (outcome: Outcome<T>)
      modifies this
      ensures Collect(Some(old(segments)), TransactionContinuation(i, data), parse)
           == (if outcome.Passed? then None else Some(segments), outcome)
    {
      if i >= |segments| { return Panicked; }
      if segments[i].None? {
        segments := segments[i := Some(data)];
      }
      var complete := IsComplete();
      if !complete { return Nothing; }
      var filled := Fill();
      match filled
      case None => return Nothing;
      case Some(d) =>
        match parse(d)
        case None => return Nothing;
        case Some(t) => return Passed(t);
    }
  }

  lemma {:induction false} JoinGrows(slots: Slots, k: nat)
    requires k <= |slots|
    ensures |Join(slots[..k])| <= |Join(slots)|
    decreases |slots| - k
  {
    if k < |slots| {
      assert Front(slots[..k + 1]) == slots[..k];
      JoinGrows(slots, k + 1);
    } else {
      assert slots[..k] == slots;
    }
  }

  class Segmentation {
    var inboundSegments: InboundSegments?

    constructor ()
      ensures inboundSegments == null
    {
      inboundSegments := null;
    }

    ghost function Buffer(): Option<Slots>
      reads this, inboundSegments
    {
      if inboundSegments == null then None else Some(inboundSegments.segments)
    }

    method ProcessInbound<T>(pdu: GenericPdu, parse: bytes -> Option<T>) returns (outcome: Outcome<T>)
      modifies this, inboundSegments
      ensures (Buffer(), outcome) == Collect(old(Buffer()), pdu, parse)
      ensures inboundSegments == null || inboundSegments == old(inboundSegments) || fresh(inboundSegments)
    {
      match pdu
      case TransactionStart(segN, _, _, data) =>
        if segN == 0 {
          match parse(data) {
            case Some(t) => return Passed(t);
            case None => return Nothing;
          }
        }
        if inboundSegments == null && segN < MAX_SLOTS {
          inboundSegments := new InboundSegments(segN, data);
        }
        return Nothing;
      case TransactionContinuation(i, data) =>
        if inboundSegments == null { return Nothing; }
        outcome := inboundSegments.Receive(i, data, parse);
        if outcome.Passed? {
          inboundSegments := null;
        }
      case _ => return Nothing;
    }
  }

  // ---------------------------------------------------------------- round trip

  // Some of the chunks of p, each in its slot, with the first one always there.
  predicate Holds(slots: Slots, p: bytes) {
    && |slots| == ChunkCount(p) && slots[0].Some?
    && forall i | 0 <= i < |slots| :: slots[i] == None || slots[i] == Some(Chunk(p, i))
  }

  lemma {:induction false} JoinOfChunks(slots: Slots, p: bytes, k: nat)
    requires Holds(slots, p) && Full(slots) && 0 < k <= |slots|
    ensures Join(slots[..k]) == p[..if k == |slots| then |p| else Offset(k)]
  {
    assert Front(slots[..k]) == slots[..k - 1] && Last(slots[..k]) == slots[k - 1];
    if k == 1 {
      assert Join(slots[..0]) == [];
    } else {
      JoinOfChunks(slots, p, k - 1);
      ChunkAppends(p, k - 1);
    }
  }

  lemma ChunkAppends(p: bytes, i: nat)
    requires 0 < i < ChunkCount(p)
    ensures p[..Offset(i)] + Chunk(p, i) == p[..if i + 1 == ChunkCount(p) then |p| else Offset(i + 1)]
  {
  }

  // However the continuations of a PDU arrive, in whatever order and however often: the buffer
  // holds its chunks only, and the PDU is passed up exactly when the last missing chunk arrives.
  lemma ContinuationOfPdu<T>(slots: Slots, p: bytes, i: nat, parse: bytes -> Option<T>)
    requires Holds(slots, p) && |p| <= PDU_CAPACITY && 0 < i < ChunkCount(p) && parse(p).Some?
    ensures var next := slots[i := Some(Chunk(p, i))];
      && Holds(next, p)
      && Collect(Some(slots), Piece(p, i), parse)
         == if Full(next) then (None, Passed(parse(p).value)) else (Some(next), Nothing)
  {
    var next := slots[i := Some(Chunk(p, i))];
    assert (if slots[i].None? then next else slots) == next;
    if Full(next) { JoinOfAll(next, p); }
  }

  lemma JoinOfAll(slots: Slots, p: bytes)
    requires Holds(slots, p) && Full(slots)
    ensures Join(slots) == p
  {
    JoinOfChunks(slots, p, |slots|);
    assert slots[..|slots|] == slots && p[..|p|] == p;
  }

  // The start of a transaction opens its buffer when there is none, and is ignored otherwise; a
  // PDU that fits the start is passed up at once.
  lemma StartOfPdu<T>(buffer: Option<Slots>, p: bytes, parse: bytes -> Option<T>)
    requires |p| <= PDU_CAPACITY && parse(p).Some?
    requires buffer.Some? ==> Holds(buffer.value, p) && !Full(buffer.value)
    ensures var (buffer', outcome) := Collect(buffer, Piece(p, 0), parse);
      if ChunkCount(p) == 1 then buffer' == buffer && outcome == Passed(parse(p).value)
      else
        && outcome == Nothing
        && buffer' == (if buffer.Some? then buffer else Some(NewSlots(ChunkCount(p) - 1, Chunk(p, 0))))
        && Holds(buffer'.value, p) && !Full(buffer'.value)
  {
    ChunkCountBound(p);
    if ChunkCount(p) == 1 {
      assert Chunk(p, 0) == p;
    } else {
      assert NewSlots(ChunkCount(p) - 1, Chunk(p, 0))[1] == None;
    }
  }

  // ---------------------------------------------------------------- in numbers

  lemma CountInNumbers(p: bytes)
    ensures ChunkCount(p) == if |p| <= 20 then 1 else (|p| + 25) / 23
  {
  }

  // The segments of a PDU: the start announces how many follow, how long the PDU is and a check sequence
  // that a receiver's register turns into the residue, and carries twenty octets.
  lemma StartOnAir(p: bytes)
    requires |p| <= 128
    ensures var start := Piece(p, 0);
      && start.TransactionStart? && start.segN == (if |p| <= 20 then 0 else (|p| + 2) / 23) && start.totalLen == |p|
      && Fcs.Register(0xFF, p + [start.fcs]) == 0xCF
      && start.data == p[..if |p| < 20 then |p| else 20]
  {
    ChunkCountBound(p);
    CountInNumbers(p);
    Fcs.ReceiverCheck(p, Fcs.Of(p));
  }

  // The others carry twenty-three octets each.
  lemma ContinuationOnAir(p: bytes, i: nat)
    requires |p| <= 128 && 0 < i < ChunkCount(p)
    ensures 23 * i - 3 <= |p|
    ensures Piece(p, i) == TransactionContinuation(i, p[23 * i - 3..if 23 * i + 20 <= |p| then 23 * i + 20 else |p|])
  {
    ChunkCountBound(p);
  }

  // A start opens a buffer when there is none and it announces at most thirty-one further segments: a
  // slot for each, of which the first is filled. One without further segments is decoded at once.
  lemma StartLimits<T>(buffer: Option<Slots>, segN: u8, len: nat, fcs: byte, data: bytes, parse: bytes -> Option<T>)
    ensures var r := Collect(buffer, TransactionStart(segN, len, fcs, data), parse);
      && !r.1.Panicked?
      && (segN == 0 ==> r.0 == buffer && (parse(data).Some? <==> r.1.Passed?) && (r.1.Passed? ==> Some(r.1.pdu) == parse(data)))
      && (segN > 0 && (buffer.Some? || segN > 31) ==> r == (buffer, Nothing))
      && (0 < segN <= 31 && buffer.None? ==>
          && r.1 == Nothing && r.0.Some? && |r.0.value| == segN + 1 && r.0.value[0] == Some(data)
          && forall i | 0 < i <= segN :: r.0.value[i] == None)
  {
  }

  // A continuation without a buffer is dropped, one past the announced segments makes the device panic,
  // and any other fills its slot if that is empty; what is complete is decoded if it has at most 1024
  // octets, and stays if it does not decode.
  lemma ContinuationLimits<T>(buffer: Option<Slots>, i: u8, data: bytes, parse: bytes -> Option<T>)
    ensures var r := Collect(buffer, TransactionContinuation(i, data), parse);
      && (buffer.None? ==> r == (None, Nothing))
      && (buffer.Some? ==> (r.1.Panicked? <==> i >= |buffer.value|))
      && (buffer.Some? && i < |buffer.value| ==>
          var slots := buffer.value[i := if buffer.value[i].Some? then buffer.value[i] else Some(data)];
          && (r.1.Passed? <==> Full(slots) && |Join(slots)| <= 1024 && parse(Join(slots)).Some?)
          && (r.1.Passed? ==> r.0 == None && Some(r.1.pdu) == parse(Join(slots)))
          && (!r.1.Passed? ==> r.0 == Some(slots)))
  {
    if buffer.Some? && i < |buffer.value| && buffer.value[i].Some? {
      assert buffer.value[i := buffer.value[i]] == buffer.value;
    }
  }
}
