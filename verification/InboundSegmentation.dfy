/** Reassembly of segmented lower PDUs: one in-flight message per source address. */
module InboundSegmentation {
  import opened Wrappers
  import opened Mesh
  import opened BlockAck

  // Access and control segments differ in segment size, buffer size and the field that must agree.
  datatype Kind = Access(szmic: SzMic) | Control(opcode: byte) {
    function SegmentSize(): nat { if Access? then 12 else 8 }
    function Capacity(): nat { if Access? then 380 else 256 }
  }

  // A segmented PDU as the header parser returns it: both offsets have five bits.
  datatype SegmentedPdu = SegmentedPdu(
    kind: Kind, aid: Option<byte>, seqZero: bv16, segO: u5, segN: u5, segmentM: bytes, meta: Meta)

  datatype UpperPdu =
    | UpperAccess(payload: bytes, transmic: bytes, aid: Option<byte>, meta: Meta)
    | UpperControl(opcode: byte, parameters: bytes, meta: Meta)

  datatype SegmentationResult = SegmentationResult(blockAck: nat, meta: Meta, upper: Option<UpperPdu>)

  type Outcome = Result<SegmentationResult, DriverError>

  // ---------------------------------------------------------------- specification, on values

  datatype Flight = Flight(kind: Kind, seqZero: bv16, segN: u5, acks: nat, data: bytes, len: nat) {
    ghost predicate WellFormed() { |data| == kind.Capacity() && len <= |data| }
  }

  function Zeros(n: nat): bytes { seq(n, _ => 0) }

  function NewFlight(pdu: SegmentedPdu): Flight {
    Flight(pdu.kind, pdu.seqZero, pdu.segN, 0, Zeros(pdu.kind.Capacity()), 0)
  }

  function Splice(data: bytes, at: nat, m: bytes): (r: bytes)
    requires at + |m| <= |data|
    ensures |r| == |data|
    ensures forall i | 0 <= i < |r| :: r[i] == if at <= i < at + |m| then m[i - at] else data[i]
  {
    data[..at] + m + data[at + |m|..]
  }

  // A copy that would leave the buffer, or a middle segment of the wrong length, is a Rust panic.
  function Store(f: Flight, pdu: SegmentedPdu): (r: Result<Flight, DriverError>)
    requires f.WellFormed() && f.kind == pdu.kind
    ensures r.Ok? ==> r.value.WellFormed()
  {
    var size := f.kind.SegmentSize();
    var at := size * pdu.segO;
    if at + |pdu.segmentM| > |f.data| then Err(Panic)
    else if pdu.segO == pdu.segN then
      Ok(f.(data := Splice(f.data, at, pdu.segmentM), len := at + |pdu.segmentM|))
    else if |pdu.segmentM| != size then Err(Panic)
    else Ok(f.(data := Splice(f.data, at, pdu.segmentM)))
  }

  // A segment is stored exactly when it fits the buffer and, unless it is the last, fills its place: then
  // its octets are in its place, every other octet and field is kept, and the last one sets the length.
  lemma StoreWrites(f: Flight, pdu: SegmentedPdu)
    requires f.WellFormed() && f.kind == pdu.kind
    ensures var (size, r) := (f.kind.SegmentSize(), Store(f, pdu));
      && (r.Ok? <==> size * pdu.segO + |pdu.segmentM| <= f.kind.Capacity() && (pdu.segO == pdu.segN || |pdu.segmentM| == size))
      && (r.Err? ==> r.error == Panic)
      && (r.Ok? ==>
          && r.value.data[size * pdu.segO..size * pdu.segO + |pdu.segmentM|] == pdu.segmentM
          && (forall i | 0 <= i < |f.data| && !(size * pdu.segO <= i < size * pdu.segO + |pdu.segmentM|) ::
                r.value.data[i] == f.data[i])
          && r.value == f.(data := r.value.data,
                           len := if pdu.segO == pdu.segN then size * pdu.segO + |pdu.segmentM| else f.len))
  {
    var size := f.kind.SegmentSize();
    if Store(f, pdu).Ok? {
      assert Store(f, pdu).value.data == Splice(f.data, size * pdu.segO, pdu.segmentM);
    }
  }

  function Reassemble(f: Flight, pdu: SegmentedPdu): Result<UpperPdu, DriverError>
    requires f.WellFormed()
  {
    match f.kind
    case Control(opcode) => Ok(UpperControl(opcode, f.data[..f.len], pdu.meta))
    case Access(szmic) =>
      if f.len < szmic.Size() then Err(Panic)
      else
        var split := f.len - szmic.Size();
        Ok(UpperAccess(f.data[..split], f.data[split..f.len], pdu.aid, pdu.meta))
  }

  // One segment of a source whose message in flight is f: what stays in flight, and the result.
  // The "already seen" test looks at SegN, not at SegO.
  ghost function Handle(f: Flight, pdu: SegmentedPdu): (r: (Option<Flight>, Outcome))
    requires f.WellFormed()
    ensures r.0.Some? ==> r.0.value.WellFormed()
  {
    if f.kind != pdu.kind || f.seqZero != pdu.seqZero then (Some(f), Err(InvalidPDU))
    else if IsAcked(f.acks, pdu.segN) then (Some(f), Ok(SegmentationResult(f.acks, pdu.meta, None)))
    else Admit(f, pdu)
  }

  // A segment that counts as new: stored, acknowledged, and the message reassembled once complete.
  ghost function Admit(f: Flight, pdu: SegmentedPdu): (r: (Option<Flight>, Outcome))
    requires f.WellFormed() && f.kind == pdu.kind
    ensures r.0.Some? ==> r.0.value.WellFormed()
  {
    match Store(f, pdu)
    case Err(e) => (Some(f), Err(e))
    case Ok(stored) =>
      if pdu.segO > f.segN then (Some(stored), Err(InvalidState))
      else
        var acked := stored.(acks := Ack(f.acks, pdu.segO));
        if !Complete(acked.acks, f.segN) then
          (Some(acked), Ok(SegmentationResult(acked.acks, pdu.meta, None)))
        else
          match Reassemble(acked, pdu)
          case Err(e) => (Some(acked), Err(e))
          case Ok(upper) => (None, Ok(SegmentationResult(acked.acks, pdu.meta, Some(upper))))
  }

  ghost predicate AllWellFormed(m: map<u16, Flight>) { forall s | s in m :: m[s].WellFormed() }

  // The table once the source of the segment has an entry.
  function Entered(m: map<u16, Flight>, pdu: SegmentedPdu): map<u16, Flight> {
    if pdu.meta.src in m then m else m[pdu.meta.src := NewFlight(pdu)]
  }

  // One segment of any source, with room for `capacity` sources in flight.
  ghost function Step(capacity: nat, m: map<u16, Flight>, pdu: SegmentedPdu): (r: (map<u16, Flight>, Outcome))
    requires AllWellFormed(m)
    ensures AllWellFormed(r.0)
  {
    var src := pdu.meta.src;
    if src !in m && |m| >= capacity then (m, Err(InsufficientSpace))
    else
      var entered := Entered(m, pdu);
      var (f, outcome) := Handle(entered[src], pdu);
      (if f.Some? then entered[src := f.value] else entered - {src}, outcome)
  }

  // ---------------------------------------------------------------- the buffers, updated in place

  class InFlight {
    const kind: Kind
    const seqZero: bv16
    const segN: u5
    var acks: nat
    const data: array<byte>
    var len: nat

    ghost predicate Valid()
      reads this
    {
      data.Length == kind.Capacity() && len <= data.Length && acks < Pow2(32)
    }

    ghost function View(): (f: Flight)
      reads this, data
      requires Valid()
      ensures f.WellFormed()
    {
      Flight(kind, seqZero, segN, acks, data[..], len)
    }

    constructor (pdu: SegmentedPdu)
      ensures Valid() && fresh(data)
      ensures View() == NewFlight(pdu)
    {
      kind, seqZero, segN := pdu.kind, pdu.seqZero, pdu.segN;
      acks, len := 0, 0;
      var d := new byte[pdu.kind.Capacity()](_ => 0);
      data := d;
      new;
      assert data[..] == Zeros(kind.Capacity());
    }

    method CopyFromSlice(at: nat, m: bytes)
      requires at + |m| <= data.Length
      modifies data
      ensures data[..] == Splice(old(data[..]), at, m)
    {
      for i := 0 to |m|
        invariant forall k | 0 <= k < data.Length ::
          data[k] == if at <= k < at + i then m[k - at] else old(data[k])
      {
        data[at + i] := m[i];
      }
    }

    // Reassembly::ingest followed by Blocks::ack.
    method Ingest(pdu: SegmentedPdu) returns (failure: Option<DriverError>)
      requires Valid() && kind == pdu.kind
      modifies this, data
      ensures Valid()
      ensures match Store(old(View()), pdu)
              case Err(e) => failure == Some(e) && View() == old(View())
              case Ok(stored) =>
                if pdu.segO > segN then failure == Some(InvalidState) && View() == stored
                else failure == None && View() == stored.(acks := Ack(old(acks), pdu.segO))
    {
      var size := kind.SegmentSize();
      var at := size * pdu.segO;
      if at + |pdu.segmentM| > data.Length { return Some(Panic); }
      if pdu.segO == pdu.segN {
        len := size * pdu.segN + |pdu.segmentM|;
      } else if |pdu.segmentM| != size {
        return Some(Panic);
      }
      CopyFromSlice(at, pdu.segmentM);
      if pdu.segO > segN { return Some(InvalidState); }
      AckKeepsWidth(acks, pdu.segO, 32);
      acks := Ack(acks, pdu.segO);
      return None;
    }

    // What `process` does with the in-flight message of the segment's source.
    method Accept(pdu: SegmentedPdu) returns (finished: bool, outcome: Outcome)
      requires Valid()
      modifies this, data
      ensures Valid()
      ensures Handle(old(View()), pdu) == (if finished then None else Some(View()), outcome)
    {
      if kind != pdu.kind || seqZero != pdu.seqZero { return false, Err(InvalidPDU); }
      if IsAcked(acks, pdu.segN) { return false, Ok(SegmentationResult(acks, pdu.meta, None)); }
      var failure := Ingest(pdu);
      if failure.Some? { return false, Err(failure.value); }
      var complete := IsComplete(acks, segN);
      if !complete { return false, Ok(SegmentationResult(acks, pdu.meta, None)); }
      var upper := ReassembleUpper(pdu);
      match upper
      case Err(e) => return false, Err(e);
      case Ok(u) => return true, Ok(SegmentationResult(acks, pdu.meta, Some(u)));
    }

    method ReassembleUpper(pdu: SegmentedPdu) returns (upper: Result<UpperPdu, DriverError>)
      requires Valid()
      ensures upper == Reassemble(View(), pdu)
    {
      match kind
      case Control(opcode) => return Ok(UpperControl(opcode, data[..len], pdu.meta));
      case Access(szmic) =>
        if len < szmic.Size() { return Err(Panic); }
        var split := len - szmic.Size();
        return Ok(UpperAccess(data[..split], data[split..len], pdu.aid, pdu.meta));
    }
  }

  class InboundSegmentation {
    const capacity: nat
    var current: map<u16, InFlight>

    // No two sources share a buffer.
    ghost predicate Valid()
      reads this, current.Values
    {
      && (forall s | s in current :: current[s].Valid())
      && (forall s, t | s in current && t in current && s != t ::
            current[s] != current[t] && current[s].data != current[t].data)
    }

    ghost function Buffers(): set<object>
      reads this
    {
      set s | s in current :: current[s].data
    }

    // The table holds exactly the messages of m.
    ghost predicate Represents(m: map<u16, Flight>)
      reads this, current.Values, Buffers()
      requires Valid()
    {
      m.Keys == current.Keys && forall s | s in m :: current[s].View() == m[s]
    }

    constructor (capacity: nat)
      ensures Valid() && Represents(map[]) && this.capacity == capacity
    {
      this.capacity := capacity;
      current := map[];
    }

    method Insert(src: u16, inFlight: InFlight, ghost m: map<u16, Flight>)
      requires Valid() && Represents(m) && src !in current && inFlight.Valid()
      requires forall s | s in current :: current[s] != inFlight && current[s].data != inFlight.data
      modifies this
      ensures current == old(current)[src := inFlight]
      ensures Valid() && Represents(m[src := inFlight.View()])
    {
      current := current[src := inFlight];
    }

    // Finds the entry of the segment's source, or inserts one when there is room.
    method Enter(pdu: SegmentedPdu, ghost m: map<u16, Flight>) returns (refused: bool)
      requires Valid() && Represents(m)
      modifies this
      ensures refused <==> pdu.meta.src !in m && |m| >= capacity
      ensures refused ==> current == old(current)
      ensures !refused ==> pdu.meta.src in current && current == old(current)[pdu.meta.src := current[pdu.meta.src]]
      ensures !refused && pdu.meta.src !in m ==> fresh(current[pdu.meta.src]) && fresh(current[pdu.meta.src].data)
      ensures pdu.meta.src in m ==> current == old(current)
      ensures Valid() && Represents(if refused then m else Entered(m, pdu))
    {
      SameSize(m, current);
      if pdu.meta.src in current { return false; }
      if |current| >= capacity { return true; }
      var inFlight := new InFlight(pdu);
      Insert(pdu.meta.src, inFlight, m);
      return false;
    }

    method AcceptFor(src: u16, pdu: SegmentedPdu, ghost m: map<u16, Flight>)
      returns (finished: bool, outcome: Outcome)
      requires Valid() && Represents(m) && src in m
      modifies current[src], current[src].data
      ensures current == old(current) && Valid()
      ensures m[src].WellFormed()
      ensures Handle(m[src], pdu) == (if finished then None else Some(current[src].View()), outcome)
      ensures Represents(m[src := current[src].View()])
    {
      finished, outcome := current[src].Accept(pdu);
    }

    // Accepts one segment; yields the upper PDU when it was the last one missing. The entry of a
    // source is inserted before its segment is checked, and removed once the message is complete.
    method Process(pdu: SegmentedPdu, ghost m: map<u16, Flight>) returns (outcome: Outcome)
      requires Valid() && AllWellFormed(m) && Represents(m)
      modifies this, current.Values, Buffers()
      ensures forall s | s in current ::
        || (s in old(current) && current[s] == old(current[s]))
        || (fresh(current[s]) && fresh(current[s].data))
      ensures Valid() && Represents(Step(capacity, m, pdu).0)
      ensures outcome == Step(capacity, m, pdu).1
    {
      var refused := Enter(pdu, m);
      if refused { return Err(InsufficientSpace); }
      var src := pdu.meta.src;
      ghost var entered := Entered(m, pdu);
      var finished: bool;
      finished, outcome := AcceptFor(src, pdu, entered);
      ghost var stepped := Step(capacity, m, pdu);
      assert stepped == (if finished then entered - {src} else entered[src := current[src].View()], outcome);
      if finished { Drop(src, entered, current[src].View()); }
    }

    method Drop(src: u16, ghost m: map<u16, Flight>, ghost f: Flight)
      requires Valid() && Represents(m[src := f])
      modifies this
      ensures current == old(current) - {src} && Valid() && Represents(m - {src})
    {
      current := current - {src};
    }
  }

  lemma SameSize<K, V, W>(m: map<K, V>, n: map<K, W>)
    requires m.Keys == n.Keys
    ensures |m| == |n|
  {
    assert |m| == |m.Keys| && |n| == |n.Keys|;
  }
}
