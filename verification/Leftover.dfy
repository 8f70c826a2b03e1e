/** What segments left in the buffer by an earlier link do to the messages of the next one. */
module Leftover {
  import opened Wrappers
  import opened Mesh
  import opened PbAdvSegments

  predicate Sendable(msgs: seq<bytes>) { forall i | 0 <= i < |msgs| :: |msgs[i]| <= PDU_CAPACITY }

  ghost predicate AllParse<T>(msgs: seq<bytes>, parse: bytes -> Option<T>) {
    forall i | 0 <= i < |msgs| :: parse(msgs[i]).Some?
  }

  // The position of the first message of more than one segment, which is the first to meet the buffer.
  function FirstLong(msgs: seq<bytes>): (j: nat)
    ensures j <= |msgs|
    ensures forall i | 0 <= i < j :: ChunkCount(msgs[i]) == 1
    ensures j < |msgs| ==> ChunkCount(msgs[j]) > 1
  {
    if msgs == [] || ChunkCount(msgs[0]) > 1 then 0 else 1 + FirstLong(msgs[1..])
  }

  function Long(msgs: seq<bytes>): bytes { if FirstLong(msgs) < |msgs| then msgs[FirstLong(msgs)] else [] }

  // What the leftover becomes once every continuation of p has arrived: its empty slots are filled, but
  // for the first, and the others stay.
  function Overlay(left: Slots, p: bytes): (o: Slots)
    ensures |o| == |left|
    ensures forall i | 0 <= i < |left| ::
      o[i] == if left[i].None? && 0 < i < ChunkCount(p) then Some(Chunk(p, i)) else left[i]
  {
    seq(|left|, i requires 0 <= i < |left| =>
      if left[i].None? && 0 < i < ChunkCount(p) then Some(Chunk(p, i)) else left[i])
  }

  // Whether collected slots are passed up, and as what.
  function Decoded<T>(slots: Slots, parse: bytes -> Option<T>): Option<T> {
    if Full(slots) && |Join(slots)| <= JOIN_CAPACITY then parse(Join(slots)) else None
  }

  // The leftover, with some of its empty slots filled by p.
  predicate Kept(slots: Slots, left: Slots, p: bytes) {
    && |slots| == |left|
    && forall i | 0 <= i < |left| ::
         || slots[i] == left[i]
         || (left[i].None? && 0 < i < ChunkCount(p) && slots[i] == Some(Chunk(p, i)))
  }

  lemma FullIsOverlay(slots: Slots, left: Slots, p: bytes)
    requires Kept(slots, left, p) && Full(slots)
    ensures slots == Overlay(left, p)
  {
  }

  // The buffer while d messages have been passed up: the leftover until the first long message is
  // through, and after that some chunks of the next message.
  predicate Buffered(buffer: Option<Slots>, d: nat, msgs: seq<bytes>, left: Option<Slots>) {
    if left.Some? && d <= FirstLong(msgs) then buffer.Some? && Kept(buffer.value, left.value, Long(msgs))
    else buffer.Some? ==>
      d < |msgs| && ChunkCount(msgs[d]) > 1 && Holds(buffer.value, msgs[d]) && !Full(buffer.value)
  }

  predicate Meets(left: Option<Slots>, msgs: seq<bytes>) { left.Some? && FirstLong(msgs) < |msgs| }

  // The leftover has a slot for every chunk of the first long message.
  predicate Fits(left: Option<Slots>, msgs: seq<bytes>) {
    Meets(left, msgs) ==> ChunkCount(Long(msgs)) <= |left.value|
  }

  // What is passed up for message d, if anything.
  function Expected<T>(left: Option<Slots>, msgs: seq<bytes>, d: nat, parse: bytes -> Option<T>): Option<T>
    requires d < |msgs|
  {
    if left.Some? && d == FirstLong(msgs) then Decoded(Overlay(left.value, msgs[d]), parse) else parse(msgs[d])
  }

  // A leftover does no harm when it decodes to nothing or to the first long message, and lets every
  // message through when it decodes to that message.
  ghost predicate Harmless<T>(left: Option<Slots>, msgs: seq<bytes>, parse: bytes -> Option<T>) {
    Meets(left, msgs) ==>
      Fits(left, msgs) && Expected(left, msgs, FirstLong(msgs), parse) in {None, parse(Long(msgs))}
  }

  ghost predicate Completable<T>(left: Option<Slots>, msgs: seq<bytes>, parse: bytes -> Option<T>) {
    Meets(left, msgs) ==>
      Fits(left, msgs) && Expected(left, msgs, FirstLong(msgs), parse) == parse(Long(msgs))
  }

  predicate OnLeftover(d: nat, msgs: seq<bytes>, left: Option<Slots>) { left.Some? && d <= FirstLong(msgs) }

  function Filled(slots: Slots, i: nat, x: bytes): Slots
    requires i < |slots|
  {
    if slots[i].None? then slots[i := Some(x)] else slots
  }

  lemma StartOnLeftover<T>(slots: Slots, p: bytes, parse: bytes -> Option<T>)
    requires |p| <= PDU_CAPACITY && parse(p).Some?
    ensures Collect(Some(slots), Piece(p, 0), parse)
         == (Some(slots), if ChunkCount(p) == 1 then Passed(parse(p).value) else Nothing)
  {
    ChunkCountBound(p);
    assert ChunkCount(p) == 1 ==> Chunk(p, 0) == p;
  }

  // A continuation that meets a leftover with enough slots.
  lemma ContinuationOnLeftover<T>(slots: Slots, left: Slots, p: bytes, i: nat, parse: bytes -> Option<T>)
    requires Kept(slots, left, p) && |p| <= PDU_CAPACITY && 0 < i < ChunkCount(p) && i < |left|
    ensures var next := Filled(slots, i, Chunk(p, i));
      && Kept(next, left, p) && (Full(next) ==> next == Overlay(left, p))
      && Collect(Some(slots), Piece(p, i), parse)
         == (if Decoded(next, parse).Some? then (None, Passed(Decoded(next, parse).value)) else (Some(next), Nothing))
  {
    var next := Filled(slots, i, Chunk(p, i));
    if Full(next) { FullIsOverlay(next, left, p); }
  }

  lemma PastLeftover<T>(slots: Slots, p: bytes, i: nat, parse: bytes -> Option<T>)
    requires |p| <= PDU_CAPACITY && 0 < i < ChunkCount(p) && i >= |slots|
    ensures Collect(Some(slots), Piece(p, i), parse) == (Some(slots), Panicked)
  {
  }

  // What a segment does to the buffer: more is buffered, what is expected is passed up, or its index
  // is past the leftover.
  ghost predicate Collected<T>(r: (Option<Slots>, Outcome<T>), d: nat, msgs: seq<bytes>, left: Option<Slots>,
                               t: Option<T>) {
    match r.1
    case Nothing => Buffered(r.0, d, msgs, left)
    case Passed(u) => t == Some(u) && Buffered(r.0, d + 1, msgs, left)
    case Panicked => d == FirstLong(msgs) && !Fits(left, msgs) && Buffered(r.0, d, msgs, left)
  }

  lemma CollectOnLeftover<T>(slots: Slots, d: nat, i: nat, msgs: seq<bytes>, left: Slots, parse: bytes -> Option<T>)
    requires Sendable(msgs) && AllParse(msgs, parse) && d < |msgs| && i < ChunkCount(msgs[d])
    requires d <= FirstLong(msgs) && Kept(slots, left, Long(msgs))
    ensures Collected(Collect(Some(slots), Piece(msgs[d], i), parse), d, msgs, Some(left), Expected(Some(left), msgs, d, parse))
  {
    var p := msgs[d];
    if i == 0 {
      StartOnLeftover(slots, p, parse);
    } else if i < |left| {
      ContinuationOnLeftover(slots, left, p, i, parse);
    } else {
      PastLeftover(slots, p, i, parse);
    }
  }

  lemma CollectClean<T>(buffer: Option<Slots>, d: nat, i: nat, msgs: seq<bytes>, left: Option<Slots>,
                        parse: bytes -> Option<T>)
    requires Sendable(msgs) && AllParse(msgs, parse) && d < |msgs| && i < ChunkCount(msgs[d])
    requires !OnLeftover(d, msgs, left) && Buffered(buffer, d, msgs, left)
    ensures Collected(Collect(buffer, Piece(msgs[d], i), parse), d, msgs, left, parse(msgs[d]))
  {
    if i == 0 {
      StartOfPdu(buffer, msgs[d], parse);
    } else if buffer.Some? {
      ContinuationOfPdu(buffer.value, msgs[d], i, parse);
    }
  }

  // A segment of the next message.
  lemma CollectPiece<T>(buffer: Option<Slots>, d: nat, i: nat, msgs: seq<bytes>, left: Option<Slots>,
                        parse: bytes -> Option<T>)
    requires Sendable(msgs) && AllParse(msgs, parse) && d < |msgs| && i < ChunkCount(msgs[d])
    requires Buffered(buffer, d, msgs, left)
    ensures Collected(Collect(buffer, Piece(msgs[d], i), parse), d, msgs, left, Expected(left, msgs, d, parse))
  {
    if OnLeftover(d, msgs, left) {
      CollectOnLeftover(buffer.value, d, i, msgs, left.value, parse);
    } else {
      CollectClean(buffer, d, i, msgs, left, parse);
    }
  }

  // The first i chunks of the current message are in the buffer.
  predicate HasFirst(buffer: Option<Slots>, i: nat) {
    i > 0 ==>
      && buffer.Some? && i <= |buffer.value|
      && (forall j | 0 <= j < i :: buffer.value[j].Some?)
      && (i > 1 ==> !Full(buffer.value))
  }

  lemma FirstOfCompletable<T>(slots: Slots, left: Slots, p: bytes, parse: bytes -> Option<T>)
    requires Kept(slots, left, p) && 0 < |left| && Decoded(Overlay(left, p), parse).Some?
    ensures HasFirst(Some(slots), 1)
  {
    assert Overlay(left, p)[0] == left[0];
  }

  lemma NextContinuation<T>(slots: Slots, left: Slots, p: bytes, i: nat, parse: bytes -> Option<T>)
    requires Kept(slots, left, p) && |p| <= PDU_CAPACITY && 0 < i < ChunkCount(p) <= |left|
    requires HasFirst(Some(slots), i) && Decoded(Overlay(left, p), parse).Some?
    ensures var (buffer', outcome) := Collect(Some(slots), Piece(p, i), parse);
      outcome.Passed? || HasFirst(buffer', i + 1)
  {
    ContinuationOnLeftover(slots, left, p, i, parse);
    var next := Filled(slots, i, Chunk(p, i));
    assert forall j | 0 <= j < i + 1 :: next[j].Some?;
  }

  // Message d gets through: a leftover it meets has room for it, and decodes.
  ghost predicate Passable<T>(left: Option<Slots>, msgs: seq<bytes>, d: nat, parse: bytes -> Option<T>)
    requires d < |msgs|
  {
    Expected(left, msgs, d, parse).Some? && (d == FirstLong(msgs) ==> Fits(left, msgs))
  }

  // Given in order, each chunk adds to the first ones; a message of one segment is through at once.
  lemma NextOnLeftover<T>(slots: Slots, d: nat, i: nat, msgs: seq<bytes>, left: Slots, parse: bytes -> Option<T>)
    requires Sendable(msgs) && AllParse(msgs, parse) && d < |msgs| && i < ChunkCount(msgs[d])
    requires d <= FirstLong(msgs) && Kept(slots, left, Long(msgs)) && HasFirst(Some(slots), i)
    requires Passable(Some(left), msgs, d, parse)
    ensures var (buffer', outcome) := Collect(Some(slots), Piece(msgs[d], i), parse);
      outcome.Passed? || (ChunkCount(msgs[d]) > 1 && HasFirst(buffer', i + 1))
  {
    var p := msgs[d];
    if i == 0 {
      StartOnLeftover(slots, p, parse);
      if ChunkCount(p) > 1 { FirstOfCompletable(slots, left, p, parse); }
    } else {
      NextContinuation(slots, left, p, i, parse);
    }
  }

  lemma NextClean<T>(buffer: Option<Slots>, d: nat, i: nat, msgs: seq<bytes>, left: Option<Slots>,
                     parse: bytes -> Option<T>)
    requires Sendable(msgs) && AllParse(msgs, parse) && d < |msgs| && i < ChunkCount(msgs[d])
    requires !OnLeftover(d, msgs, left) && Buffered(buffer, d, msgs, left) && HasFirst(buffer, i)
    ensures var (buffer', outcome) := Collect(buffer, Piece(msgs[d], i), parse);
      outcome.Passed? || (ChunkCount(msgs[d]) > 1 && HasFirst(buffer', i + 1))
  {
    if i == 0 {
      StartOfPdu(buffer, msgs[d], parse);
    } else {
      ContinuationOfPdu(buffer.value, msgs[d], i, parse);
    }
  }

  lemma NextChunk<T>(buffer: Option<Slots>, d: nat, i: nat, msgs: seq<bytes>, left: Option<Slots>,
                     parse: bytes -> Option<T>)
    requires Sendable(msgs) && AllParse(msgs, parse) && d < |msgs| && i < ChunkCount(msgs[d])
    requires Buffered(buffer, d, msgs, left) && HasFirst(buffer, i) && Passable(left, msgs, d, parse)
    ensures var (buffer', outcome) := Collect(buffer, Piece(msgs[d], i), parse);
      outcome.Passed? || (ChunkCount(msgs[d]) > 1 && HasFirst(buffer', i + 1))
  {
    if OnLeftover(d, msgs, left) {
      NextOnLeftover(buffer.value, d, i, msgs, left.value, parse);
    } else {
      NextClean(buffer, d, i, msgs, left, parse);
    }
  }

  lemma FilledIsFull(slots: Slots, left: Slots, p: bytes)
    requires Kept(slots, left, p) && Full(Overlay(left, p)) && ChunkCount(p) <= |left|
    requires forall i | 0 <= i < ChunkCount(p) :: slots[i].Some?
    ensures Full(slots)
  {
    var o := Overlay(left, p);
    forall i | ChunkCount(p) <= i < |slots| ensures slots[i].Some? { assert o[i] == left[i]; }
  }

  // All of its chunks cannot be in the buffer without it being through.
  lemma NotAllBuffered<T>(buffer: Option<Slots>, d: nat, msgs: seq<bytes>, left: Option<Slots>, parse: bytes -> Option<T>)
    requires Sendable(msgs) && AllParse(msgs, parse) && d < |msgs| && ChunkCount(msgs[d]) > 1
    requires Buffered(buffer, d, msgs, left) && Passable(left, msgs, d, parse)
    ensures !HasFirst(buffer, ChunkCount(msgs[d]))
  {
    if HasFirst(buffer, ChunkCount(msgs[d])) && OnLeftover(d, msgs, left) {
      FilledIsFull(buffer.value, left.value, msgs[d]);
    }
  }

  // Slots that are put together begin with their first chunk.
  lemma {:induction false} FirstChunkLeads(slots: Slots, x: bytes)
    requires slots != [] && slots[0] == Some(x)
    ensures x <= Join(slots)
    decreases |slots|
  {
    if |slots| == 1 {
      assert Join(Front(slots)) == [];
    } else {
      FirstChunkLeads(Front(slots), x);
    }
  }
}
