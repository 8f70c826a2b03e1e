/** A provisioner that waits for each acknowledgement, and the advertising interface, over a channel
    that loses, repeats and delays: what is delivered within one link. */
module StopAndWait {
  import opened Wrappers
  import opened Mesh
  import opened PbAdvSegments
  import opened PbAdvInterface
  import opened Leftover

  // What the peer wants delivered: messages numbered consecutively from the link's first number.
  datatype Session = Session(uuid: bytes, linkId: u32, base: u8, msgs: seq<bytes>) {
    predicate Valid() { base + |msgs| <= 0x100 && Sendable(msgs) }
  }

  // The device and whether it has panicked, the peer (whether it has heard the link acknowledged, and
  // how many of its messages), everything the device ever sent, and everything it passed up.
  datatype System<T> = System(device: Iface, crashed: bool, open: bool, cur: nat, sent: seq<AdvPdu>, delivered: seq<T>)

  // One step: something the peer has sent by now reaches the device, for the first time or again; the
  // device sends a PDU of its own; or something the device has sent by now reaches the peer.
  datatype Event =
    | LinkOpenArrives
    | PieceArrives(k: nat, i: nat)
    | AckArrives(number: u8)
    | DeviceSends(payload: bytes)
    | PeerHears(pdu: AdvPdu)

  predicate Enabled<T>(sys: System<T>, e: Event, s: Session) {
    match e
    case LinkOpenArrives => !sys.crashed
    case PieceArrives(k, i) => !sys.crashed && sys.open && k <= sys.cur && k < |s.msgs| && i < ChunkCount(s.msgs[k])
    case AckArrives(_) => !sys.crashed
    case DeviceSends(payload) => !sys.crashed && |payload| <= PDU_CAPACITY
    case PeerHears(pdu) => pdu in sys.sent
  }

  function PduOf(e: Event, s: Session): AdvPdu
    requires s.Valid() && !e.DeviceSends? && !e.PeerHears?
    requires e.PieceArrives? ==> e.k < |s.msgs| && e.i < ChunkCount(s.msgs[e.k])
  {
    match e
    case LinkOpenArrives => AdvPdu(s.linkId, s.base, LinkOpen(s.uuid))
    case PieceArrives(k, i) => AdvPdu(s.linkId, s.base + k, Piece(s.msgs[k], i))
    case AckArrives(number) => AdvPdu(s.linkId, number, TransactionAck)
  }

  // The peer moves on to its next message when it hears the current one acknowledged.
  function Hear<T>(sys: System<T>, pdu: AdvPdu, s: Session): System<T>
    requires s.Valid()
  {
    if pdu == AdvPdu(s.linkId, 0, LinkAck) then sys.(open := true)
    else if sys.cur < |s.msgs| && pdu == AdvPdu(s.linkId, s.base + sys.cur, TransactionAck) then sys.(cur := sys.cur + 1)
    else sys
  }

  function React<T>(sys: System<T>, r: Reaction<T>): System<T> {
    System(r.state, r.reception.Crashed?, sys.open, sys.cur, sys.sent + r.sent,
           sys.delivered + if r.reception.Up? then [r.reception.pdu] else [])
  }

  function ReactionTo<T>(sys: System<T>, e: Event, s: Session, parse: bytes -> Option<T>): Reaction<T>
    requires s.Valid() && sys.device.Valid() && Enabled(sys, e, s) && !e.PeerHears?
  {
    if e.DeviceSends? then
      var r := Transmit(sys.device, e.payload);
      Reaction(r.state, r.sent, Quiet)
    else Receive(sys.device, PduOf(e, s), s.uuid, parse)
  }

  function Step<T>(sys: System<T>, e: Event, s: Session, parse: bytes -> Option<T>): (sys': System<T>)
    requires s.Valid() && sys.device.Valid() && Enabled(sys, e, s)
    ensures sys'.device.Valid()
  {
    if e.PeerHears? then Hear(sys, e.pdu, s) else React(sys, ReactionTo(sys, e, s, parse))
  }

  ghost predicate Possible<T>(sys: System<T>, events: seq<Event>, s: Session, parse: bytes -> Option<T>)
    requires s.Valid() && sys.device.Valid()
    decreases |events|
  {
    events != [] ==> Enabled(sys, events[0], s) && Possible(Step(sys, events[0], s, parse), events[1..], s, parse)
  }

  function Run<T>(sys: System<T>, events: seq<Event>, s: Session, parse: bytes -> Option<T>): (sys': System<T>)
    requires s.Valid() && sys.device.Valid() && Possible(sys, events, s, parse)
    ensures sys'.device.Valid()
    decreases |events|
  {
    if events == [] then sys else Run(Step(sys, events[0], s, parse), events[1..], s, parse)
  }

  // A device without a link; closing one keeps the acknowledged number and the buffer.
  predicate Closed(d: Iface) { d.Valid() && d.linkId.None? }

  // Nothing acknowledged that is not older than the link's numbers.
  predicate Newer(d: Iface, s: Session) { d.acked.None? || d.acked.value < s.base }

  function Start<T>(d: Iface): System<T> { System(d, false, false, 0, [], []) }

  // ---------------------------------------------------------------- the invariant

  // Where the device stands after passing up d messages of an open link.
  predicate Numbers(device: Iface, d: nat, cur: nat, s: Session) {
    && (d == 0 ==> device.inbound == Some(s.base) && Newer(device, s))
    && (d > 0 ==> d <= |s.msgs| && device.acked == Some(s.base + d - 1))
    && (d > 0 && device.inbound.Some? ==> d == cur < |s.msgs| && device.inbound.value == s.base + d)
  }

  predicate AcksBelow(sent: seq<AdvPdu>, n: nat) {
    forall p | p in sent && p.pdu.TransactionAck? :: p.number < n
  }

  // The first messages, as sent; and as a leftover lets them through.
  ghost predicate Prefix<T>(delivered: seq<T>, msgs: seq<bytes>, parse: bytes -> Option<T>) {
    && |delivered| <= |msgs|
    && forall i | 0 <= i < |delivered| :: parse(msgs[i]) == Some(delivered[i])
  }

  ghost predicate AsExpected<T>(delivered: seq<T>, left: Option<Slots>, msgs: seq<bytes>, parse: bytes -> Option<T>) {
    && |delivered| <= |msgs|
    && forall i | 0 <= i < |delivered| :: Expected(left, msgs, i, parse) == Some(delivered[i])
  }

  ghost predicate Inv<T>(sys: System<T>, s: Session, left: Option<Slots>, parse: bytes -> Option<T>) {
    && s.Valid() && sys.device.Valid() && AsExpected(sys.delivered, left, s.msgs, parse)
    && sys.cur <= |sys.delivered| <= sys.cur + 1
    && AcksBelow(sys.sent, s.base + |sys.delivered|)
    && (sys.crashed ==> |sys.delivered| == FirstLong(s.msgs) && !Fits(left, s.msgs))
    && (sys.device.linkId.None? ==>
        && Newer(sys.device, s) && sys.device.buffer == left
        && !sys.crashed && !sys.open && sys.sent == [] && sys.delivered == [])
    && (sys.device.linkId.Some? ==>
        && sys.device.linkId.value == s.linkId && Numbers(sys.device, |sys.delivered|, sys.cur, s)
        && Buffered(sys.device.buffer, |sys.delivered|, s.msgs, left))
  }

  lemma StartIsInv<T>(d: Iface, s: Session, parse: bytes -> Option<T>)
    requires s.Valid() && Closed(d) && Newer(d, s)
    ensures Inv(Start(d), s, d.buffer, parse)
  {
  }

  lemma ResentHasNoAck(d: Iface, n: nat)
    requires d.Valid()
    ensures AcksBelow(Resent(d), n)
  {
  }

  lemma MoreAcks(sent: seq<AdvPdu>, more: seq<AdvPdu>, n: nat, n': nat)
    requires AcksBelow(sent, n) && AcksBelow(more, n') && n <= n'
    ensures AcksBelow(sent + more, n')
  {
  }

  // The peer moves on only for an acknowledgement that was sent, so only for what was passed up.
  lemma HeardIsSent<T>(sys: System<T>, pdu: AdvPdu, s: Session)
    requires s.Valid() && pdu in sys.sent && AcksBelow(sys.sent, s.base + |sys.delivered|)
    ensures var heard := Hear(sys, pdu, s);
      heard == sys.(open := heard.open, cur := heard.cur) && heard.cur in {sys.cur, sys.cur + 1}
      && (heard.cur == sys.cur + 1 ==> sys.cur < |sys.delivered| && sys.cur < |s.msgs|)
  {
  }

  lemma HearKeepsInv<T>(sys: System<T>, pdu: AdvPdu, s: Session, left: Option<Slots>, parse: bytes -> Option<T>)
    requires Inv(sys, s, left, parse) && pdu in sys.sent
    ensures Inv(Hear(sys, pdu, s), s, left, parse)
  {
    HeardIsSent(sys, pdu, s);
  }

  // Apart from its outgoing PDU, what such a reaction does to the device: nothing, or it opens the link.
  predicate Untouched(device: Iface, after: Iface) {
    after == device.(outbound := after.outbound, outboundNumber := after.outboundNumber)
  }

  lemma OtherReaction<T>(sys: System<T>, e: Event, s: Session, parse: bytes -> Option<T>)
    requires s.Valid() && sys.device.Valid() && Enabled(sys, e, s)
    requires e.LinkOpenArrives? || e.AckArrives? || e.DeviceSends?
    ensures var r := ReactionTo(sys, e, s, parse);
      && r.reception in {Quiet, InvalidLink} && AcksBelow(r.sent, 0)
      && ((Untouched(sys.device, r.state) && (sys.device.linkId.None? ==> r.sent == []))
          || (sys.device.linkId.None? && r.state == sys.device.(inbound := Some(s.base), linkId := Some(s.linkId))))
  {
  }

  lemma InvAfterOther<T>(sys: System<T>, r: Reaction<T>, s: Session, left: Option<Slots>, parse: bytes -> Option<T>)
    requires Inv(sys, s, left, parse) && !sys.crashed && r.state.Valid()
    requires r.reception in {Quiet, InvalidLink} && AcksBelow(r.sent, 0)
    requires Untouched(sys.device, r.state) && (sys.device.linkId.None? ==> r.sent == [])
    ensures Inv(React(sys, r), s, left, parse) && !React(sys, r).crashed
  {
    MoreAcks(sys.sent, r.sent, s.base + |sys.delivered|, s.base + |sys.delivered|);
    assert sys.sent + [] == sys.sent && sys.delivered + [] == sys.delivered;
  }

  lemma InvAfterOpen<T>(sys: System<T>, r: Reaction<T>, s: Session, left: Option<Slots>, parse: bytes -> Option<T>)
    requires Inv(sys, s, left, parse) && sys.device.linkId.None? && r.state.Valid()
    requires r.reception == Quiet && AcksBelow(r.sent, 0)
    requires r.state == sys.device.(inbound := Some(s.base), linkId := Some(s.linkId))
    ensures Inv(React(sys, r), s, left, parse) && !React(sys, r).crashed
  {
    MoreAcks(sys.sent, r.sent, s.base, s.base);
    assert sys.delivered + [] == [];
  }

  // Events that pass nothing up and send no acknowledgement of a transaction.
  lemma OtherEventKeepsInv<T>(sys: System<T>, e: Event, s: Session, left: Option<Slots>, parse: bytes -> Option<T>)
    requires Inv(sys, s, left, parse) && Enabled(sys, e, s) && (e.LinkOpenArrives? || e.AckArrives? || e.DeviceSends?)
    ensures Inv(Step(sys, e, s, parse), s, left, parse) && !Step(sys, e, s, parse).crashed
  {
    var r := ReactionTo(sys, e, s, parse);
    OtherReaction(sys, e, s, parse);
    if Untouched(sys.device, r.state) {
      InvAfterOther(sys, r, s, left, parse);
    } else {
      InvAfterOpen(sys, r, s, left, parse);
    }
  }

  // What a refused segment of one of the peer's messages brings about.
  lemma RefusedPiece<T>(device: Iface, d: nat, cur: nat, k: nat, i: nat, s: Session, parse: bytes -> Option<T>)
    requires s.Valid() && device.Valid() && k < |s.msgs| && i < ChunkCount(s.msgs[k]) && k <= cur <= d
    requires device.linkId.Some? && Numbers(device, d, cur, s) && !ShouldProcess(device, s.base + k).0
    ensures var r := Receive(device, AdvPdu(s.linkId, s.base + k, Piece(s.msgs[k], i)), s.uuid, parse);
      r.state == device && r.reception == Quiet && AcksBelow(r.sent, s.base + d)
  {
    ResentHasNoAck(device, s.base + d);
  }

  lemma MoreSent<T>(sys: System<T>, r: Reaction<T>, s: Session, left: Option<Slots>, parse: bytes -> Option<T>)
    requires Inv(sys, s, left, parse) && sys.device.linkId.Some? && !sys.crashed
    requires r.state == sys.device && r.reception == Quiet && AcksBelow(r.sent, s.base + |sys.delivered|)
    ensures Inv(React(sys, r), s, left, parse)
  {
    MoreAcks(sys.sent, r.sent, s.base + |sys.delivered|, s.base + |sys.delivered|);
    assert React(sys, r) == sys.(sent := sys.sent + r.sent);
  }

  lemma StepOfPiece<T>(sys: System<T>, k: nat, i: nat, s: Session, parse: bytes -> Option<T>)
    requires s.Valid() && sys.device.Valid() && Enabled(sys, PieceArrives(k, i), s)
    ensures Step(sys, PieceArrives(k, i), s, parse)
         == React(sys, Receive(sys.device, AdvPdu(s.linkId, s.base + k, Piece(s.msgs[k], i)), s.uuid, parse))
  {
  }

  lemma RefusedPieceKeepsInv<T>(sys: System<T>, k: nat, i: nat, s: Session, left: Option<Slots>,
                                parse: bytes -> Option<T>, sys': System<T>)
    requires Inv(sys, s, left, parse) && Enabled(sys, PieceArrives(k, i), s)
    requires !ShouldProcess(sys.device, s.base + k).0 && sys' == Step(sys, PieceArrives(k, i), s, parse)
    ensures Inv(sys', s, left, parse) && !sys'.crashed
  {
    StepOfPiece(sys, k, i, s, parse);
    RefusedPiece(sys.device, |sys.delivered|, sys.cur, k, i, s, parse);
    MoreSent(sys, Receive(sys.device, AdvPdu(s.linkId, s.base + k, Piece(s.msgs[k], i)), s.uuid, parse), s, left, parse);
  }

  // The only segments that are processed belong to the next message, the peer's current one.
  lemma ProcessedIsNext(device: Iface, d: nat, cur: nat, k: nat, s: Session)
    requires s.Valid() && k < |s.msgs| && k <= cur <= d && Numbers(device, d, cur, s)
    requires ShouldProcess(device, s.base + k).0
    ensures k == d == cur
    ensures ShouldProcess(device, s.base + k).1 == device.(inbound := Some(s.base + d))
    ensures device.acked.None? || device.acked.value < s.base + d
  {
  }

  // A reaction to a segment of message d: more of it collected, or something passed up for it and acknowledged.
  ghost predicate PieceReaction<T>(r: Reaction<T>, now: Iface, d: nat, s: Session, left: Option<Slots>,
                                   parse: bytes -> Option<T>)
    requires s.Valid() && d < |s.msgs| && now.linkId.Some?
  {
    match r.reception
    case Up(t) =>
      && Expected(left, s.msgs, d, parse) == Some(t) && Buffered(r.state.buffer, d + 1, s.msgs, left)
      && r.sent == [AdvPdu(now.linkId.value, s.base + d, TransactionAck)]
      && r.state == now.(buffer := r.state.buffer, inbound := None, acked := Some(s.base + d))
    case Quiet =>
      r.sent == [] && r.state == now.(buffer := r.state.buffer) && Buffered(r.state.buffer, d, s.msgs, left)
    case Crashed =>
      && r.sent == [] && r.state == now.(buffer := r.state.buffer) && Buffered(r.state.buffer, d, s.msgs, left)
      && d == FirstLong(s.msgs) && !Fits(left, s.msgs)
    case InvalidLink => false
  }

  lemma GatheredPiece<T>(now: Iface, d: nat, i: nat, s: Session, left: Option<Slots>, parse: bytes -> Option<T>)
    requires s.Valid() && AllParse(s.msgs, parse) && d < |s.msgs| && i < ChunkCount(s.msgs[d])
    requires now.Valid() && now.linkId.Some? && now.inbound == Some(s.base + d) && Buffered(now.buffer, d, s.msgs, left)
    requires now.acked.None? || now.acked.value < s.base + d
    ensures PieceReaction(Gather(now, Piece(s.msgs[d], i), parse), now, d, s, left, parse)
  {
    CollectPiece(now.buffer, d, i, s.msgs, left, parse);
  }

  lemma ReceivedPiece<T>(device: Iface, d: nat, cur: nat, k: nat, i: nat, s: Session, parse: bytes -> Option<T>)
    requires s.Valid() && k < |s.msgs| && i < ChunkCount(s.msgs[k]) && k <= cur <= d
    requires device.Valid() && Numbers(device, d, cur, s) && ShouldProcess(device, s.base + k).0
    ensures Receive(device, AdvPdu(s.linkId, s.base + k, Piece(s.msgs[k], i)), s.uuid, parse)
         == Gather(device.(inbound := Some(s.base + d)), Piece(s.msgs[k], i), parse)
  {
    ProcessedIsNext(device, d, cur, k, s);
  }

  lemma ExpectedGrows<T>(delivered: seq<T>, t: T, left: Option<Slots>, msgs: seq<bytes>, parse: bytes -> Option<T>)
    requires AsExpected(delivered, left, msgs, parse)
    requires |delivered| < |msgs| && Expected(left, msgs, |delivered|, parse) == Some(t)
    ensures AsExpected(delivered + [t], left, msgs, parse)
  {
  }

  // The invariant after a segment that completes nothing, and after one that completes the message.
  lemma InvWhileCollecting<T>(sys: System<T>, r: Reaction<T>, s: Session, left: Option<Slots>, parse: bytes -> Option<T>)
    requires Inv(sys, s, left, parse) && sys.device.linkId.Some? && |sys.delivered| == sys.cur < |s.msgs|
    requires PieceReaction(r, sys.device.(inbound := Some(s.base + sys.cur)), sys.cur, s, left, parse) && !r.reception.Up?
    ensures Inv(React(sys, r), s, left, parse)
  {
    assert sys.sent + [] == sys.sent && sys.delivered + [] == sys.delivered;
  }

  lemma InvAfterDelivery<T>(sys: System<T>, r: Reaction<T>, s: Session, left: Option<Slots>, parse: bytes -> Option<T>)
    requires Inv(sys, s, left, parse) && sys.device.linkId.Some? && |sys.delivered| == sys.cur < |s.msgs|
    requires PieceReaction(r, sys.device.(inbound := Some(s.base + sys.cur)), sys.cur, s, left, parse) && r.reception.Up?
    ensures Inv(React(sys, r), s, left, parse)
  {
    var d := sys.cur;
    MoreAcks(sys.sent, r.sent, s.base + d, s.base + d + 1);
    ExpectedGrows(sys.delivered, r.reception.pdu, left, s.msgs, parse);
  }

  lemma ProcessedPiece<T>(device: Iface, d: nat, cur: nat, k: nat, i: nat, s: Session, left: Option<Slots>,
                          parse: bytes -> Option<T>)
    requires s.Valid() && AllParse(s.msgs, parse)
    requires device.Valid() && k < |s.msgs| && i < ChunkCount(s.msgs[k]) && k <= cur <= d
    requires device.linkId.Some? && Numbers(device, d, cur, s) && Buffered(device.buffer, d, s.msgs, left)
    requires ShouldProcess(device, s.base + k).0
    ensures k == d == cur
    ensures PieceReaction(Receive(device, AdvPdu(s.linkId, s.base + k, Piece(s.msgs[k], i)), s.uuid, parse),
                          device.(inbound := Some(s.base + d)), d, s, left, parse)
  {
    ProcessedIsNext(device, d, cur, k, s);
    ReceivedPiece(device, d, cur, k, i, s, parse);
    GatheredPiece(device.(inbound := Some(s.base + d)), d, i, s, left, parse);
  }

  lemma ProcessedPieceKeepsInv<T>(sys: System<T>, k: nat, i: nat, s: Session, left: Option<Slots>,
                                  parse: bytes -> Option<T>, sys': System<T>)
    requires Inv(sys, s, left, parse) && AllParse(s.msgs, parse) && Enabled(sys, PieceArrives(k, i), s)
    requires ShouldProcess(sys.device, s.base + k).0 && sys' == Step(sys, PieceArrives(k, i), s, parse)
    ensures Inv(sys', s, left, parse)
  {
    StepOfPiece(sys, k, i, s, parse);
    ProcessedPiece(sys.device, |sys.delivered|, sys.cur, k, i, s, left, parse);
    var r := Receive(sys.device, AdvPdu(s.linkId, s.base + k, Piece(s.msgs[k], i)), s.uuid, parse);
    if r.reception.Up? {
      InvAfterDelivery(sys, r, s, left, parse);
    } else {
      InvWhileCollecting(sys, r, s, left, parse);
    }
  }

  lemma StepKeepsInv<T>(sys: System<T>, e: Event, s: Session, left: Option<Slots>, parse: bytes -> Option<T>)
    requires Inv(sys, s, left, parse) && AllParse(s.msgs, parse) && Enabled(sys, e, s)
    ensures Inv(Step(sys, e, s, parse), s, left, parse)
  {
    match e
    case PeerHears(pdu) => HearKeepsInv(sys, pdu, s, left, parse);
    case PieceArrives(k, i) =>
      if ShouldProcess(sys.device, s.base + k).0 {
        ProcessedPieceKeepsInv(sys, k, i, s, left, parse, Step(sys, e, s, parse));
      } else {
        RefusedPieceKeepsInv(sys, k, i, s, left, parse, Step(sys, e, s, parse));
      }
    case _ => OtherEventKeepsInv(sys, e, s, left, parse);
  }

  lemma {:induction false} RunKeepsInv<T>(sys: System<T>, events: seq<Event>, s: Session, left: Option<Slots>,
                                          parse: bytes -> Option<T>)
    requires Inv(sys, s, left, parse) && AllParse(s.msgs, parse) && Possible(sys, events, s, parse)
    ensures Inv(Run(sys, events, s, parse), s, left, parse)
    decreases |events|
  {
    if events != [] {
      StepKeepsInv(sys, events[0], s, left, parse);
      RunKeepsInv(Step(sys, events[0], s, parse), events[1..], s, left, parse);
    }
  }

  // Within one link whose numbers are newer, whatever the channel does and whatever was left in the
  // buffer: for the first messages the peer sent, each once and in order, what is expected is passed
  // up; the peer is never ahead of them, and at most one behind. Only a leftover that is too short
  // for the first long message makes the device panic, and then it does so on that message.
  lemma StopAndWaitDelivery<T>(d: Iface, events: seq<Event>, s: Session, parse: bytes -> Option<T>)
    requires s.Valid() && Closed(d) && Newer(d, s) && AllParse(s.msgs, parse) && Possible(Start(d), events, s, parse)
    ensures var end := Run(Start(d), events, s, parse);
      && AsExpected(end.delivered, d.buffer, s.msgs, parse) && end.cur <= |end.delivered| <= end.cur + 1
      && (end.crashed ==> |end.delivered| == FirstLong(s.msgs) && !Fits(d.buffer, s.msgs))
  {
    StartIsInv(d, s, parse);
    RunKeepsInv(Start(d), events, s, d.buffer, parse);
  }

  // ---------------------------------------------------------------- the protocol is never stuck

  lemma {:induction false} RunConcat<T>(sys: System<T>, a: seq<Event>, b: seq<Event>, s: Session,
                                        parse: bytes -> Option<T>)
    requires s.Valid() && sys.device.Valid() && Possible(sys, a, s, parse) && Possible(Run(sys, a, s, parse), b, s, parse)
    ensures Possible(sys, a + b, s, parse) && Run(sys, a + b, s, parse) == Run(Run(sys, a, s, parse), b, s, parse)
    decreases |a|
  {
    if a == [] {
      assert a + b == b;
    } else {
      assert (a + b)[0] == a[0] && (a + b)[1..] == a[1..] + b;
      RunConcat(Step(sys, a[0], s, parse), a[1..], b, s, parse);
    }
  }

  lemma OneEvent<T>(sys: System<T>, e: Event, s: Session, parse: bytes -> Option<T>)
    requires s.Valid() && sys.device.Valid() && Enabled(sys, e, s)
    ensures Possible(sys, [e], s, parse) && Run(sys, [e], s, parse) == Step(sys, e, s, parse)
  {
    assert [e][1..] == [] && Possible(Step(sys, e, s, parse), [], s, parse);
  }

  // One more event at the end of a run.
  lemma Then<T>(sys: System<T>, a: seq<Event>, e: Event, s: Session, parse: bytes -> Option<T>)
    returns (events: seq<Event>, end: System<T>)
    requires s.Valid() && sys.device.Valid() && Possible(sys, a, s, parse) && Enabled(Run(sys, a, s, parse), e, s)
    ensures events == a + [e] && Possible(sys, events, s, parse) && end == Run(sys, events, s, parse)
    ensures end == Step(Run(sys, a, s, parse), e, s, parse)
  {
    OneEvent(Run(sys, a, s, parse), e, s, parse);
    RunConcat(sys, a, [e], s, parse);
    events, end := a + [e], Step(Run(sys, a, s, parse), e, s, parse);
  }

  // The message the peer waits for is always processed when it was not delivered yet.
  lemma CurrentIsProcessed(device: Iface, d: nat, s: Session)
    requires s.Valid() && d < |s.msgs| && Numbers(device, d, d, s)
    ensures ShouldProcess(device, s.base + d).0
    ensures device.acked.None? || device.acked.value < s.base + d
  {
  }

  // A run has given the first i segments of message d when it has either passed it up or buffered them all.
  ghost predicate Gave<T>(sys: System<T>, d: nat, i: nat, msgs: seq<bytes>)
    requires d < |msgs|
  {
    && sys.open && !sys.crashed && sys.cur == d
    && (|sys.delivered| == d + 1
        || (|sys.delivered| == d && HasFirst(sys.device.buffer, i) && (i > 0 ==> ChunkCount(msgs[d]) > 1)))
  }

  lemma GiveNext<T>(sys: System<T>, i: nat, s: Session, left: Option<Slots>, parse: bytes -> Option<T>, sys': System<T>)
    requires Inv(sys, s, left, parse) && AllParse(s.msgs, parse) && !sys.crashed && sys.open
    requires |sys.delivered| == sys.cur < |s.msgs| && i < ChunkCount(s.msgs[sys.cur]) && HasFirst(sys.device.buffer, i)
    requires Passable(left, s.msgs, sys.cur, parse) && sys' == Step(sys, PieceArrives(sys.cur, i), s, parse)
    ensures Gave(sys', sys.cur, i + 1, s.msgs)
  {
    var d := sys.cur;
    CurrentIsProcessed(sys.device, d, s);
    StepOfPiece(sys, d, i, s, parse);
    ReceivedPiece(sys.device, d, d, d, i, s, parse);
    var now := sys.device.(inbound := Some(s.base + d));
    GatheredPiece(now, d, i, s, left, parse);
    NextChunk(now.buffer, d, i, s.msgs, left, parse);
  }

  lemma GiveOneMore<T>(sys: System<T>, before: seq<Event>, i: nat, s: Session, left: Option<Slots>,
                       parse: bytes -> Option<T>)
    returns (events: seq<Event>, end: System<T>)
    requires s.Valid() && sys.device.Valid() && Possible(sys, before, s, parse) && AllParse(s.msgs, parse)
    requires Inv(Run(sys, before, s, parse), s, left, parse)
    requires sys.cur < |s.msgs| && i < ChunkCount(s.msgs[sys.cur]) && Gave(Run(sys, before, s, parse), sys.cur, i, s.msgs)
    requires Passable(left, s.msgs, sys.cur, parse)
    ensures Possible(sys, events, s, parse) && end == Run(sys, events, s, parse) && Inv(end, s, left, parse)
    ensures Gave(end, sys.cur, i + 1, s.msgs)
  {
    var mid := Run(sys, before, s, parse);
    events, end := before, mid;
    if |mid.delivered| == sys.cur {
      events, end := Then(sys, before, PieceArrives(sys.cur, i), s, parse);
      StepKeepsInv(mid, PieceArrives(sys.cur, i), s, left, parse);
      GiveNext(mid, i, s, left, parse, end);
    }
  }

  lemma {:induction false} GiveFirst<T>(sys: System<T>, i: nat, s: Session, left: Option<Slots>,
                                        parse: bytes -> Option<T>)
    returns (events: seq<Event>, end: System<T>)
    requires Inv(sys, s, left, parse) && AllParse(s.msgs, parse) && !sys.crashed && sys.open
    requires |sys.delivered| == sys.cur < |s.msgs| && i <= ChunkCount(s.msgs[sys.cur]) && Passable(left, s.msgs, sys.cur, parse)
    ensures Possible(sys, events, s, parse) && end == Run(sys, events, s, parse) && Inv(end, s, left, parse)
    ensures Gave(end, sys.cur, i, s.msgs)
  {
    if i == 0 {
      events, end := [], sys;
    } else {
      events, end := GiveFirst(sys, i - 1, s, left, parse);
      events, end := GiveOneMore(sys, events, i - 1, s, left, parse);
    }
  }

  // A message that has been passed up is acknowledged again on demand.
  lemma RefusedIsAcked<T>(device: Iface, d: nat, s: Session, parse: bytes -> Option<T>, r: Reaction<T>)
    requires s.Valid() && device.Valid() && d < |s.msgs|
    requires device.linkId == Some(s.linkId) && Numbers(device, d + 1, d, s)
    requires r == Receive(device, AdvPdu(s.linkId, s.base + d, Piece(s.msgs[d], 0)), s.uuid, parse)
    ensures r.reception == Quiet && AdvPdu(s.linkId, s.base + d, TransactionAck) in r.sent
  {
    assert AckAgain(device, s.base + d) == [AdvPdu(s.linkId, s.base + d, TransactionAck)];
  }

  lemma AckOnDemand<T>(sys: System<T>, s: Session, left: Option<Slots>, parse: bytes -> Option<T>, sys': System<T>)
    requires Inv(sys, s, left, parse) && !sys.crashed && sys.open && |sys.delivered| == sys.cur + 1
    requires sys' == Step(sys, PieceArrives(sys.cur, 0), s, parse)
    ensures sys'.open && !sys'.crashed && sys'.cur == sys.cur && sys'.delivered == sys.delivered
    ensures AdvPdu(s.linkId, s.base + sys.cur, TransactionAck) in sys'.sent
  {
    StepOfPiece(sys, sys.cur, 0, s, parse);
    var r := Receive(sys.device, AdvPdu(s.linkId, s.base + sys.cur, Piece(s.msgs[sys.cur], 0)), s.uuid, parse);
    RefusedIsAcked(sys.device, sys.cur, s, parse, r);
    assert sys' == React(sys, r) && sys.delivered + [] == sys.delivered;
  }

  // The current message can be passed up, whatever is in the buffer, unless a leftover is in its way.
  lemma DeliverCurrent<T>(sys: System<T>, s: Session, left: Option<Slots>, parse: bytes -> Option<T>)
    returns (events: seq<Event>, end: System<T>)
    requires Inv(sys, s, left, parse) && AllParse(s.msgs, parse) && !sys.crashed && sys.open && sys.cur < |s.msgs|
    requires Passable(left, s.msgs, sys.cur, parse)
    ensures Possible(sys, events, s, parse) && end == Run(sys, events, s, parse) && Inv(end, s, left, parse)
    ensures end.open && !end.crashed && end.cur == sys.cur && |end.delivered| == sys.cur + 1
  {
    events, end := [], sys;
    if |sys.delivered| == sys.cur {
      events, end := GiveFirst(sys, ChunkCount(s.msgs[sys.cur]), s, left, parse);
      if |end.delivered| == sys.cur { NotAllBuffered(end.device.buffer, sys.cur, s.msgs, left, parse); }
    }
  }

  // Once it is passed up, the peer hears of it after asking again.
  lemma HearDelivered<T>(sys: System<T>, s: Session, left: Option<Slots>, parse: bytes -> Option<T>)
    returns (events: seq<Event>, end: System<T>)
    requires Inv(sys, s, left, parse) && AllParse(s.msgs, parse) && !sys.crashed && sys.open && |sys.delivered| == sys.cur + 1
    ensures Possible(sys, events, s, parse) && end == Run(sys, events, s, parse) && Inv(end, s, left, parse)
    ensures end.open && !end.crashed && end.cur == |end.delivered| == sys.cur + 1
  {
    var mid, ack := sys, AdvPdu(s.linkId, s.base + sys.cur, TransactionAck);
    assert Possible(sys, [], s, parse);
    events, mid := Then(sys, [], PieceArrives(sys.cur, 0), s, parse);
    AckOnDemand(sys, s, left, parse, mid);
    assert Hear(mid, ack, s) == mid.(cur := sys.cur + 1);
    StepKeepsInv(sys, PieceArrives(sys.cur, 0), s, left, parse);
    events, end := Then(sys, events, PeerHears(ack), s, parse);
    HearKeepsInv(mid, ack, s, left, parse);
  }

  // Whatever has happened on an open link, the peer can get its current message through.
  lemma PeerAdvances<T>(sys: System<T>, s: Session, left: Option<Slots>, parse: bytes -> Option<T>)
    returns (events: seq<Event>, end: System<T>)
    requires Inv(sys, s, left, parse) && AllParse(s.msgs, parse) && !sys.crashed && sys.open && sys.cur < |s.msgs|
    requires Passable(left, s.msgs, sys.cur, parse)
    ensures Possible(sys, events, s, parse) && end == Run(sys, events, s, parse) && Inv(end, s, left, parse)
    ensures end.open && !end.crashed && end.cur == |end.delivered| == sys.cur + 1
  {
    var first, mid := DeliverCurrent(sys, s, left, parse);
    var rest, last := HearDelivered(mid, s, left, parse);
    RunConcat(sys, first, rest, s, parse);
    events, end := first + rest, last;
  }

  // Opening a link, or opening it again, is acknowledged.
  lemma OpenLink<T>(sys: System<T>, s: Session, left: Option<Slots>, parse: bytes -> Option<T>)
    returns (events: seq<Event>, end: System<T>)
    requires Inv(sys, s, left, parse) && AllParse(s.msgs, parse) && !sys.crashed
    ensures Possible(sys, events, s, parse) && end == Run(sys, events, s, parse) && Inv(end, s, left, parse)
    ensures end.open && !end.crashed && end.cur == sys.cur && end.delivered == sys.delivered
  {
    var mid, ack := sys, AdvPdu(s.linkId, 0, LinkAck);
    assert Possible(sys, [], s, parse);
    events, mid := Then(sys, [], LinkOpenArrives, s, parse);
    OtherEventKeepsInv(sys, LinkOpenArrives, s, left, parse);
    assert mid.sent[|mid.sent| - 1] == ack;
    events, end := Then(sys, events, PeerHears(ack), s, parse);
    HearKeepsInv(mid, ack, s, left, parse);
  }

  // The peer can get on until it has heard of the first n messages, when all of those pass.
  lemma {:induction false} GetOn<T>(sys: System<T>, n: nat, s: Session, left: Option<Slots>, parse: bytes -> Option<T>)
    returns (events: seq<Event>, end: System<T>)
    requires Inv(sys, s, left, parse) && AllParse(s.msgs, parse) && !sys.crashed && sys.open && sys.cur < n <= |s.msgs|
    requires forall j | sys.cur <= j < n :: Passable(left, s.msgs, j, parse)
    ensures Possible(sys, events, s, parse) && end == Run(sys, events, s, parse) && Inv(end, s, left, parse)
    ensures end.open && !end.crashed && end.cur == |end.delivered| == n
    decreases n - sys.cur
  {
    events, end := PeerAdvances(sys, s, left, parse);
    if end.cur < n {
      var more, last := GetOn(end, n, s, left, parse);
      RunConcat(sys, events, more, s, parse);
      events, end := events + more, last;
    }
  }

  lemma OpenAndGetOn<T>(sys: System<T>, n: nat, s: Session, left: Option<Slots>, parse: bytes -> Option<T>)
    returns (events: seq<Event>, end: System<T>)
    requires Inv(sys, s, left, parse) && AllParse(s.msgs, parse) && !sys.crashed && sys.cur < n <= |s.msgs|
    requires forall j | sys.cur <= j < n :: Passable(left, s.msgs, j, parse)
    ensures Possible(sys, events, s, parse) && end == Run(sys, events, s, parse) && Inv(end, s, left, parse)
    ensures end.open && !end.crashed && end.cur == |end.delivered| == n
  {
    var open, mid := OpenLink(sys, s, left, parse);
    var rest, last := GetOn(mid, n, s, left, parse);
    RunConcat(sys, open, rest, s, parse);
    events, end := open + rest, last;
  }

  lemma CompletablePasses<T>(left: Option<Slots>, msgs: seq<bytes>, j: nat, parse: bytes -> Option<T>)
    requires AllParse(msgs, parse) && Completable(left, msgs, parse) && j < |msgs|
    ensures Fits(left, msgs) && Passable(left, msgs, j, parse) && Expected(left, msgs, j, parse) == parse(msgs[j])
  {
  }

  lemma ExpectedIsSent<T>(delivered: seq<T>, left: Option<Slots>, msgs: seq<bytes>, parse: bytes -> Option<T>)
    requires AsExpected(delivered, left, msgs, parse) && AllParse(msgs, parse) && Completable(left, msgs, parse)
    ensures Prefix(delivered, msgs, parse)
  {
    forall i | 0 <= i < |delivered| ensures parse(msgs[i]) == Some(delivered[i]) {
      CompletablePasses(left, msgs, i, parse);
    }
  }

  lemma Finish<T>(sys: System<T>, s: Session, left: Option<Slots>, parse: bytes -> Option<T>)
    returns (events: seq<Event>, end: System<T>)
    requires Inv(sys, s, left, parse) && AllParse(s.msgs, parse) && Completable(left, s.msgs, parse)
    ensures Possible(sys, events, s, parse) && end == Run(sys, events, s, parse)
    ensures end.cur == |end.delivered| == |s.msgs| && Prefix(end.delivered, s.msgs, parse)
  {
    events, end := [], sys;
    if sys.cur < |s.msgs| {
      forall j | sys.cur <= j < |s.msgs| ensures Passable(left, s.msgs, j, parse) {
        CompletablePasses(left, s.msgs, j, parse);
      }
      events, end := OpenAndGetOn(sys, |s.msgs|, s, left, parse);
    }
    ExpectedIsSent(end.delivered, left, s.msgs, parse);
  }

  // No run within a link gets stuck: it can be continued until every message has been delivered,
  // once and in order, and the peer knows.
  lemma NeverStuck<T>(d: Iface, before: seq<Event>, s: Session, parse: bytes -> Option<T>) returns (after: seq<Event>)
    requires s.Valid() && Closed(d) && Newer(d, s) && Completable(d.buffer, s.msgs, parse)
    requires AllParse(s.msgs, parse) && Possible(Start(d), before, s, parse)
    ensures Possible(Start(d), before + after, s, parse)
    ensures var end := Run(Start(d), before + after, s, parse);
      end.cur == |end.delivered| == |s.msgs| && Prefix(end.delivered, s.msgs, parse)
  {
    StartIsInv(d, s, parse);
    RunKeepsInv(Start(d), before, s, d.buffer, parse);
    var end;
    after, end := Finish(Run(Start(d), before, s, parse), s, d.buffer, parse);
    RunConcat(Start(d), before, after, s, parse);
  }
}
