/** Exactly when a link delivers what the peer sends, over every number and every buffer that an
    earlier link can leave behind. */
module StopAndWaitLimits {
  import opened Wrappers
  import opened Mesh
  import opened PbAdvSegments
  import opened PbAdvInterface
  import opened Leftover
  import opened StopAndWait

  // ---------------------------------------------------------------- a leftover without room

  function PastEnd(left: Slots): nat { if |left| == 0 then 1 else |left| }

  lemma PieceCrashes<T>(sys: System<T>, s: Session, left: Slots, parse: bytes -> Option<T>, sys': System<T>)
    requires Inv(sys, s, Some(left), parse) && !sys.crashed && sys.open && |sys.delivered| == sys.cur == FirstLong(s.msgs)
    requires Meets(Some(left), s.msgs) && !Fits(Some(left), s.msgs)
    requires sys' == Step(sys, PieceArrives(sys.cur, PastEnd(left)), s, parse)
    ensures sys'.crashed && sys'.delivered == sys.delivered
  {
    var (d, i) := (sys.cur, PastEnd(left));
    CurrentIsProcessed(sys.device, d, s);
    StepOfPiece(sys, d, i, s, parse);
    ReceivedPiece(sys.device, d, d, d, i, s, parse);
    PastLeftover(sys.device.buffer.value, s.msgs[d], i, parse);
    assert sys.delivered + [] == sys.delivered;
  }

  // On newer numbers, the device gets as far as the first long message.
  lemma GetToFirstLong<T>(d: Iface, s: Session, parse: bytes -> Option<T>)
    returns (events: seq<Event>, end: System<T>)
    requires s.Valid() && Closed(d) && Newer(d, s) && AllParse(s.msgs, parse) && FirstLong(s.msgs) < |s.msgs|
    ensures Possible(Start(d), events, s, parse) && end == Run(Start(d), events, s, parse) && Inv(end, s, d.buffer, parse)
    ensures end.open && !end.crashed && end.cur == |end.delivered| == FirstLong(s.msgs)
  {
    StartIsInv(d, s, parse);
    if FirstLong(s.msgs) == 0 {
      events, end := OpenLink(Start(d), s, d.buffer, parse);
    } else {
      events, end := OpenAndGetOn(Start(d), FirstLong(s.msgs), s, d.buffer, parse);
    }
  }

  lemma ShortLeftoverCrashes<T>(d: Iface, s: Session, parse: bytes -> Option<T>) returns (events: seq<Event>)
    requires s.Valid() && Closed(d) && Newer(d, s) && AllParse(s.msgs, parse)
    requires Meets(d.buffer, s.msgs) && !Fits(d.buffer, s.msgs)
    ensures Possible(Start(d), events, s, parse)
    ensures var end := Run(Start(d), events, s, parse); end.crashed && |end.delivered| == FirstLong(s.msgs)
  {
    var mid, end;
    events, mid := GetToFirstLong(d, s, parse);
    events, end := Then(Start(d), events, PieceArrives(mid.cur, PastEnd(d.buffer.value)), s, parse);
    PieceCrashes(mid, s, d.buffer.value, parse, end);
  }

  lemma {:induction false} CrashedStays<T>(sys: System<T>, events: seq<Event>, s: Session, parse: bytes -> Option<T>)
    requires s.Valid() && sys.device.Valid() && sys.crashed && Possible(sys, events, s, parse)
    ensures Run(sys, events, s, parse).crashed && Run(sys, events, s, parse).delivered == sys.delivered
    decreases |events|
  {
    if events != [] {
      CrashedStays(Step(sys, events[0], s, parse), events[1..], s, parse);
    }
  }

  // ---------------------------------------------------------------- a leftover that decodes

  lemma LeftoverPasses<T>(d: Iface, s: Session, parse: bytes -> Option<T>) returns (events: seq<Event>)
    requires s.Valid() && Closed(d) && Newer(d, s) && AllParse(s.msgs, parse) && Meets(d.buffer, s.msgs)
    requires Passable(d.buffer, s.msgs, FirstLong(s.msgs), parse)
    ensures Possible(Start(d), events, s, parse)
    ensures var (end, j) := (Run(Start(d), events, s, parse), FirstLong(s.msgs));
      |end.delivered| > j && Some(end.delivered[j]) == Expected(d.buffer, s.msgs, j, parse)
  {
    StartIsInv(d, s, parse);
    var end;
    events, end := OpenAndGetOn(Start(d), FirstLong(s.msgs) + 1, s, d.buffer, parse);
  }

  // A leftover whose first chunk does not begin the first long message: whatever is passed up in the
  // place of that message was decoded from other octets.
  lemma NeverAsSent<T>(d: Iface, x: bytes, events: seq<Event>, s: Session, parse: bytes -> Option<T>) returns (y: bytes)
    requires s.Valid() && Closed(d) && Newer(d, s) && AllParse(s.msgs, parse) && Possible(Start(d), events, s, parse)
    requires Meets(d.buffer, s.msgs) && d.buffer.value != [] && d.buffer.value[0] == Some(x) && !(x <= Long(s.msgs))
    ensures x <= y && y != Long(s.msgs)
    ensures var (end, j) := (Run(Start(d), events, s, parse), FirstLong(s.msgs));
      |end.delivered| > j ==> parse(y) == Some(end.delivered[j])
  {
    StopAndWaitDelivery(d, events, s, parse);
    y := x;
    var o := Overlay(d.buffer.value, Long(s.msgs));
    if Full(o) {
      FirstChunkLeads(o, x);
      y := Join(o);
    }
  }

  // ---------------------------------------------------------------- numbers that are not newer

  // Where such a link stands: nothing is acknowledged, so the peer stays at its first message.
  ghost predicate Stale<T>(sys: System<T>, s: Session, left: Option<Slots>) {
    && s.Valid() && sys.device.Valid() && !Newer(sys.device, s) && sys.cur == 0 && AcksBelow(sys.sent, 0)
    && (sys.device.linkId.None? ==>
        sys.device.buffer == left && !sys.crashed && !sys.open && sys.sent == [] && sys.delivered == [])
    && (sys.device.linkId.Some? ==> sys.device.linkId.value == s.linkId && sys.device.inbound == Some(s.base))
  }

  function Upward<T>(outcome: Outcome<T>): Reception<T> {
    match outcome
    case Passed(t) => Up(t)
    case Nothing => Quiet
    case Panicked => Crashed
  }

  lemma StalePiece<T>(device: Iface, pdu: AdvPdu, uuid: bytes, parse: bytes -> Option<T>)
    requires device.Valid() && device.inbound == Some(pdu.number) && device.acked.Some? && device.acked.value >= pdu.number
    requires pdu.pdu.TransactionStart? || pdu.pdu.TransactionContinuation?
    ensures var (buffer, outcome) := Collect(device.buffer, pdu.pdu, parse);
      Receive(device, pdu, uuid, parse) == Reaction(device.(buffer := buffer), [], Upward(outcome))
  {
  }

  function AfterStalePiece<T>(sys: System<T>, r: (Option<Slots>, Outcome<T>)): System<T> {
    sys.(device := sys.device.(buffer := r.0), crashed := r.1.Panicked?,
         delivered := sys.delivered + if r.1.Passed? then [r.1.pdu] else [])
  }

  lemma StaleStepOfPiece<T>(sys: System<T>, k: nat, i: nat, s: Session, left: Option<Slots>, parse: bytes -> Option<T>)
    requires Stale(sys, s, left) && sys.device.linkId.Some? && Enabled(sys, PieceArrives(k, i), s)
    ensures k == 0 && Step(sys, PieceArrives(k, i), s, parse)
                   == AfterStalePiece(sys, Collect(sys.device.buffer, Piece(s.msgs[0], i), parse))
  {
    StepOfPiece(sys, k, i, s, parse);
    StalePiece(sys.device, AdvPdu(s.linkId, s.base, Piece(s.msgs[0], i)), s.uuid, parse);
    assert sys.sent + [] == sys.sent;
  }

  // A leftover that has room for the first message, which is long, and decodes to nothing with it.
  ghost predicate Mute<T>(left: Option<Slots>, msgs: seq<bytes>, parse: bytes -> Option<T>) {
    msgs != [] ==>
      left.Some? && FirstLong(msgs) == 0 && Fits(left, msgs) && Expected(left, msgs, 0, parse).None?
  }

  ghost predicate Silent<T>(sys: System<T>, s: Session, left: Option<Slots>) {
    !sys.crashed && sys.delivered == [] && (s.msgs != [] ==> Buffered(sys.device.buffer, 0, s.msgs, left))
  }

  lemma StaleOther<T>(sys: System<T>, e: Event, s: Session, left: Option<Slots>, parse: bytes -> Option<T>,
                      sys': System<T>)
    requires Stale(sys, s, left) && Enabled(sys, e, s) && !e.PieceArrives? && sys' == Step(sys, e, s, parse)
    ensures Stale(sys', s, left) && sys'.device.buffer == sys.device.buffer && sys'.delivered == sys.delivered
    ensures sys'.crashed == sys.crashed
  {
    if !e.PeerHears? {
      var r := ReactionTo(sys, e, s, parse);
      OtherReaction(sys, e, s, parse);
      MoreAcks(sys.sent, r.sent, 0, 0);
      assert sys.sent + [] == sys.sent && sys.delivered + [] == sys.delivered;
    }
  }

  lemma StaleStep<T>(sys: System<T>, e: Event, s: Session, left: Option<Slots>, parse: bytes -> Option<T>,
                     sys': System<T>)
    requires Stale(sys, s, left) && AllParse(s.msgs, parse) && Enabled(sys, e, s) && sys' == Step(sys, e, s, parse)
    ensures Stale(sys', s, left)
    ensures Mute(left, s.msgs, parse) && Silent(sys, s, left) ==> Silent(sys', s, left)
  {
    if e.PieceArrives? {
      StaleStepOfPiece(sys, e.k, e.i, s, left, parse);
      if Mute(left, s.msgs, parse) && Silent(sys, s, left) {
        CollectPiece(sys.device.buffer, 0, e.i, s.msgs, left, parse);
      }
    } else {
      StaleOther(sys, e, s, left, parse, sys');
    }
  }

  lemma {:induction false} StaleRun<T>(sys: System<T>, events: seq<Event>, s: Session, left: Option<Slots>,
                                       parse: bytes -> Option<T>)
    requires Stale(sys, s, left) && AllParse(s.msgs, parse) && Possible(sys, events, s, parse)
    ensures Stale(Run(sys, events, s, parse), s, left)
    ensures Mute(left, s.msgs, parse) && Silent(sys, s, left) ==> Silent(Run(sys, events, s, parse), s, left)
    decreases |events|
  {
    if events != [] {
      StaleStep(sys, events[0], s, left, parse, Step(sys, events[0], s, parse));
      StaleRun(Step(sys, events[0], s, parse), events[1..], s, left, parse);
    }
  }

  // On numbers that are not newer, no run acknowledges anything: the peer waits for ever.
  lemma StaleNeverAcknowledged<T>(d: Iface, events: seq<Event>, s: Session, parse: bytes -> Option<T>)
    requires s.Valid() && Closed(d) && !Newer(d, s) && AllParse(s.msgs, parse) && Possible(Start(d), events, s, parse)
    ensures var end := Run(Start(d), events, s, parse); end.cur == 0 && forall p | p in end.sent :: !p.pdu.TransactionAck?
    ensures Mute(d.buffer, s.msgs, parse) ==> var end := Run(Start(d), events, s, parse); end.delivered == [] && !end.crashed
  {
    StaleRun(Start(d), events, s, d.buffer, parse);
  }

  // ---------------------------------------------------------------- and their messages repeat

  // An open link on which the first message p can be collected, with what is left of a leftover.
  ghost predicate Ready<T>(sys: System<T>, s: Session, left: Option<Slots>, before: Option<Slots>) {
    && s.msgs != [] && Stale(sys, s, left) && sys.device.linkId.Some? && sys.open && !sys.crashed
    && Buffered(sys.device.buffer, 0, [s.msgs[0]], before)
  }

  // A run has given the first i segments of a round: the message was passed up, or they are buffered.
  ghost predicate GaveAgain<T>(sys: System<T>, delivered: seq<T>, i: nat, s: Session, left: Option<Slots>,
                               before: Option<Slots>, v: T) {
    && s.msgs != [] && Stale(sys, s, left) && sys.device.linkId.Some? && sys.open && !sys.crashed
    && ((sys.delivered == delivered + [v] && Buffered(sys.device.buffer, 1, [s.msgs[0]], before))
        || (&& sys.delivered == delivered && Buffered(sys.device.buffer, 0, [s.msgs[0]], before)
            && HasFirst(sys.device.buffer, i) && (i > 0 ==> ChunkCount(s.msgs[0]) > 1)))
  }

  lemma GaveWhenCollected<T>(sys: System<T>, r: (Option<Slots>, Outcome<T>), i: nat, s: Session, left: Option<Slots>,
                             before: Option<Slots>, v: T, sys': System<T>)
    requires Ready(sys, s, left, before) && sys' == AfterStalePiece(sys, r) && Stale(sys', s, left)
    requires Collected(r, 0, [s.msgs[0]], before, Some(v)) && !r.1.Panicked?
    requires r.1.Passed? || (ChunkCount(s.msgs[0]) > 1 && HasFirst(r.0, i + 1))
    ensures GaveAgain(sys', sys.delivered, i + 1, s, left, before, v)
  {
    assert sys.delivered + [] == sys.delivered;
  }

  lemma GiveNextAgain<T>(sys: System<T>, i: nat, s: Session, left: Option<Slots>, before: Option<Slots>,
                         parse: bytes -> Option<T>, v: T, sys': System<T>)
    requires Ready(sys, s, left, before) && AllParse(s.msgs, parse) && HasFirst(sys.device.buffer, i)
    requires Passable(before, [s.msgs[0]], 0, parse) && Expected(before, [s.msgs[0]], 0, parse) == Some(v)
    requires i < ChunkCount(s.msgs[0]) && sys' == Step(sys, PieceArrives(0, i), s, parse)
    ensures GaveAgain(sys', sys.delivered, i + 1, s, left, before, v)
  {
    StaleStepOfPiece(sys, 0, i, s, left, parse);
    StaleStep(sys, PieceArrives(0, i), s, left, parse, sys');
    CollectPiece(sys.device.buffer, 0, i, [s.msgs[0]], before, parse);
    NextChunk(sys.device.buffer, 0, i, [s.msgs[0]], before, parse);
    GaveWhenCollected(sys, Collect(sys.device.buffer, Piece(s.msgs[0], i), parse), i, s, left, before, v, sys');
  }

  lemma {:induction false} GiveAgain<T>(sys: System<T>, i: nat, s: Session, left: Option<Slots>, before: Option<Slots>,
                                        parse: bytes -> Option<T>, v: T)
    returns (events: seq<Event>, end: System<T>)
    requires Ready(sys, s, left, before) && AllParse(s.msgs, parse)
    requires Passable(before, [s.msgs[0]], 0, parse) && Expected(before, [s.msgs[0]], 0, parse) == Some(v)
    requires i <= ChunkCount(s.msgs[0])
    ensures Possible(sys, events, s, parse) && end == Run(sys, events, s, parse)
    ensures GaveAgain(end, sys.delivered, i, s, left, before, v)
  {
    events, end := [], sys;
    if i > 0 {
      events, end := GiveAgain(sys, i - 1, s, left, before, parse, v);
      if end.delivered == sys.delivered {
        var mid := end;
        events, end := Then(sys, events, PieceArrives(0, i - 1), s, parse);
        GiveNextAgain(mid, i - 1, s, left, before, parse, v, end);
      }
    }
  }

  // What is left of a leftover once the first message has been passed up.
  function Rest(before: Option<Slots>, p: bytes): Option<Slots> { if ChunkCount(p) > 1 then None else before }

  lemma Round<T>(sys: System<T>, s: Session, left: Option<Slots>, before: Option<Slots>, parse: bytes -> Option<T>, v: T)
    returns (events: seq<Event>, end: System<T>)
    requires Ready(sys, s, left, before) && AllParse(s.msgs, parse)
    requires Passable(before, [s.msgs[0]], 0, parse) && Expected(before, [s.msgs[0]], 0, parse) == Some(v)
    ensures Possible(sys, events, s, parse) && end == Run(sys, events, s, parse)
    ensures end.delivered == sys.delivered + [v] && Ready(end, s, left, Rest(before, s.msgs[0]))
  {
    events, end := GiveAgain(sys, ChunkCount(s.msgs[0]), s, left, before, parse, v);
    if end.delivered == sys.delivered {
      NotAllBuffered(end.device.buffer, 0, [s.msgs[0]], before, parse);
    }
  }

  lemma StaleOpens<T>(d: Iface, s: Session, parse: bytes -> Option<T>) returns (events: seq<Event>, end: System<T>)
    requires s.Valid() && Closed(d) && !Newer(d, s) && AllParse(s.msgs, parse) && s.msgs != []
    ensures events == [LinkOpenArrives, PeerHears(AdvPdu(s.linkId, 0, LinkAck))]
    ensures Possible(Start(d), events, s, parse) && end == Run(Start(d), events, s, parse)
    ensures Ready(end, s, d.buffer, d.buffer) && end.delivered == [] && end.device.buffer == d.buffer
  {
    var sys: System<T>, ack := Start(d), AdvPdu(s.linkId, 0, LinkAck);
    OneEvent(sys, LinkOpenArrives, s, parse);
    var mid := Step(sys, LinkOpenArrives, s, parse);
    StaleOther(sys, LinkOpenArrives, s, d.buffer, parse, mid);
    assert mid.sent == [ack];
    events, end := Then(sys, [LinkOpenArrives], PeerHears(ack), s, parse);
    StaleOther(mid, PeerHears(ack), s, d.buffer, parse, end);
  }

  lemma {:induction false} Rounds<T>(sys: System<T>, n: nat, s: Session, left: Option<Slots>, before: Option<Slots>,
                                     parse: bytes -> Option<T>, v: T)
    returns (events: seq<Event>, end: System<T>)
    requires Ready(sys, s, left, before) && AllParse(s.msgs, parse)
    requires before.None? || ChunkCount(s.msgs[0]) == 1
    requires parse(s.msgs[0]) == Some(v)
    ensures Possible(sys, events, s, parse) && end == Run(sys, events, s, parse)
    ensures end.delivered == sys.delivered + seq(n, _ => v)
    decreases n
  {
    events, end := [], sys;
    if n > 0 {
      var first, mid, more;
      first, mid := Round(sys, s, left, before, parse, v);
      more, end := Rounds(mid, n - 1, s, left, Rest(before, s.msgs[0]), parse, v);
      RunConcat(sys, first, more, s, parse);
      events := first + more;
      assert seq(n, _ => v) == [v] + seq(n - 1, _ => v);
    }
  }

  // On numbers that are not newer, the first message is passed up as often as the peer sends it: for
  // every n there is a run with n of them. A leftover that it meets makes the first of them decode
  // differently.
  lemma StaleRepeats<T>(d: Iface, n: nat, s: Session, parse: bytes -> Option<T>) returns (events: seq<Event>)
    requires s.Valid() && Closed(d) && !Newer(d, s) && AllParse(s.msgs, parse) && s.msgs != []
    requires Passable(d.buffer, s.msgs, 0, parse)
    ensures Possible(Start(d), events, s, parse)
    ensures Run(Start(d), events, s, parse).delivered
         == [Expected(d.buffer, s.msgs, 0, parse).value] + seq(n, _ => parse(s.msgs[0]).value)
  {
    var open, sys := StaleOpens(d, s, parse);
    var first, mid := Round(sys, s, d.buffer, d.buffer, parse, Expected(d.buffer, s.msgs, 0, parse).value);
    var more, end := Rounds(mid, n, s, d.buffer, Rest(d.buffer, s.msgs[0]), parse, parse(s.msgs[0]).value);
    RunConcat(sys, first, more, s, parse);
    RunConcat(Start(d), open, first + more, s, parse);
    events := open + (first + more);
  }

  lemma StaleShortCrashes<T>(d: Iface, s: Session, parse: bytes -> Option<T>) returns (events: seq<Event>)
    requires s.Valid() && Closed(d) && !Newer(d, s) && AllParse(s.msgs, parse) && s.msgs != []
    requires d.buffer.Some? && FirstLong(s.msgs) == 0 && !Fits(d.buffer, s.msgs)
    ensures Possible(Start(d), events, s, parse) && Run(Start(d), events, s, parse).crashed
  {
    var mid, i := Start(d), PastEnd(d.buffer.value);
    events, mid := StaleOpens(d, s, parse);
    StaleStepOfPiece(mid, 0, i, s, d.buffer, parse);
    PastLeftover(d.buffer.value, s.msgs[0], i, parse);
    events, mid := Then(Start(d), events, PieceArrives(0, i), s, parse);
  }

  // ---------------------------------------------------------------- exactly when

  // In every run the messages passed up are the first ones sent, each once and in order, and the
  // device does not panic.
  ghost predicate AlwaysSound<T>(d: Iface, s: Session, parse: bytes -> Option<T>)
    requires s.Valid() && Closed(d)
  {
    forall events: seq<Event> | Possible(Start(d), events, s, parse) ::
      var end := Run(Start(d), events, s, parse); Prefix(end.delivered, s.msgs, parse) && !end.crashed
  }

  lemma HarmlessIsSound<T>(d: Iface, events: seq<Event>, s: Session, parse: bytes -> Option<T>)
    requires s.Valid() && Closed(d) && Newer(d, s) && AllParse(s.msgs, parse) && Possible(Start(d), events, s, parse)
    requires Harmless(d.buffer, s.msgs, parse)
    ensures var end := Run(Start(d), events, s, parse); Prefix(end.delivered, s.msgs, parse) && !end.crashed
  {
    StopAndWaitDelivery(d, events, s, parse);
  }

  lemma HarmfulIsUnsound<T>(d: Iface, s: Session, parse: bytes -> Option<T>)
    requires s.Valid() && Closed(d) && Newer(d, s) && AllParse(s.msgs, parse) && !Harmless(d.buffer, s.msgs, parse)
    ensures !AlwaysSound(d, s, parse)
  {
    var events;
    if Fits(d.buffer, s.msgs) {
      events := LeftoverPasses(d, s, parse);
    } else {
      events := ShortLeftoverCrashes(d, s, parse);
    }
  }

  lemma MuteIsSound<T>(d: Iface, s: Session, parse: bytes -> Option<T>)
    requires s.Valid() && Closed(d) && !Newer(d, s) && AllParse(s.msgs, parse) && Mute(d.buffer, s.msgs, parse)
    ensures AlwaysSound(d, s, parse)
  {
    forall events: seq<Event> | Possible(Start(d), events, s, parse)
      ensures var end := Run(Start(d), events, s, parse); Prefix(end.delivered, s.msgs, parse) && !end.crashed
    {
      StaleNeverAcknowledged(d, events, s, parse);
    }
  }

  lemma StaleIsUnsound<T>(d: Iface, s: Session, parse: bytes -> Option<T>)
    requires s.Valid() && Closed(d) && !Newer(d, s) && AllParse(s.msgs, parse) && !Mute(d.buffer, s.msgs, parse)
    ensures !AlwaysSound(d, s, parse)
  {
    var events;
    if d.buffer.Some? && FirstLong(s.msgs) == 0 && !Fits(d.buffer, s.msgs) {
      events := StaleShortCrashes(d, s, parse);
    } else {
      events := StaleRepeats(d, |s.msgs|, s, parse);
      assert |Run(Start(d), events, s, parse).delivered| == |s.msgs| + 1;
    }
  }

  // Delivery within a link, exactly: on newer numbers a leftover must be harmless; on any others it
  // must keep everything from being delivered.
  lemma SoundExactly<T>(d: Iface, s: Session, parse: bytes -> Option<T>)
    requires s.Valid() && Closed(d) && AllParse(s.msgs, parse)
    ensures AlwaysSound(d, s, parse)
       <==> if Newer(d, s) then Harmless(d.buffer, s.msgs, parse) else Mute(d.buffer, s.msgs, parse)
  {
    if Newer(d, s) {
      if Harmless(d.buffer, s.msgs, parse) {
        forall events: seq<Event> | Possible(Start(d), events, s, parse)
          ensures var end := Run(Start(d), events, s, parse); Prefix(end.delivered, s.msgs, parse) && !end.crashed
        {
          HarmlessIsSound(d, events, s, parse);
        }
      } else {
        HarmfulIsUnsound(d, s, parse);
      }
    } else if Mute(d.buffer, s.msgs, parse) {
      MuteIsSound(d, s, parse);
    } else {
      StaleIsUnsound(d, s, parse);
    }
  }

  // With nothing left in the buffer: exactly on newer numbers.
  lemma CleanExactly<T>(d: Iface, s: Session, parse: bytes -> Option<T>)
    requires s.Valid() && Closed(d) && AllParse(s.msgs, parse) && d.buffer.None? && s.msgs != []
    ensures AlwaysSound(d, s, parse) <==> Newer(d, s)
  {
    SoundExactly(d, s, parse);
  }

  ghost predicate Completed<T>(end: System<T>, s: Session, parse: bytes -> Option<T>) {
    end.cur == |end.delivered| == |s.msgs| && Prefix(end.delivered, s.msgs, parse)
  }

  // Every run can be continued until all messages are delivered and the peer knows.
  ghost predicate AlwaysCompletable<T>(d: Iface, s: Session, parse: bytes -> Option<T>)
    requires s.Valid() && Closed(d)
  {
    forall before: seq<Event> | Possible(Start(d), before, s, parse) ::
      exists after: seq<Event> :: CanComplete(d, before, after, s, parse)
  }

  ghost predicate CanComplete<T>(d: Iface, before: seq<Event>, after: seq<Event>, s: Session, parse: bytes -> Option<T>)
    requires s.Valid() && Closed(d) && Possible(Start(d), before, s, parse)
  {
    var mid := Run(Start(d), before, s, parse);
    Possible(mid, after, s, parse) && Completed(Run(mid, after, s, parse), s, parse)
  }

  lemma CompletableCompletes<T>(d: Iface, before: seq<Event>, s: Session, parse: bytes -> Option<T>)
    requires s.Valid() && Closed(d) && AllParse(s.msgs, parse) && Possible(Start(d), before, s, parse)
    requires Newer(d, s) && Completable(d.buffer, s.msgs, parse)
    ensures exists after: seq<Event> :: CanComplete(d, before, after, s, parse)
  {
    StartIsInv(d, s, parse);
    RunKeepsInv(Start(d), before, s, d.buffer, parse);
    var after, end := Finish(Run(Start(d), before, s, parse), s, d.buffer, parse);
    assert CanComplete(d, before, after, s, parse);
  }

  lemma ShortNeverCompletes<T>(d: Iface, before: seq<Event>, after: seq<Event>, s: Session, parse: bytes -> Option<T>)
    requires s.Valid() && Closed(d) && Possible(Start(d), before, s, parse)
    requires var mid := Run(Start(d), before, s, parse); mid.crashed && |mid.delivered| < |s.msgs|
    ensures !CanComplete(d, before, after, s, parse)
  {
    var mid := Run(Start(d), before, s, parse);
    if Possible(mid, after, s, parse) { CrashedStays(mid, after, s, parse); }
  }

  lemma NeverCompletes<T>(d: Iface, after: seq<Event>, s: Session, parse: bytes -> Option<T>)
    requires s.Valid() && Closed(d) && AllParse(s.msgs, parse) && s.msgs != []
    requires !Newer(d, s) || (Fits(d.buffer, s.msgs) && !Completable(d.buffer, s.msgs, parse))
    ensures !CanComplete(d, [], after, s, parse)
  {
    if Possible(Start(d), after, s, parse) {
      if Newer(d, s) {
        StopAndWaitDelivery(d, after, s, parse);
      } else {
        StaleNeverAcknowledged(d, after, s, parse);
      }
    }
  }

  lemma IncompletableIsStuck<T>(d: Iface, s: Session, parse: bytes -> Option<T>) returns (before: seq<Event>)
    requires s.Valid() && Closed(d) && AllParse(s.msgs, parse) && s.msgs != []
    requires !Newer(d, s) || !Completable(d.buffer, s.msgs, parse)
    ensures Possible(Start(d), before, s, parse)
    ensures forall after: seq<Event> :: !CanComplete(d, before, after, s, parse)
  {
    if Newer(d, s) && !Fits(d.buffer, s.msgs) {
      before := ShortLeftoverCrashes(d, s, parse);
      forall after: seq<Event> ensures !CanComplete(d, before, after, s, parse) {
        ShortNeverCompletes(d, before, after, s, parse);
      }
    } else {
      before := [];
      forall after: seq<Event> ensures !CanComplete(d, before, after, s, parse) {
        NeverCompletes(d, after, s, parse);
      }
    }
  }

  // Completion within a link, exactly: the link's numbers are newer than the last one acknowledged,
  // and a leftover that meets a long message decodes to that message with it.
  lemma CompletionExactly<T>(d: Iface, s: Session, parse: bytes -> Option<T>)
    requires s.Valid() && Closed(d) && AllParse(s.msgs, parse) && s.msgs != []
    ensures AlwaysCompletable(d, s, parse) <==> Newer(d, s) && Completable(d.buffer, s.msgs, parse)
  {
    if Newer(d, s) && Completable(d.buffer, s.msgs, parse) {
      forall before: seq<Event> | Possible(Start(d), before, s, parse)
        ensures exists after: seq<Event> :: CanComplete(d, before, after, s, parse)
      {
        CompletableCompletes(d, before, s, parse);
      }
    } else {
      var before := IncompletableIsStuck(d, s, parse);
    }
  }

  // Two links one after the other: when everything sent on the first was delivered, the second is
  // sound and completable exactly when it goes on with higher numbers instead of starting again.
  lemma SecondLink<T>(d: Iface, events: seq<Event>, s: Session, close: AdvPdu, next: Session, parse: bytes -> Option<T>)
    requires s.Valid() && Closed(d) && Newer(d, s) && d.buffer.None? && AllParse(s.msgs, parse) && s.msgs != []
    requires Possible(Start(d), events, s, parse) && |Run(Start(d), events, s, parse).delivered| == |s.msgs|
    requires next.Valid() && AllParse(next.msgs, parse) && next.msgs != [] && close.pdu.LinkClose?
    ensures var d' := Receive(Run(Start(d), events, s, parse).device, close, s.uuid, parse).state;
      && Closed(d')
      && (AlwaysSound(d', next, parse) <==> next.base >= s.base + |s.msgs|)
      && (AlwaysCompletable(d', next, parse) <==> next.base >= s.base + |s.msgs|)
  {
    StartIsInv(d, s, parse);
    RunKeepsInv(Start(d), events, s, None, parse);
    var device := Run(Start(d), events, s, parse).device;
    var d' := Receive(device, close, s.uuid, parse).state;
    assert d' == device.(linkId := None, inbound := None);
    assert d'.buffer.None? && d'.acked == Some(s.base + |s.msgs| - 1);
    CleanExactly(d', next, parse);
    CompletionExactly(d', next, parse);
  }
}
