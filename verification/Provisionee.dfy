/** The device's side of provisioning. */
module Provisionee {
  import opened Wrappers
  import opened Mesh
  import opened ProvisioningPdus
  import ProvisioningData

  datatype Provisionee =
    | Beaconing(caps: nat)
    | Invitation(transcript: Transcript, caps: nat)
    | KeyExchange(transcript: Transcript, auth: nat)
    | Authentication(transcript: Transcript, response: Pdu, auth: nat, secret: Secret,
                     confirmation: Option<Mac>, randomDevice: nat)
    | DataDistribution(session: Session)
    | Done(deviceKey: DeviceKey, data: ProvisioningData.Data)
    | Failure(code: ErrorCode)

  function Response(p: Provisionee): Option<Pdu> {
    match p
    case Beaconing(_) => None
    case Invitation(_, caps) => Some(Capabilities(caps))
    case KeyExchange(_, _) => None
    case Authentication(_, response, _, _, _, _) => Some(response)
    case DataDistribution(session) => Some(Random(session.randomDevice))
    case Done(_, _) => Some(Complete)
    case Failure(code) => Some(Failed(code))
  }

  // The public key of the peer, and one of its own.
  function Ecdh(transcript: Transcript, auth: nat, point: Point, draw: Draw): Provisionee {
    if point.OffCurve? then Failure(InvalidFormat)
    else
      var own := PublicKey(OnCurve(draw.scalar));
      var both := Add(transcript, PublicKey(point));
      if both.Err? || Add(both.value, own).Err? then Failure(UnexpectedError)
      else Authentication(Add(both.value, own).value, own, auth, DiffieHellman(draw.scalar, point.scalar), None, 0)
  }

  // A PDU that does not belong to the phase is ignored.
  function Next(p: Provisionee, pdu: Pdu, draw: Draw): Result<Provisionee, DriverError> {
    match (p, pdu)
    case (Beaconing(caps), Invite(_)) =>
      var invited :- Add([], pdu);
      var transcript :- Add(invited, Capabilities(caps));
      Ok(Invitation(transcript, caps))
    case (Invitation(transcript, _), Start(_, _)) =>
      var started :- Add(transcript, pdu);
      Ok(KeyExchange(started, AuthValue(pdu, draw)))
    case (KeyExchange(transcript, auth), PublicKey(point)) => Ok(Ecdh(transcript, auth, point, draw))
    case (Authentication(t, _, auth, secret, _, _), Confirmation(mac)) =>
      Ok(Authentication(t, Confirmation(Cmac(secret, t, draw.random, auth)), auth, secret, Some(mac), draw.random))
    case (Authentication(t, _, auth, secret, confirmation, randomDevice), Random(random)) =>
      if confirmation == Some(Cmac(secret, t, random, auth)) then
        Ok(DataDistribution(Session(secret, t, random, randomDevice)))
      else Ok(Failure(ConfirmationFailed))
    case (DataDistribution(session), Data(sealed)) =>
      var octets :- Open(session, sealed);
      match ProvisioningData.Parse(octets) {
        case Ok(data) => Ok(Done(DeviceKey(session), data))
        case Err(e) => Err(Parse(e))
      }
    case _ => Ok(p)
  }

  // ---------------------------------------------------------------- the stack around the machine

  datatype ProvisioningState = Respond(pdu: Pdu) | Received(deviceKey: DeviceKey, data: ProvisioningData.Data, pdu: Pdu) | Fail

  // The machine, taken by an error; and the hash of the PDU that was last answered. Hashes are ideal,
  // so the PDU stands for its hash.
  datatype Stack = Stack(provisionee: Option<Provisionee>, lastTransmit: Option<Pdu>)

  function NewStack(caps: nat): Stack { Stack(Some(Beaconing(caps)), None) }

  function ProcessStep(s: Stack, pdu: Pdu, draw: Draw): (Stack, Result<Option<ProvisioningState>, DriverError>) {
    if s.provisionee.None? then (s, Err(InvalidState))
    else if s.lastTransmit == Some(pdu) then
      (s, match Response(s.provisionee.value) case Some(r) => Ok(Some(Respond(r))) case None => Err(InvalidState))
    else
      match Next(s.provisionee.value, pdu, draw) {
        case Err(e) => (s.(provisionee := None), Err(e))
        case Ok(p) => Settle(s.(provisionee := Some(p)), p, pdu)
      }
  }

  function Settle(s: Stack, p: Provisionee, pdu: Pdu): (Stack, Result<Option<ProvisioningState>, DriverError>) {
    match p
    case Done(deviceKey, data) => (s, Ok(Some(Received(deviceKey, data, Complete))))
    case Failure(_) => (s, Ok(Some(Fail)))
    case _ =>
      match Response(p) {
        case Some(r) => (s.(lastTransmit := Some(pdu)), Ok(Some(Respond(r))))
        case None => (s.(lastTransmit := None), Ok(None))
      }
  }

  class UnprovisionedStack {
    var provisionee: Option<Provisionee>
    var lastTransmitHash: Option<Pdu>

    ghost function View(): Stack
      reads this
    {
      Stack(provisionee, lastTransmitHash)
    }

    constructor (caps: nat)
      ensures View() == NewStack(caps)
    {
      provisionee, lastTransmitHash := Some(Beaconing(caps)), None;
    }

    method Process(pdu: Pdu, draw: Draw) returns (r: Result<Option<ProvisioningState>, DriverError>)
      modifies this
      ensures (View(), r) == ProcessStep(old(View()), pdu, draw)
    {
      if lastTransmitHash.Some? && provisionee.Some? {
        if lastTransmitHash.value == pdu {
          match Response(provisionee.value) {
            case Some(response) => return Ok(Some(Respond(response)));
            case None => return Err(InvalidState);
          }
        }
      }
      if provisionee.None? { return Err(InvalidState); }
      var current := provisionee.value;
      provisionee := None;
      var next := Next(current, pdu, draw);
      if next.Err? { return Err(next.error); }
      provisionee := Some(next.value);
      var response := Response(next.value);
      if next.value.Done? {
        return Ok(Some(Received(next.value.deviceKey, next.value.data, Complete)));
      } else if next.value.Failure? {
        return Ok(Some(Fail));
      } else if response.Some? {
        lastTransmitHash := Some(pdu);
        return Ok(Some(Respond(response.value)));
      } else {
        lastTransmitHash := None;
        return Ok(None);
      }
    }
  }

  // A PDU that leads to a phase without an answer of its own, or to an end, means nothing there.
  lemma UnansweredIsIgnored(p: Provisionee, pdu: Pdu, draw: Draw, draw': Draw)
    requires Next(p, pdu, draw).Ok?
    ensures var p' := Next(p, pdu, draw).value;
      Response(p').None? || p'.Done? || p'.Failure? ==> Next(p', pdu, draw') == Ok(p')
  {
  }

  // A PDU that arrives twice in a row: the second time changes nothing, and has the same outcome,
  // unless the first time was the error that took the machine away.
  lemma ImmediateRepeat(s: Stack, pdu: Pdu, draw: Draw, draw': Draw)
    ensures var (s1, r1) := ProcessStep(s, pdu, draw);
      var (s2, r2) := ProcessStep(s1, pdu, draw');
      s2 == s1 && (r2 == r1 <==> r1.Ok? || r1 == Err(InvalidState))
  {
    if s.provisionee.Some? && s.lastTransmit != Some(pdu) {
      var next := Next(s.provisionee.value, pdu, draw);
      if next.Ok? {
        UnansweredIsIgnored(s.provisionee.value, pdu, draw, draw');
        RepeatOfSettled(s.(provisionee := Some(next.value)), next.value, pdu, draw');
      } else {
        assert next.error != InvalidState;
      }
    }
  }

  lemma RepeatOfSettled(s: Stack, p: Provisionee, pdu: Pdu, draw: Draw)
    requires s.provisionee == Some(p) && s.lastTransmit != Some(pdu)
    requires Response(p).None? || p.Done? || p.Failure? ==> Next(p, pdu, draw) == Ok(p)
    ensures ProcessStep(Settle(s, p, pdu).0, pdu, draw) == Settle(s, p, pdu) && Settle(s, p, pdu).1.Ok?
  {
  }

  // ---------------------------------------------------------------- the order of a run

  // What each phase waits for.
  predicate Awaited(stage: nat, pdu: Pdu) {
    match stage
    case 0 => pdu.Invite?
    case 1 => pdu.Start?
    case 2 => pdu.PublicKey?
    case 3 => pdu.Confirmation?
    case 4 => pdu.Random?
    case 5 => pdu.Data?
    case _ => false
  }

  // The PDUs that took the machine on, in order; a later confirmation replaces an earlier one.
  function Milestones(pdus: seq<Pdu>): (m: seq<Pdu>)
    ensures |m| <= 6 && forall i | 0 <= i < |m| :: Awaited(i, m[i])
  {
    if pdus == [] then []
    else
      Mark(Milestones(Front(pdus)), Last(pdus))
  }

  function Mark(m: seq<Pdu>, pdu: Pdu): seq<Pdu> {
    if Awaited(|m|, pdu) then m + [pdu]
    else if |m| == 4 && pdu.Confirmation? then m[3 := pdu]
    else m
  }

  function Feed(p: Provisionee, pdus: seq<Pdu>, draws: seq<Draw>): Result<Provisionee, DriverError>
    requires |draws| == |pdus|
  {
    if pdus == [] then Ok(p)
    else
      var before :- Feed(p, Front(pdus), Front(draws));
      Next(before, Last(pdus), Last(draws))
  }

  // The transcript of both sides, from the PDUs seen.
  predicate TranscriptOf(t: Transcript, m: seq<Pdu>, caps: nat, k: nat) {
    && (k >= 1 ==> |m| >= 1 && |t| >= 2 && t[0] == m[0] && t[1] == Capabilities(caps))
    && (k >= 2 ==> |m| >= 2 && |t| >= 3 && t[2] == m[1])
    && (k >= 3 ==> |m| >= 3 && |t| >= 5 && t[3] == m[2] && t[4].PublicKey? && t[4].point.OnCurve?)
    && |t| == if k == 1 then 2 else if k == 2 then 3 else 5
  }

  // The secret shared with the peer whose key is in the transcript.
  predicate SecretOf(secret: Secret, t: Transcript) {
    && |t| == 5 && t[3].PublicKey? && t[3].point.OnCurve? && t[4].PublicKey? && t[4].point.OnCurve?
    && secret == DiffieHellman(t[4].point.scalar, t[3].point.scalar)
  }

  predicate SessionOf(session: Session, m: seq<Pdu>, caps: nat) {
    && |m| >= 5 && m[3].Confirmation? && m[4].Random?
    && TranscriptOf(session.transcript, m, caps, 3) && SecretOf(session.secret, session.transcript)
    && session.randomProvisioner == m[4].random
    && m[3].mac.Cmac? && m[3].mac == Cmac(session.secret, session.transcript, m[4].random, m[3].mac.auth)
  }

  // Each phase, as the PDUs that led to it.
  predicate FollowsFrom(p: Provisionee, m: seq<Pdu>, caps: nat) {
    match p
    case Beaconing(c) => m == [] && c == caps
    case Invitation(t, c) => |m| == 1 && c == caps && TranscriptOf(t, m, caps, 1)
    case KeyExchange(t, _) => |m| == 2 && TranscriptOf(t, m, caps, 2)
    case Authentication(t, _, _, secret, confirmation, _) =>
      && TranscriptOf(t, m, caps, 3) && SecretOf(secret, t)
      && |m| == (if confirmation.None? then 3 else 4)
      && (confirmation.Some? ==> m[3] == Confirmation(confirmation.value))
    case DataDistribution(session) => |m| == 5 && SessionOf(session, m, caps)
    case Done(deviceKey, data) =>
      && |m| == 6 && SessionOf(deviceKey.session, m, caps) && m[5].Data? && m[5].sealed.Sealed?
      && m[5].sealed.session == deviceKey.session && ProvisioningData.Parse(m[5].sealed.octets) == Ok(data)
    case Failure(_) => true
  }

  lemma LengthOfTranscript(t: Transcript, m: seq<Pdu>, caps: nat, k: nat)
    requires 1 <= k <= 3 && TranscriptOf(t, m, caps, k) && forall i | 0 <= i < |m| :: Awaited(i, m[i])
    ensures Length(t) <= if k == 1 then 12 else if k == 2 then 18 else 146
  {
    LengthUpTo(t, 1);
    LengthUpTo(t, 2);
    if k >= 2 { LengthUpTo(t, 3); }
    if k == 3 {
      LengthUpTo(t, 4);
      LengthUpTo(t, 5);
    }
    assert t[..|t|] == t && t[..0] == [];
  }

  lemma LengthUpTo(t: Transcript, i: nat)
    requires 0 < i <= |t|
    ensures Length(t[..i]) == Length(t[..i - 1]) + Size(t[i - 1])
  {
    LengthOfMore(t[..i - 1], t[i - 1]);
    assert t[..i] == t[..i - 1] + [t[i - 1]];
  }

  // Whether data opens under the session, and decodes.
  predicate Authentic(session: Session, sealed: Sealed) {
    sealed.Sealed? && sealed.session == session && ProvisioningData.Parse(sealed.octets).Ok?
  }

  lemma InvitedFits(pdu: Pdu, caps: nat)
    requires pdu.Invite?
    ensures Add([], pdu) == Ok([pdu]) && Add([pdu], Capabilities(caps)) == Ok([pdu, Capabilities(caps)])
  {
    LengthOfMore([], pdu);
    assert [] + [pdu] == [pdu] && [pdu] + [Capabilities(caps)] == [pdu, Capabilities(caps)];
  }

  lemma KeysFit(t: Transcript, pdu: Pdu, own: Pdu)
    requires Length(t) <= 18 && pdu.PublicKey? && own.PublicKey?
    ensures Add(t, pdu) == Ok(t + [pdu]) && Add(t + [pdu], own) == Ok(t + [pdu, own])
  {
    LengthOfMore(t, pdu);
    assert t + [pdu] + [own] == t + [pdu, own];
  }

  // The confirmation inputs never overflow.
  lemma TranscriptFits(p: Provisionee, m: seq<Pdu>, caps: nat, pdu: Pdu, draw: Draw)
    requires FollowsFrom(p, m, caps) && forall i | 0 <= i < |m| :: Awaited(i, m[i])
    ensures p.Beaconing? && pdu.Invite? ==> Next(p, pdu, draw) == Ok(Invitation([pdu, Capabilities(caps)], caps))
    ensures p.Invitation? && pdu.Start? ==>
      Next(p, pdu, draw) == Ok(KeyExchange(p.transcript + [pdu], if pdu.oob then draw.auth else 0))
    ensures p.KeyExchange? && pdu.PublicKey? && pdu.point.OnCurve? ==>
      var own := PublicKey(OnCurve(draw.scalar));
      Next(p, pdu, draw) == Ok(Authentication(p.transcript + [pdu, own], own, p.auth,
                                              DiffieHellman(draw.scalar, pdu.point.scalar), None, 0))
  {
    match p
    case Beaconing(_) => if pdu.Invite? { InvitedFits(pdu, caps); }
    case Invitation(t, _) => LengthOfTranscript(t, m, caps, 1);
    case KeyExchange(t, _) =>
      LengthOfTranscript(t, m, caps, 2);
      if pdu.PublicKey? { KeysFit(t, pdu, PublicKey(OnCurve(draw.scalar))); }
    case _ =>
  }

  // One PDU: the phase keeps following from the milestones, and the one error is data that is not
  // authentic.
  lemma StepFollows(p: Provisionee, m: seq<Pdu>, caps: nat, pdu: Pdu, draw: Draw)
    requires FollowsFrom(p, m, caps) && forall i | 0 <= i < |m| :: Awaited(i, m[i])
    ensures Next(p, pdu, draw).Ok? ==> FollowsFrom(Next(p, pdu, draw).value, Mark(m, pdu), caps)
    ensures Next(p, pdu, draw).Err? <==> p.DataDistribution? && pdu.Data? && !Authentic(p.session, pdu.sealed)
    ensures Next(p, pdu, draw) == Err(CryptoError) <==>
      p.DataDistribution? && pdu.Data? && !(pdu.sealed.Sealed? && pdu.sealed.session == p.session)
  {
    TranscriptFits(p, m, caps, pdu, draw);
  }

  // Whatever arrives, in whatever order: the phase is determined by the milestones met in order, and
  // provisioning is complete only after an invite, a start, a public key, a confirmation, the random
  // number it confirms, and data sealed for the very session these make up.
  lemma {:induction false} RunFollows(caps: nat, pdus: seq<Pdu>, draws: seq<Draw>)
    requires |draws| == |pdus|
    ensures var end := Feed(Beaconing(caps), pdus, draws);
      end.Ok? ==> FollowsFrom(end.value, Milestones(pdus), caps)
  {
    if pdus != [] {
      RunFollows(caps, Front(pdus), Front(draws));
      var before := Feed(Beaconing(caps), Front(pdus), Front(draws));
      if before.Ok? { StepFollows(before.value, Milestones(Front(pdus)), caps, Last(pdus), Last(draws)); }
    }
  }

  function Rank(p: Provisionee): nat {
    match p
    case Beaconing(_) => 0
    case Invitation(_, _) => 1
    case KeyExchange(_, _) => 2
    case Authentication(_, _, _, _, confirmation, _) => if confirmation.None? then 3 else 4
    case DataDistribution(_) => 5
    case Done(_, _) => 6
    case Failure(_) => 7
  }

  // Phases never go back, none is skipped on the way to completion, and the two ends absorb every PDU.
  lemma PhasesGoForward(p: Provisionee, pdu: Pdu, draw: Draw)
    requires Next(p, pdu, draw).Ok?
    ensures var p' := Next(p, pdu, draw).value;
      && Rank(p) <= Rank(p')
      && (Rank(p') <= Rank(p) + 1 || p'.Failure?)
      && (p.Done? || p.Failure? ==> p' == p)
      && (p'.Failure? && p != p' ==> (p.KeyExchange? && pdu.PublicKey?) || (p.Authentication? && pdu.Random?))
  {
  }
}
