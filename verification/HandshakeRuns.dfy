/** When a provisioning handshake cannot fail, and that it can always be completed. */
module HandshakeRuns {
  import opened Wrappers
  import opened Mesh
  import opened ProvisioningPdus
  import opened Handshake
  import ProvisioningData
  import D = Provisionee
  import P = Provisioner

  // The private keys and random numbers that the two sides settle on.
  datatype Keys = Keys(provisioner: nat, device: nat, randomProvisioner: nat, randomDevice: nat)

  function Inputs(c: Config, k: Keys): Transcript {
    [Invite(c.attention), Capabilities(c.caps), DEFAULT_START, PublicKey(OnCurve(k.provisioner)), PublicKey(OnCurve(k.device))]
  }

  function Shared(k: Keys): Secret { DiffieHellman(k.provisioner, k.device) }

  function Proof(c: Config, k: Keys, random: nat): Mac { Cmac(Shared(k), Inputs(c, k), random, 0) }

  function SessionFor(c: Config, k: Keys): Session {
    Session(Shared(k), Inputs(c, k), k.randomProvisioner, k.randomDevice)
  }

  // ---------------------------------------------------------------- the two sides, phase by phase

  predicate DeviceOk(p: D.Provisionee, c: Config, k: Keys) {
    match p
    case Beaconing(caps) => caps == c.caps
    case Invitation(t, caps) => t == Inputs(c, k)[..2] && caps == c.caps
    case KeyExchange(t, auth) => t == Inputs(c, k)[..3] && auth == 0
    case Authentication(t, response, auth, secret, confirmation, random) =>
      && t == Inputs(c, k) && auth == 0 && secret == Shared(k)
      && (if confirmation.None? then response == PublicKey(OnCurve(k.device))
          else && confirmation.value == Proof(c, k, k.randomProvisioner) && random == k.randomDevice
               && response == Confirmation(Proof(c, k, k.randomDevice)))
    case DataDistribution(session) => session == SessionFor(c, k)
    case Done(deviceKey, data) => deviceKey == DeviceKey(SessionFor(c, k)) && data == c.data
    case Failure(_) => false
  }

  predicate ProvisionerOk(p: P.Provisioner, c: Config, k: Keys) {
    match p
    case Invitation(t, response, data) => t == Inputs(c, k)[..1] && response == t && data == c.data
    case KeyExchange(t, response, data, auth, own) =>
      && t == Inputs(c, k)[..3] && auth == 0 && own == k.provisioner && data == c.data
      && response == [DEFAULT_START, PublicKey(OnCurve(k.provisioner))]
    case Authentication(t, response, data, auth, secret, confirmation, random) =>
      && t == Inputs(c, k) && auth == 0 && secret == Shared(k) && random == k.randomProvisioner && data == c.data
      && (if confirmation.None? then response == [Confirmation(Proof(c, k, k.randomProvisioner))]
          else response == [Random(k.randomProvisioner)] && confirmation.value == Proof(c, k, k.randomDevice))
    case DataDistribution(response, session) =>
      session == SessionFor(c, k) && response == [Data(Sealed(session, ProvisioningData.Emit(c.data)))]
    case Success => true
    case Failure(_) => false
  }

  function ProvisionerRank(p: P.Provisioner): nat {
    match p
    case Invitation(_, _, _) => 0
    case KeyExchange(_, _, _, _, _) => 1
    case Authentication(_, _, _, _, _, confirmation, _) => if confirmation.None? then 2 else 3
    case DataDistribution(_, _) => 4
    case Success => 5
    case Failure(_) => 6
  }

  // What each side may have sent by the time it has a certain rank.
  predicate FromProvisioner(pdu: Pdu, rank: nat, c: Config, k: Keys) {
    match pdu
    case Invite(attention) => attention == c.attention
    case Start(_, _) => rank >= 1 && pdu == DEFAULT_START
    case PublicKey(point) => rank >= 1 && point == OnCurve(k.provisioner)
    case Confirmation(mac) => rank >= 2 && mac == Proof(c, k, k.randomProvisioner)
    case Random(random) => rank >= 3 && random == k.randomProvisioner
    case Data(sealed) => rank >= 4 && sealed == Sealed(SessionFor(c, k), ProvisioningData.Emit(c.data))
    case _ => false
  }

  predicate FromDevice(pdu: Pdu, rank: nat, c: Config, k: Keys) {
    match pdu
    case Capabilities(caps) => rank >= 1 && caps == c.caps
    case PublicKey(point) => rank >= 3 && point == OnCurve(k.device)
    case Confirmation(mac) => rank >= 4 && mac == Proof(c, k, k.randomDevice)
    case Random(random) => rank >= 5 && random == k.randomDevice
    case Complete => rank >= 6
    case _ => false
  }

  // Neither side runs ahead of the other.
  predicate Coupled(device: nat, provisioner: nat) {
    && device <= 6 && provisioner <= 5
    && (device >= 2 ==> provisioner >= 1) && (device >= 4 ==> provisioner >= 2)
    && (device >= 5 ==> provisioner >= 3) && (device >= 6 ==> provisioner >= 4)
    && (provisioner >= 1 ==> device >= 1) && (provisioner >= 2 ==> device >= 3) && (provisioner >= 3 ==> device >= 4)
    && (provisioner >= 4 ==> device >= 5) && (provisioner >= 5 ==> device >= 6)
  }

  // The values already in use stay as they are.
  predicate Fixed(k: Keys, k': Keys, device: nat, provisioner: nat) {
    && (provisioner >= 1 ==> k'.provisioner == k.provisioner) && (device >= 3 ==> k'.device == k.device)
    && (provisioner >= 2 ==> k'.randomProvisioner == k.randomProvisioner)
    && (device >= 4 ==> k'.randomDevice == k.randomDevice)
  }

  function DeviceRank(device: Device): nat {
    if device.Provisioned? then 6
    else if device.stack.provisionee.Some? then D.Rank(device.stack.provisionee.value)
    else 7
  }

  predicate DeviceInv(device: Device, toProvisioner: set<Pdu>, c: Config, k: Keys) {
    match device
    case Provisioned(_, _) => Complete in toProvisioner
    case Unprovisioned(stack) =>
      && stack.provisionee.Some? && DeviceOk(stack.provisionee.value, c, k) && !stack.provisionee.value.Done?
      && (D.Response(stack.provisionee.value).Some? ==> D.Response(stack.provisionee.value).value in toProvisioner)
      && Answered(stack, stack.provisionee.value)
  }

  // The PDU that was last answered has an answer, and is not the one awaited now.
  predicate Answered(stack: D.Stack, p: D.Provisionee) {
    stack.lastTransmit.Some? ==> D.Response(p).Some? && !D.Awaited(D.Rank(p), stack.lastTransmit.value)
  }

  predicate ProvisionerInv(p: Option<P.Provisioner>, toDevice: set<Pdu>, c: Config, k: Keys) {
    && p.Some? && ProvisionerOk(p.value, c, k)
    && Invite(c.attention) in toDevice && SetOf(P.Response(p.value)) <= toDevice
  }

  predicate Inv(sys: System, c: Config, k: Keys) {
    && !sys.failed && ProvisionerInv(sys.provisioner, sys.toDevice, c, k) && DeviceInv(sys.device, sys.toProvisioner, c, k)
    && Coupled(DeviceRank(sys.device), ProvisionerRank(sys.provisioner.value))
    && (forall pdu | pdu in sys.toDevice :: FromProvisioner(pdu, ProvisionerRank(sys.provisioner.value), c, k))
    && (forall pdu | pdu in sys.toProvisioner :: FromDevice(pdu, DeviceRank(sys.device), c, k))
  }

  // A confirmation that makes the device draw a new random number for the one it has answered with.
  predicate Reprocesses(sys: System, e: Event) {
    && e.DeviceGets? && e.pdu.Confirmation? && sys.device.Unprovisioned?
    && sys.device.stack.provisionee.Some? && sys.device.stack.lastTransmit != Some(e.pdu)
    && sys.device.stack.provisionee.value.Authentication? && sys.device.stack.provisionee.value.confirmation.Some?
  }

  // ---------------------------------------------------------------- one PDU for the device

  lemma DeviceNext(p: D.Provisionee, pdu: Pdu, draw: Draw, rank: nat, c: Config, k: Keys) returns (k': Keys)
    requires DeviceOk(p, c, k) && Coupled(D.Rank(p), rank) && FromProvisioner(pdu, rank, c, k)
    requires c.data.unicastAddress < 0x8000 && !(D.Rank(p) == 4 && pdu.Confirmation?)
    ensures D.Next(p, pdu, draw).Ok? && DeviceOk(D.Next(p, pdu, draw).value, c, k')
    ensures Fixed(k, k', D.Rank(p), rank)
    ensures var rank' := D.Rank(D.Next(p, pdu, draw).value);
      rank' == (if D.Awaited(D.Rank(p), pdu) then D.Rank(p) + 1 else D.Rank(p)) && Coupled(rank', rank)
    ensures !D.Awaited(D.Rank(p), pdu) ==> D.Next(p, pdu, draw).value == p && k' == k
  {
    k' := if D.Rank(p) == 2 && pdu.PublicKey? then k.(device := draw.scalar)
          else if D.Rank(p) == 3 && pdu.Confirmation? then k.(randomDevice := draw.random) else k;
    match p
    case Beaconing(_) => D.TranscriptFits(p, [], c.caps, pdu, draw);
    case Invitation(t, _) => D.TranscriptFits(p, [t[0]], c.caps, pdu, draw);
    case KeyExchange(t, _) => D.TranscriptFits(p, [t[0], t[2]], c.caps, pdu, draw);
    case DataDistribution(_) => ProvisioningData.RoundTrip(c.data);
    case _ =>
  }

  lemma DeviceKeepsInputs(p: P.Provisioner, pdu: Pdu, c: Config, k: Keys, k': Keys, rank: nat)
    requires Coupled(rank, ProvisionerRank(p)) && Fixed(k, k', rank, ProvisionerRank(p))
    requires ProvisionerOk(p, c, k)
    ensures ProvisionerOk(p, c, k')
    ensures FromProvisioner(pdu, ProvisionerRank(p), c, k) ==> FromProvisioner(pdu, ProvisionerRank(p), c, k')
    ensures FromDevice(pdu, rank, c, k) ==> FromDevice(pdu, rank, c, k')
  {
  }

  lemma FromDeviceLater(pdu: Pdu, rank: nat, rank': nat, c: Config, k: Keys)
    requires FromDevice(pdu, rank, c, k) && rank <= rank'
    ensures FromDevice(pdu, rank', c, k)
  {
  }

  // What a device in a phase answers, it may send.
  lemma DeviceAnswers(p: D.Provisionee, c: Config, k: Keys)
    requires DeviceOk(p, c, k)
    ensures D.Response(p).Some? ==> FromDevice(D.Response(p).value, D.Rank(p), c, k)
  {
  }

  type Outcome = Result<Option<D.ProvisioningState>, DriverError>

  // A stack that has not failed: it is done or has an answer or none, and the PDU it has answered is
  // not the one it awaits.
  predicate Settled(stack: D.Stack, r: Outcome, c: Config, k: Keys) {
    && stack.provisionee.Some? && DeviceOk(stack.provisionee.value, c, k)
    && var p := stack.provisionee.value;
       && (p.Done? || Answered(stack, p))
       && r == (if p.Done? then Ok(Some(D.Received(p.deviceKey, p.data, Complete)))
                else if D.Response(p).Some? then Ok(Some(D.Respond(D.Response(p).value)))
                else Ok(None))
  }

  // How the stack moves when the machine does: it never fails, and keeps the awaited PDU distinct
  // from the one it has answered.
  lemma DeviceProcess(stack: D.Stack, pdu: Pdu, draw: Draw, rank: nat, c: Config, k: Keys) returns (k': Keys)
    requires stack.provisionee.Some? && stack.lastTransmit != Some(pdu) && !stack.provisionee.value.Done?
    requires DeviceOk(stack.provisionee.value, c, k) && Coupled(D.Rank(stack.provisionee.value), rank)
    requires FromProvisioner(pdu, rank, c, k) && c.data.unicastAddress < 0x8000
    requires !(D.Rank(stack.provisionee.value) == 4 && pdu.Confirmation?)
    ensures Fixed(k, k', D.Rank(stack.provisionee.value), rank)
    ensures var (stack', r) := D.ProcessStep(stack, pdu, draw);
      && Settled(stack', r, c, k')
      && var (d, d') := (D.Rank(stack.provisionee.value), D.Rank(stack'.provisionee.value));
         d' == (if D.Awaited(d, pdu) then d + 1 else d) && Coupled(d', rank)
  {
    k' := DeviceNext(stack.provisionee.value, pdu, draw, rank, c, k);
  }

  lemma ChannelsAfterDevice(sys: System, rank': nat, c: Config, k: Keys, k': Keys)
    requires Inv(sys, c, k) && DeviceRank(sys.device) <= rank'
    requires Fixed(k, k', DeviceRank(sys.device), ProvisionerRank(sys.provisioner.value))
    ensures ProvisionerInv(sys.provisioner, sys.toDevice, c, k')
    ensures forall pdu | pdu in sys.toDevice :: FromProvisioner(pdu, ProvisionerRank(sys.provisioner.value), c, k')
    ensures forall pdu | pdu in sys.toProvisioner :: FromDevice(pdu, rank', c, k')
  {
    var (p, rank) := (sys.provisioner.value, DeviceRank(sys.device));
    DeviceKeepsInputs(p, Complete, c, k, k', rank);
    forall pdu | pdu in sys.toDevice ensures FromProvisioner(pdu, ProvisionerRank(p), c, k') {
      DeviceKeepsInputs(p, pdu, c, k, k', rank);
    }
    forall pdu | pdu in sys.toProvisioner ensures FromDevice(pdu, rank', c, k') {
      DeviceKeepsInputs(p, pdu, c, k, k', rank);
      FromDeviceLater(pdu, rank, rank', c, k');
    }
  }

  lemma SettledKeepsInv(sys: System, stack: D.Stack, r: Outcome, c: Config, k: Keys, k': Keys, sys': System)
    requires Inv(sys, c, k) && sys.device.Unprovisioned? && Settled(stack, r, c, k')
    requires var rank' := D.Rank(stack.provisionee.value);
      DeviceRank(sys.device) <= rank' && Coupled(rank', ProvisionerRank(sys.provisioner.value))
    requires Fixed(k, k', DeviceRank(sys.device), ProvisionerRank(sys.provisioner.value))
    requires sys' == AfterProcess(sys, stack, r, c.caps)
    ensures Inv(sys', c, k') && sys'.provisioner == sys.provisioner
    ensures DeviceRank(sys'.device) == D.Rank(stack.provisionee.value)
  {
    var p := stack.provisionee.value;
    DeviceAnswers(p, c, k');
    ChannelsAfterDevice(sys, D.Rank(p), c, k, k');
  }

  // The PDU that was answered last is answered again.
  lemma RepeatKeepsInv(sys: System, pdu: Pdu, draw: Draw, c: Config, k: Keys, sys': System)
    requires Inv(sys, c, k) && sys.device.Unprovisioned? && sys.device.stack.lastTransmit == Some(pdu)
    requires sys' == DeviceStep(sys, pdu, draw, c.caps)
    ensures sys' == sys
  {
    var answer := D.Response(sys.device.stack.provisionee.value).value;
    assert sys.toProvisioner + {answer} == sys.toProvisioner;
  }

  lemma DeviceStepKeepsInv(sys: System, pdu: Pdu, draw: Draw, c: Config, k: Keys, sys': System) returns (k': Keys)
    requires Inv(sys, c, k) && pdu in sys.toDevice && c.data.unicastAddress < 0x8000
    requires !Reprocesses(sys, DeviceGets(pdu, draw)) && sys' == DeviceStep(sys, pdu, draw, c.caps)
    ensures Inv(sys', c, k') && sys'.provisioner == sys.provisioner
    ensures sys.device.Unprovisioned? && D.Awaited(DeviceRank(sys.device), pdu) ==>
      DeviceRank(sys'.device) == DeviceRank(sys.device) + 1
  {
    k' := k;
    if sys.device.Unprovisioned? {
      if sys.device.stack.lastTransmit == Some(pdu) {
        RepeatKeepsInv(sys, pdu, draw, c, k, sys');
      } else {
        k' := DeviceProcess(sys.device.stack, pdu, draw, ProvisionerRank(sys.provisioner.value), c, k);
        var (stack, r) := D.ProcessStep(sys.device.stack, pdu, draw);
        SettledKeepsInv(sys, stack, r, c, k, k', sys');
      }
    }
  }

  // ---------------------------------------------------------------- one PDU for the provisioner

  lemma InputsFit(c: Config, k: Keys)
    ensures var t := Inputs(c, k);
      && Add(t[..1], t[1]) == Ok(t[..2]) && Add(t[..2], t[2]) == Ok(t[..3])
      && Add(t[..3], t[3]) == Ok(t[..4]) && Add(t[..4], t[4]) == Ok(t)
  {
    var t := Inputs(c, k);
    LengthOfMore([], t[0]);
    assert [] + [t[0]] == t[..1] && t[..1] + [t[1]] == t[..2] && t[..2] + [t[2]] == t[..3];
    assert t[..3] + [t[3]] == t[..4] && t[..4] + [t[4]] == t;
    LengthOfMore(t[..1], t[1]);
    LengthOfMore(t[..2], t[2]);
    LengthOfMore(t[..3], t[3]);
  }

  lemma ProvisionerNext(p: P.Provisioner, pdu: Pdu, draw: Draw, rank: nat, c: Config, k: Keys) returns (k': Keys)
    requires ProvisionerOk(p, c, k) && Coupled(rank, ProvisionerRank(p)) && FromDevice(pdu, rank, c, k)
    ensures P.Next(p, pdu, draw).Ok? && ProvisionerOk(P.Next(p, pdu, draw).value, c, k')
    ensures Fixed(k, k', rank, ProvisionerRank(p))
    ensures var rank' := ProvisionerRank(P.Next(p, pdu, draw).value);
      && rank' == (if AwaitedByProvisioner(ProvisionerRank(p), pdu) then ProvisionerRank(p) + 1 else ProvisionerRank(p))
      && Coupled(rank, rank')
  {
    k' := if p.Invitation? && pdu.Capabilities? then k.(provisioner := draw.scalar)
          else if p.KeyExchange? && pdu.PublicKey? then k.(randomProvisioner := draw.random) else k;
    InputsFit(c, k');
    assert Inputs(c, k)[..1] == Inputs(c, k')[..1];
  }

  predicate AwaitedByProvisioner(rank: nat, pdu: Pdu) {
    match rank
    case 0 => pdu.Capabilities?
    case 1 => pdu.PublicKey?
    case 2 => pdu.Confirmation?
    case 3 => pdu.Random?
    case 4 => pdu.Complete?
    case _ => false
  }

  lemma FromProvisionerLater(pdu: Pdu, rank: nat, rank': nat, c: Config, k: Keys)
    requires FromProvisioner(pdu, rank, c, k) && rank <= rank'
    ensures FromProvisioner(pdu, rank', c, k)
  {
  }

  lemma ProvisionerAnswers(p: P.Provisioner, c: Config, k: Keys)
    requires ProvisionerOk(p, c, k)
    ensures forall pdu | pdu in P.Response(p) :: FromProvisioner(pdu, ProvisionerRank(p), c, k)
  {
  }

  lemma ProvisionerKeepsInputs(device: Device, toProvisioner: set<Pdu>, pdu: Pdu, rank: nat, c: Config, k: Keys, k': Keys)
    requires DeviceInv(device, toProvisioner, c, k) && Coupled(DeviceRank(device), rank)
    requires Fixed(k, k', DeviceRank(device), rank)
    ensures DeviceInv(device, toProvisioner, c, k')
    ensures FromProvisioner(pdu, rank, c, k) ==> FromProvisioner(pdu, rank, c, k')
    ensures FromDevice(pdu, DeviceRank(device), c, k) ==> FromDevice(pdu, DeviceRank(device), c, k')
  {
    assert Inputs(c, k)[..2] == Inputs(c, k')[..2];
    assert rank >= 1 ==> Inputs(c, k)[..3] == Inputs(c, k')[..3];
  }

  lemma ChannelsAfterProvisioner(sys: System, rank': nat, c: Config, k: Keys, k': Keys)
    requires Inv(sys, c, k) && ProvisionerRank(sys.provisioner.value) <= rank'
    requires Fixed(k, k', DeviceRank(sys.device), ProvisionerRank(sys.provisioner.value))
    ensures DeviceInv(sys.device, sys.toProvisioner, c, k')
    ensures forall pdu | pdu in sys.toDevice :: FromProvisioner(pdu, rank', c, k')
    ensures forall pdu | pdu in sys.toProvisioner :: FromDevice(pdu, DeviceRank(sys.device), c, k')
  {
    var rank := ProvisionerRank(sys.provisioner.value);
    ProvisionerKeepsInputs(sys.device, sys.toProvisioner, Complete, rank, c, k, k');
    forall pdu | pdu in sys.toProvisioner ensures FromDevice(pdu, DeviceRank(sys.device), c, k') {
      ProvisionerKeepsInputs(sys.device, sys.toProvisioner, pdu, rank, c, k, k');
    }
    forall pdu | pdu in sys.toDevice ensures FromProvisioner(pdu, rank', c, k') {
      ProvisionerKeepsInputs(sys.device, sys.toProvisioner, pdu, rank, c, k, k');
      FromProvisionerLater(pdu, rank, rank', c, k');
    }
  }

  lemma ProvisionerStepKeepsInv(sys: System, pdu: Pdu, draw: Draw, c: Config, k: Keys, sys': System) returns (k': Keys)
    requires Inv(sys, c, k) && pdu in sys.toProvisioner && sys' == ProvisionerStep(sys, pdu, draw)
    ensures Inv(sys', c, k') && sys'.device == sys.device
    ensures AwaitedByProvisioner(ProvisionerRank(sys.provisioner.value), pdu) ==>
      ProvisionerRank(sys'.provisioner.value) == ProvisionerRank(sys.provisioner.value) + 1
  {
    var p := sys.provisioner.value;
    k' := ProvisionerNext(p, pdu, draw, DeviceRank(sys.device), c, k);
    var p' := P.Next(p, pdu, draw).value;
    ProvisionerAnswers(p', c, k');
    ChannelsAfterProvisioner(sys, ProvisionerRank(p'), c, k, k');
  }

  lemma StepKeepsInv(sys: System, e: Event, c: Config, k: Keys) returns (k': Keys)
    requires Inv(sys, c, k) && Enabled(sys, e) && !Reprocesses(sys, e) && c.data.unicastAddress < 0x8000
    ensures Inv(Step(sys, e, c), c, k')
  {
    match e
    case DeviceGets(pdu, draw) => k' := DeviceStepKeepsInv(sys, pdu, draw, c, k, Step(sys, e, c));
    case ProvisionerGets(pdu, draw) => k' := ProvisionerStepKeepsInv(sys, pdu, draw, c, k, Step(sys, e, c));
  }

  // No confirmation is ever processed again.
  predicate NoneReprocessed(sys: System, events: seq<Event>, c: Config) {
    events == [] || (NoneReprocessed(sys, Front(events), c) && !Reprocesses(Run(sys, Front(events), c), Last(events)))
  }

  lemma {:induction false} RunKeepsInv(sys: System, events: seq<Event>, c: Config, k: Keys) returns (k': Keys)
    requires Inv(sys, c, k) && Possible(sys, events, c) && NoneReprocessed(sys, events, c) && c.data.unicastAddress < 0x8000
    ensures Inv(Run(sys, events, c), c, k')
  {
    k' := k;
    if events != [] {
      k' := RunKeepsInv(sys, Front(events), c, k);
      k' := StepKeepsInv(Run(sys, Front(events), c), Last(events), c, k');
    }
  }

  lemma FromBegin(events: seq<Event>, c: Config) returns (k: Keys)
    requires Possible(Begin(c), events, c) && NoneReprocessed(Begin(c), events, c) && c.data.unicastAddress < 0x8000
    ensures Inv(Run(Begin(c), events, c), c, k)
  {
    k := RunKeepsInv(Begin(c), events, c, Keys(0, 0, 0, 0));
  }

  // Whatever is lost, repeated or reordered: as long as the device does not process a confirmation a
  // second time, neither side ever fails.
  lemma NeverFails(events: seq<Event>, c: Config)
    requires Possible(Begin(c), events, c) && NoneReprocessed(Begin(c), events, c) && c.data.unicastAddress < 0x8000
    ensures !Run(Begin(c), events, c).failed
  {
    var k := FromBegin(events, c);
  }

  // ---------------------------------------------------------------- the handshake can always be completed

  function Position(sys: System): nat
    requires sys.provisioner.Some?
  {
    DeviceRank(sys.device) + ProvisionerRank(sys.provisioner.value)
  }

  const FINISHED: nat := 11

  // The step that is due in the order of the protocol: the device gets what the provisioner sent last,
  // or the provisioner gets the device's answer.
  function Due(sys: System, draw: Draw): Event {
    var (d, response) := (DeviceRank(sys.device), if sys.provisioner.Some? then P.Response(sys.provisioner.value) else []);
    var p := if sys.provisioner.Some? then ProvisionerRank(sys.provisioner.value) else 6;
    var i := if d == 2 then 1 else 0;
    if (d == p || (d == p + 1 && p >= 1)) && i < |response| then DeviceGets(response[i], draw)
    else ProvisionerGets(Answer(sys.device), draw)
  }

  function Answer(device: Device): Pdu {
    if device.Provisioned? || device.stack.provisionee.None? then Complete
    else
      match D.Response(device.stack.provisionee.value)
      case Some(answer) => answer
      case None => Complete
  }

  lemma DueAdvances(sys: System, draw: Draw, c: Config, k: Keys) returns (k': Keys)
    requires Inv(sys, c, k) && c.data.unicastAddress < 0x8000 && Position(sys) < FINISHED
    ensures var e := Due(sys, draw);
      && Enabled(sys, e) && !Reprocesses(sys, e)
      && Inv(Step(sys, e, c), c, k') && Position(Step(sys, e, c)) == Position(sys) + 1
  {
    var e := Due(sys, draw);
    match e
    case DeviceGets(pdu, _) =>
      assert pdu in SetOf(P.Response(sys.provisioner.value)) && D.Awaited(DeviceRank(sys.device), pdu);
      k' := DeviceStepKeepsInv(sys, pdu, draw, c, k, Step(sys, e, c));
    case ProvisionerGets(pdu, _) =>
      assert AwaitedByProvisioner(ProvisionerRank(sys.provisioner.value), pdu);
      k' := ProvisionerStepKeepsInv(sys, pdu, draw, c, k, Step(sys, e, c));
  }

  // A run, and after it one due step for each draw of the random number generators.
  function InOrder(before: seq<Event>, draws: seq<Draw>, c: Config): seq<Event>
    decreases |draws|
  {
    if draws == [] then before
    else InOrder(before + [Due(Run(Begin(c), before, c), draws[0])], draws[1..], c)
  }

  lemma {:induction false} InOrderAdvances(before: seq<Event>, draws: seq<Draw>, c: Config, k: Keys) returns (k': Keys)
    requires Possible(Begin(c), before, c) && NoneReprocessed(Begin(c), before, c) && c.data.unicastAddress < 0x8000
    requires Inv(Run(Begin(c), before, c), c, k) && Position(Run(Begin(c), before, c)) + |draws| <= FINISHED
    ensures var events := InOrder(before, draws, c);
      && Possible(Begin(c), events, c) && NoneReprocessed(Begin(c), events, c)
      && Inv(Run(Begin(c), events, c), c, k')
      && Position(Run(Begin(c), events, c)) == Position(Run(Begin(c), before, c)) + |draws|
    decreases |draws|
  {
    k' := k;
    if draws != [] {
      var sys := Run(Begin(c), before, c);
      var more := before + [Due(sys, draws[0])];
      k' := DueAdvances(sys, draws[0], c, k);
      assert Front(more) == before;
      k' := InOrderAdvances(more, draws[1..], c, k');
    }
  }

  // After any run in which no confirmation was processed again, the steps that remain, taken in order
  // without loss and with whatever random numbers, provision the device and tell the provisioner.
  lemma AlwaysCompletable(before: seq<Event>, draws: seq<Draw>, c: Config)
    requires Possible(Begin(c), before, c) && NoneReprocessed(Begin(c), before, c) && c.data.unicastAddress < 0x8000
    ensures Run(Begin(c), before, c).provisioner.Some?
    ensures Position(Run(Begin(c), before, c)) + |draws| == FINISHED ==>
      var end := Run(Begin(c), InOrder(before, draws, c), c);
      end.device.Provisioned? && end.device.data == c.data && end.provisioner == Some(P.Success) && !end.failed
  {
    var k := FromBegin(before, c);
    if Position(Run(Begin(c), before, c)) + |draws| == FINISHED {
      k := InOrderAdvances(before, draws, c, k);
      FinishedIsComplete(Run(Begin(c), InOrder(before, draws, c), c), c, k);
      Agreement(InOrder(before, draws, c), c);
    }
  }

  lemma FinishedIsComplete(sys: System, c: Config, k: Keys)
    requires Inv(sys, c, k) && Position(sys) == FINISHED
    ensures sys.device.Provisioned? && sys.provisioner == Some(P.Success) && !sys.failed
  {
  }

  // The run without loss or repetition: eleven steps, whatever the random numbers.
  lemma LossFreeRun(draws: seq<Draw>, c: Config)
    requires |draws| == FINISHED && c.data.unicastAddress < 0x8000
    ensures Possible(Begin(c), InOrder([], draws, c), c)
    ensures var end := Run(Begin(c), InOrder([], draws, c), c);
      end.device.Provisioned? && end.device.data == c.data && end.provisioner == Some(P.Success) && !end.failed
  {
    var k := FromBegin([], c);
    k := InOrderAdvances([], draws, c, k);
    AlwaysCompletable([], draws, c);
  }

  // ---------------------------------------------------------------- a confirmation that is processed again

  // Processing a confirmation again, with another random number, makes a failure possible: the
  // provisioner may have heard the answer to the first one only.
  lemma ReprocessedCanFail(sys: System, pdu: Pdu, draw: Draw, c: Config,
                           k: Keys) returns (e1: Event, e2: Event, e3: Event)
    requires Inv(sys, c, k) && pdu in sys.toDevice && Reprocesses(sys, DeviceGets(pdu, draw))
    requires draw.random != k.randomDevice
    ensures var s1 := DeviceStep(sys, pdu, draw, c.caps);
      && Enabled(s1, e1) && Enabled(Step(s1, e1, c), e2) && Enabled(Step(Step(s1, e1, c), e2, c), e3)
      && Step(Step(Step(s1, e1, c), e2, c), e3, c).failed
    ensures e1.ProvisionerGets? && e2.pdu.Random? && e3.ProvisionerGets?
  {
    e1 := ProvisionerGets(Confirmation(Proof(c, k, k.randomDevice)), draw);
    e2 := DeviceGets(Random(k.randomProvisioner), draw);
    e3 := ProvisionerGets(Random(draw.random), draw);
    var s1 := DeviceStep(sys, pdu, draw, c.caps);
    assert s1.device.stack.provisionee.value == sys.device.stack.provisionee.value.(
      response := Confirmation(Proof(c, k, draw.random)), randomDevice := draw.random);
    var s2 := Step(s1, e1, c);
    assert P.Response(s2.provisioner.value) == [Random(k.randomProvisioner)];
    assert Random(k.randomProvisioner) in s2.toDevice;
    var s3 := Step(s2, e2, c);
    assert Random(draw.random) in s3.toProvisioner;
  }

  lemma Then(sys: System, before: seq<Event>, e: Event, c: Config) returns (events: seq<Event>)
    requires Possible(sys, before, c) && Enabled(Run(sys, before, c), e)
    ensures Possible(sys, events, c) && Run(sys, events, c) == Step(Run(sys, before, c), e, c)
    ensures NoneReprocessed(sys, events, c) <==> NoneReprocessed(sys, before, c) && !Reprocesses(Run(sys, before, c), e)
  {
    events := before + [e];
    assert Front(events) == before;
  }

  // Without processing another confirmation again, a failure can still follow.
  ghost predicate CanStillFail(sys: System, c: Config) {
    exists after: seq<Event> :: Possible(sys, after, c) && NoneReprocessed(sys, after, c) && Run(sys, after, c).failed
  }

  // A random number other than the one the device has answered a confirmation with.
  predicate NewRandom(sys: System, draw: Draw) {
    sys.device.Unprovisioned? && sys.device.stack.provisionee.Some? && D.Rank(sys.device.stack.provisionee.value) == 4 ==>
      draw.random != sys.device.stack.provisionee.value.randomDevice
  }

  lemma FailsInThree(s1: System, s2: System, s3: System, e1: Event, e2: Event, e3: Event, c: Config)
    requires Enabled(s1, e1) && s2 == Step(s1, e1, c) && Enabled(s2, e2) && s3 == Step(s2, e2, c) && Enabled(s3, e3)
    requires e1.ProvisionerGets? && e2.pdu.Random? && e3.ProvisionerGets? && Step(s3, e3, c).failed
    ensures CanStillFail(s1, c)
  {
    assert Possible(s1, [], c) && NoneReprocessed(s1, [], c);
    var after := Then(s1, [], e1, c);
    after := Then(s1, after, e2, c);
    after := Then(s1, after, e3, c);
    assert Run(s1, after, c).failed;
  }

  lemma ReprocessedCanStillFail(sys: System, pdu: Pdu, draw: Draw, c: Config, k: Keys)
    requires Inv(sys, c, k) && pdu in sys.toDevice && Reprocesses(sys, DeviceGets(pdu, draw)) && draw.random != k.randomDevice
    ensures CanStillFail(DeviceStep(sys, pdu, draw, c.caps), c)
  {
    var e1, e2, e3 := ReprocessedCanFail(sys, pdu, draw, c, k);
    var s1 := DeviceStep(sys, pdu, draw, c.caps);
    FailsInThree(s1, Step(s1, e1, c), Step(Step(s1, e1, c), e2, c), e1, e2, e3, c);
  }

  lemma OthersCannotFail(sys: System, pdu: Pdu, draw: Draw, after: seq<Event>, c: Config, k: Keys)
    requires Inv(sys, c, k) && pdu in sys.toDevice && !Reprocesses(sys, DeviceGets(pdu, draw)) && c.data.unicastAddress < 0x8000
    requires var s1 := DeviceStep(sys, pdu, draw, c.caps); Possible(s1, after, c) && NoneReprocessed(s1, after, c)
    ensures !Run(DeviceStep(sys, pdu, draw, c.caps), after, c).failed
  {
    var s1 := DeviceStep(sys, pdu, draw, c.caps);
    var k' := DeviceStepKeepsInv(sys, pdu, draw, c, k, s1);
    k' := RunKeepsInv(s1, after, c, k');
  }

  // The first confirmation that is processed again is exactly what makes a failure possible: after any
  // run without one, whatever PDU the device gets next, with a random number that is new to it.
  lemma FailsExactly(before: seq<Event>, pdu: Pdu, draw: Draw, c: Config)
    requires Possible(Begin(c), before, c) && NoneReprocessed(Begin(c), before, c) && c.data.unicastAddress < 0x8000
    requires Enabled(Run(Begin(c), before, c), DeviceGets(pdu, draw)) && NewRandom(Run(Begin(c), before, c), draw)
    ensures var sys := Run(Begin(c), before, c);
      CanStillFail(Step(sys, DeviceGets(pdu, draw), c), c) <==> Reprocesses(sys, DeviceGets(pdu, draw))
  {
    var sys := Run(Begin(c), before, c);
    var k := FromBegin(before, c);
    if Reprocesses(sys, DeviceGets(pdu, draw)) {
      ReprocessedCanStillFail(sys, pdu, draw, c, k);
    } else {
      var s1 := DeviceStep(sys, pdu, draw, c.caps);
      forall after: seq<Event> | Possible(s1, after, c) && NoneReprocessed(s1, after, c) ensures !Run(s1, after, c).failed {
        OthersCannotFail(sys, pdu, draw, after, c, k);
      }
    }
  }

  // Another PDU in between makes the device forget that it has answered the confirmation.
  lemma ForgetsConfirmation(sys: System, draw: Draw, c: Config, k: Keys) returns (sys': System, confirmation: Pdu)
    requires Inv(sys, c, k) && DeviceRank(sys.device) == 4 && ProvisionerRank(sys.provisioner.value) == 2
    requires c.data.unicastAddress < 0x8000
    ensures Enabled(sys, DeviceGets(Invite(c.attention), draw)) && sys' == Step(sys, DeviceGets(Invite(c.attention), draw), c)
    ensures Inv(sys', c, k) && confirmation in sys'.toDevice && Reprocesses(sys', DeviceGets(confirmation, draw))
  {
    confirmation := Confirmation(Proof(c, k, k.randomProvisioner));
    sys' := Step(sys, DeviceGets(Invite(c.attention), draw), c);
    assert sys'.device.stack == sys.device.stack.(lastTransmit := Some(Invite(c.attention)));
    assert sys'.toProvisioner == sys.toProvisioner;
    assert P.Response(sys.provisioner.value)[0] == confirmation;
    assert confirmation in SetOf(P.Response(sys.provisioner.value));
  }

  // So the handshake can fail between two honest sides, on nothing worse than a repeated invite and
  // a repeated confirmation.
  lemma CanFail(c: Config, draw: Draw) returns (events: seq<Event>)
    requires c.data.unicastAddress < 0x8000
    ensures Possible(Begin(c), events, c) && Run(Begin(c), events, c).failed
  {
    var k := FromBegin([], c);
    k := InOrderAdvances([], [draw, draw, draw, draw, draw, draw], c, k);
    events := InOrder([], [draw, draw, draw, draw, draw, draw], c);
    var sys := Run(Begin(c), events, c);
    var other := Draw(0, k.randomDevice + 1, 0);
    var forgetful, confirmation := ForgetsConfirmation(sys, other, c, k);
    var e1, e2, e3 := ReprocessedCanFail(forgetful, confirmation, other, c, k);
    events := Then(Begin(c), events, DeviceGets(Invite(c.attention), other), c);
    events := Then(Begin(c), events, DeviceGets(confirmation, other), c);
    events := Then(Begin(c), events, e1, c);
    events := Then(Begin(c), events, e2, c);
    events := Then(Begin(c), events, e3, c);
  }
}
