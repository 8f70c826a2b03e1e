/** A device and a provisioner over a channel that loses, repeats and reorders provisioning PDUs. */
module Handshake {
  import opened Wrappers
  import opened Mesh
  import opened ProvisioningPdus
  import ProvisioningData
  import D = Provisionee
  import P = Provisioner

  datatype Config = Config(caps: nat, attention: u8, data: ProvisioningData.Data)

  datatype Device = Unprovisioned(stack: D.Stack) | Provisioned(deviceKey: DeviceKey, data: ProvisioningData.Data)

  // Both sides, everything either has sent to the other, the session the provisioner has sealed data
  // for, and whether either has ever failed. A provisioner is taken away by an error.
  datatype System = System(
    device: Device, provisioner: Option<P.Provisioner>, toDevice: set<Pdu>, toProvisioner: set<Pdu>,
    sealedFor: Option<Session>, failed: bool)

  datatype Event = DeviceGets(pdu: Pdu, draw: Draw) | ProvisionerGets(pdu: Pdu, draw: Draw)

  function SetOf(s: seq<Pdu>): set<Pdu> { set x | x in s }

  function Begin(c: Config): System {
    System(Unprovisioned(D.NewStack(c.caps)), Some(P.New(c.data, c.attention)), SetOf(P.Response(P.New(c.data, c.attention))),
           {}, None, false)
  }

  predicate Enabled(sys: System, e: Event) {
    match e
    case DeviceGets(pdu, _) => pdu in sys.toDevice
    case ProvisionerGets(pdu, _) => pdu in sys.toProvisioner
  }

  // The driver around the device's stack: it answers, starts again after a failure, and puts the
  // provisioned stack in place once it has the data.
  function DeviceStep(sys: System, pdu: Pdu, draw: Draw, caps: nat): System {
    if sys.device.Provisioned? then sys
    else
      var (stack, outcome) := D.ProcessStep(sys.device.stack, pdu, draw);
      AfterProcess(sys, stack, outcome, caps)
  }

  function AfterProcess(sys: System, stack: D.Stack, outcome: Result<Option<D.ProvisioningState>, DriverError>,
                        caps: nat): System {
    match outcome
    case Ok(None) => sys.(device := Unprovisioned(stack))
    case Ok(Some(Respond(answer))) => sys.(device := Unprovisioned(stack), toProvisioner := sys.toProvisioner + {answer})
    case Ok(Some(Received(deviceKey, data, answer))) =>
      sys.(device := Provisioned(deviceKey, data), toProvisioner := sys.toProvisioner + {answer})
    case Ok(Some(Fail)) => sys.(device := Unprovisioned(D.NewStack(caps)), failed := true)
    case Err(_) => sys.(device := Unprovisioned(stack), failed := true)
  }

  function ProvisionerStep(sys: System, pdu: Pdu, draw: Draw): System {
    if sys.provisioner.None? then sys
    else
      match P.Next(sys.provisioner.value, pdu, draw) {
        case Err(_) => sys.(provisioner := None, failed := true)
        case Ok(p) =>
          sys.(provisioner := Some(p), toDevice := sys.toDevice + SetOf(P.Response(p)),
               sealedFor := if p.DataDistribution? then Some(p.session) else sys.sealedFor,
               failed := sys.failed || p.Failure?)
      }
  }

  function Step(sys: System, e: Event, c: Config): System {
    match e
    case DeviceGets(pdu, draw) => DeviceStep(sys, pdu, draw, c.caps)
    case ProvisionerGets(pdu, draw) => ProvisionerStep(sys, pdu, draw)
  }

  // What counts as a failure: an error or the failure phase of either side. A failed device starts
  // again, and loses its machine to an error; a provisioner is lost to one.
  lemma FailureIsRecorded(sys: System, e: Event, c: Config)
    ensures var sys' := Step(sys, e, c);
      match e
      case DeviceGets(pdu, draw) =>
        sys.device.Unprovisioned? ==>
          var (stack, outcome) := D.ProcessStep(sys.device.stack, pdu, draw);
          && (sys'.failed <==> sys.failed || outcome.Err? || outcome == Ok(Some(D.Fail)))
          && (outcome == Ok(Some(D.Fail)) ==> sys'.device == Unprovisioned(D.NewStack(c.caps)))
          && (outcome.Err? ==> sys'.device == Unprovisioned(stack))
      case ProvisionerGets(pdu, draw) =>
        sys.provisioner.Some? ==>
          var next := P.Next(sys.provisioner.value, pdu, draw);
          && (sys'.failed <==> sys.failed || next.Err? || next.value.Failure?)
          && sys'.provisioner == (if next.Ok? then Some(next.value) else None)
  {
  }

  predicate Possible(sys: System, events: seq<Event>, c: Config) {
    events == [] || (Possible(sys, Front(events), c) && Enabled(Run(sys, Front(events), c), Last(events)))
  }

  function Run(sys: System, events: seq<Event>, c: Config): System {
    if events == [] then sys else Step(Run(sys, Front(events), c), Last(events), c)
  }

  // ---------------------------------------------------------------- agreement, whatever happens

  // Only data for the one session is ever sealed, and only it provisions the device.
  predicate Agreeing(sys: System, c: Config) {
    && (forall pdu | pdu in sys.toDevice && pdu.Data? ::
          sys.sealedFor.Some? && pdu.sealed == Sealed(sys.sealedFor.value, ProvisioningData.Emit(c.data)))
    && (sys.provisioner.Some? ==> match sys.provisioner.value
        case Invitation(_, response, data) => sys.sealedFor.None? && data == c.data && NoData(response)
        case KeyExchange(_, response, data, _, _) => sys.sealedFor.None? && data == c.data && NoData(response)
        case Authentication(_, response, data, _, _, _, _) => sys.sealedFor.None? && data == c.data && NoData(response)
        case DataDistribution(response, session) =>
          sys.sealedFor == Some(session) && response == [Data(Sealed(session, ProvisioningData.Emit(c.data)))]
        case _ => true)
    && (sys.device.Provisioned? ==>
        && sys.sealedFor.Some? && sys.device.deviceKey == DeviceKey(sys.sealedFor.value)
        && ProvisioningData.Parse(ProvisioningData.Emit(c.data)) == Ok(sys.device.data)
        && (sys.provisioner.Some? ==> sys.provisioner.value.DataDistribution? || sys.provisioner.value.Success?))
    && (sys.sealedFor.Some? && sys.provisioner.Some? ==>
        sys.provisioner.value.DataDistribution? || sys.provisioner.value.Success?)
    // Once provisioned, the device was given data in a session it had reached itself.
    && (sys.device.Unprovisioned? && sys.device.stack.provisionee.Some? ==> !sys.device.stack.provisionee.value.Done?)
  }

  predicate NoData(response: seq<Pdu>) { forall i | 0 <= i < |response| :: !response[i].Data? }

  lemma BeginAgrees(c: Config)
    ensures Agreeing(Begin(c), c)
  {
  }

  // What a stack that is not done may come to: it is done only by data, for the session that the data
  // was sealed for.
  predicate DoneByData(stack: D.Stack, outcome: Result<Option<D.ProvisioningState>, DriverError>, pdu: Pdu) {
    if outcome.Ok? && outcome.value.Some? && outcome.value.value.Received? then
      && pdu.Data? && pdu.sealed.Sealed? && outcome.value.value.deviceKey == DeviceKey(pdu.sealed.session)
      && ProvisioningData.Parse(pdu.sealed.octets) == Ok(outcome.value.value.data)
    else stack.provisionee.Some? ==> !stack.provisionee.value.Done?
  }

  lemma CompletedByData(stack: D.Stack, pdu: Pdu, draw: Draw)
    requires stack.provisionee.Some? ==> !stack.provisionee.value.Done?
    ensures var (stack', outcome) := D.ProcessStep(stack, pdu, draw); DoneByData(stack', outcome, pdu)
  {
  }

  lemma AfterProcessAgrees(sys: System, stack: D.Stack, outcome: Result<Option<D.ProvisioningState>, DriverError>,
                           pdu: Pdu, c: Config)
    requires Agreeing(sys, c) && pdu in sys.toDevice && sys.device.Unprovisioned? && DoneByData(stack, outcome, pdu)
    ensures Agreeing(AfterProcess(sys, stack, outcome, c.caps), c)
  {
  }

  lemma DeviceStepAgrees(sys: System, pdu: Pdu, draw: Draw, c: Config)
    requires Agreeing(sys, c) && pdu in sys.toDevice
    ensures Agreeing(DeviceStep(sys, pdu, draw, c.caps), c)
  {
    if sys.device.Unprovisioned? {
      var (stack, outcome) := D.ProcessStep(sys.device.stack, pdu, draw);
      CompletedByData(sys.device.stack, pdu, draw);
      AfterProcessAgrees(sys, stack, outcome, pdu, c);
    }
  }

  lemma ProvisionerStepAgrees(sys: System, pdu: Pdu, draw: Draw, c: Config)
    requires Agreeing(sys, c)
    ensures Agreeing(ProvisionerStep(sys, pdu, draw), c)
  {
  }

  lemma {:induction false} RunAgrees(events: seq<Event>, c: Config)
    requires Possible(Begin(c), events, c)
    ensures Agreeing(Run(Begin(c), events, c), c)
    decreases |events|
  {
    if events == [] {
      BeginAgrees(c);
    } else {
      RunAgrees(Front(events), c);
      var sys := Run(Begin(c), Front(events), c);
      match Last(events)
      case DeviceGets(pdu, draw) => DeviceStepAgrees(sys, pdu, draw, c);
      case ProvisionerGets(pdu, draw) => ProvisionerStepAgrees(sys, pdu, draw, c);
    }
  }

  // In every interleaving, even one in which a side has failed and started again: a provisioned
  // device holds the provisioner's data and a device key of the session the provisioner sealed it
  // for, so that both have the same transcript, secret and random numbers. An address that is no
  // unicast address never provisions it.
  lemma Agreement(events: seq<Event>, c: Config)
    requires Possible(Begin(c), events, c)
    ensures var end := Run(Begin(c), events, c);
      end.device.Provisioned? ==>
        && end.device.data == c.data && c.data.unicastAddress < 0x8000
        && end.sealedFor == Some(end.device.deviceKey.session)
        && (end.provisioner.Some? && end.provisioner.value.DataDistribution? ==>
            end.provisioner.value.session == end.device.deviceKey.session)
  {
    RunAgrees(events, c);
    ProvisioningData.RoundTrip(c.data);
  }
}
