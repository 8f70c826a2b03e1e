/** The provisioner's side of provisioning. */
module Provisioner {
  import opened Wrappers
  import opened Mesh
  import opened ProvisioningPdus
  import ProvisioningData

  datatype Provisioner =
    | Invitation(transcript: Transcript, response: seq<Pdu>, data: ProvisioningData.Data)
    | KeyExchange(transcript: Transcript, response: seq<Pdu>, data: ProvisioningData.Data, auth: nat, own: nat)
    | Authentication(transcript: Transcript, response: seq<Pdu>, data: ProvisioningData.Data, auth: nat,
                     secret: Secret, confirmation: Option<Mac>, randomProvisioner: nat)
    | DataDistribution(response: seq<Pdu>, session: Session)
    | Success
    | Failure(code: ErrorCode)

  function New(data: ProvisioningData.Data, attention: u8): Provisioner {
    Invitation([Invite(attention)], [Invite(attention)], data)
  }

  // The PDUs to send: none, one or two.
  function Response(p: Provisioner): seq<Pdu> {
    match p
    case Success => []
    case Failure(code) => [Failed(code)]
    case _ => p.response
  }

  // The public key of the device; the confirmation of a new random number answers it.
  function Ecdh(p: Provisioner, point: Point, draw: Draw): Provisioner
    requires p.KeyExchange?
  {
    if point.OffCurve? then Failure(InvalidFormat)
    else
      var mine := Add(p.transcript, PublicKey(OnCurve(p.own)));
      if mine.Err? || Add(mine.value, PublicKey(point)).Err? then Failure(UnexpectedError)
      else
        var t := Add(mine.value, PublicKey(point)).value;
        var secret := DiffieHellman(p.own, point.scalar);
        Authentication(t, [Confirmation(Cmac(secret, t, draw.random, p.auth))], p.data, p.auth, secret, None, draw.random)
  }

  function Next(p: Provisioner, pdu: Pdu, draw: Draw): Result<Provisioner, DriverError> {
    match (p, pdu)
    case (Invitation(transcript, _, data), Capabilities(_)) =>
      var answered :- Add(transcript, pdu);
      var started :- Add(answered, DEFAULT_START);
      Ok(KeyExchange(started, [DEFAULT_START, PublicKey(OnCurve(draw.scalar))], data, AuthValue(DEFAULT_START, draw),
                     draw.scalar))
    case (KeyExchange(_, _, _, _, _), PublicKey(point)) => Ok(Ecdh(p, point, draw))
    case (Authentication(_, _, _, _, _, _, random), Confirmation(mac)) =>
      Ok(p.(confirmation := Some(mac), response := [Random(random)]))
    case (Authentication(t, _, data, auth, secret, confirmation, own), Random(random)) =>
      if confirmation == Some(Cmac(secret, t, random, auth)) then
        var session := Session(secret, t, own, random);
        Ok(DataDistribution([Data(Sealed(session, ProvisioningData.Emit(data)))], session))
      else Ok(Failure(ConfirmationFailed))
    case (DataDistribution(_, _), Complete) => Ok(Success)
    case _ => Ok(p)
  }
}
