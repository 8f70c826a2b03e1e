/** The provisioning PDUs, with the cryptography they carry as ideal, injective terms. */
module ProvisioningPdus {
  import opened Wrappers
  import opened Mesh

  // A public key on the curve is known by its private scalar; two coordinates off it are no key.
  datatype Point = OnCurve(scalar: nat) | OffCurve(x: nat)

  // The Diffie-Hellman secret of two scalars, the same whichever side computes it.
  datatype Secret = Dh(low: nat, high: nat)

  function DiffieHellman(own: nat, peer: nat): Secret { if own <= peer then Dh(own, peer) else Dh(peer, own) }

  datatype ErrorCode = InvalidFormat | UnexpectedError | ConfirmationFailed

  datatype Pdu =
    | Invite(attention: u8)
    | Capabilities(caps: nat)
    | Start(oob: bool, fields: nat)
    | PublicKey(point: Point)
    | InputComplete
    | Confirmation(mac: Mac)
    | Random(random: nat)
    | Data(sealed: Sealed)
    | Complete
    | Failed(code: ErrorCode)

  const DEFAULT_START: Pdu := Start(false, 0)

  // The confirmation inputs: the PDUs that both sides have seen so far.
  type Transcript = seq<Pdu>

  const TRANSCRIPT_CAPACITY: nat := 256

  // How many octets a PDU adds to the confirmation inputs. An OOB action takes two.
  function Size(pdu: Pdu): nat {
    match pdu
    case Invite(_) => 1
    case Capabilities(_) => 11
    case Start(oob, _) => if oob then 6 else 5
    case PublicKey(_) => 64
    case _ => 0
  }

  function Length(t: Transcript): nat { if t == [] then 0 else Length(Front(t)) + Size(Last(t)) }

  lemma LengthOfMore(t: Transcript, pdu: Pdu)
    ensures Length(t + [pdu]) == Length(t) + Size(pdu)
  {
    assert Front(t + [pdu]) == t;
  }

  function Add(t: Transcript, pdu: Pdu): Result<Transcript, DriverError> {
    if Length(t) + Size(pdu) <= TRANSCRIPT_CAPACITY then Ok(t + [pdu]) else Err(InsufficientSpace)
  }

  // The confirmation inputs take 256 octets: of a public key 64, of capabilities eleven, of a start five,
  // or six with an out-of-band action, of an invite one, and of no other PDU any.
  lemma RoomForInputs(t: Transcript, pdu: Pdu)
    ensures Size(pdu) == (if pdu.PublicKey? then 64 else if pdu.Capabilities? then 11
                          else if pdu.Start? then (if pdu.oob then 6 else 5) else if pdu.Invite? then 1 else 0)
    ensures Add(t, pdu) == Ok(t + [pdu]) <==> Length(t) + Size(pdu) <= 256
    ensures Add(t, pdu) == Err(InsufficientSpace) <==> Length(t) + Size(pdu) > 256
  {
  }

  // The confirmation of a random number, under the confirmation key of a secret and a transcript.
  datatype Mac = Cmac(secret: Secret, transcript: Transcript, random: nat, auth: nat) | OtherMac(value: nat)

  // Everything the session key, the session nonce and the device key are derived from.
  datatype Session = Session(secret: Secret, transcript: Transcript, randomProvisioner: nat, randomDevice: nat)

  datatype DeviceKey = DeviceKey(session: Session)

  // Octets encrypted under a session key; they open under the same session only.
  datatype Sealed = Sealed(session: Session, octets: bytes) | OtherSealed(value: nat)

  function Open(session: Session, sealed: Sealed): Result<bytes, DriverError> {
    if sealed.Sealed? && sealed.session == session then Ok(sealed.octets) else Err(CryptoError)
  }

  // What the random number generator yields in a step that asks for it.
  datatype Draw = Draw(scalar: nat, random: nat, auth: nat)

  // The authentication value: zeros, unless an out-of-band action calls for a random one.
  function AuthValue(start: Pdu, draw: Draw): nat
    requires start.Start?
  {
    if start.oob then draw.auth else 0
  }
}
