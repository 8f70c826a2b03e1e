/** The network layer: encryption, obfuscation, and the way back through the keys of a node. */
module NetworkLayer {
  import opened Wrappers
  import opened Mesh
  import opened Octets
  import opened Nonce
  import opened OutboundSegmentation

  // AES-CCM and the AES block cipher, as functions of key, nonce, MIC size and octets; `block` yields
  // one octet of an encrypted block.
  datatype Crypto = Crypto(
    seal: (nat, bytes, nat, bytes) -> bytes,
    open: (nat, bytes, nat, bytes) -> Option<bytes>,
    block: (nat, bytes, nat) -> byte)

  // Decryption undoes encryption, and a MIC is added.
  ghost predicate Lawful(c: Crypto) {
    forall key, nonce, mic, p ::
      |c.seal(key, nonce, mic, p)| == |p| + mic && c.open(key, nonce, mic, c.seal(key, nonce, mic, p)) == Some(p)
  }

  datatype NetworkKey = NetworkKey(nid: u8, encryption: nat, privacy: nat)

  datatype NetworkPdu = NetworkPdu(ivi: nat, nid: u8, obfuscated: bytes, encryptedAndMic: bytes)

  datatype Cleartext = Cleartext(control: bool, pdu: CleartextPdu)

  const ENCRYPTED_CAPACITY: nat := 28
  const TRANSPORT_CAPACITY: nat := 16

  function MicSize(control: bool): nat { if control then 8 else 4 }

  function CtlTtl(control: bool, ttl: u8): byte { (if control then 0x80 else 0) | Octet(ttl) }

  function Header(ctlTtl: byte, seqNum: u32, src: u16): (h: bytes)
    ensures |h| == 6
  {
    [ctlTtl] + U24(seqNum) + U16(src)
  }

  function Obfuscate(c: Crypto, key: NetworkKey, ivIndex: u32, sealed: bytes, header: bytes): (o: bytes)
    requires |sealed| >= 7 && |header| == 6
    ensures |o| == 6
    ensures forall i | 0 <= i < 6 :: o[i] == c.block(key.privacy, [0, 0, 0, 0, 0] + U32(ivIndex) + sealed[..7], i) ^ header[i]
  {
    seq(6, i requires 0 <= i < 6 => c.block(key.privacy, [0, 0, 0, 0, 0] + U32(ivIndex) + sealed[..7], i) ^ header[i])
  }

  lemma XorTwice(a: byte, b: byte)
    ensures a ^ (a ^ b) == b
  {
  }

  lemma ObfuscateTwice(c: Crypto, key: NetworkKey, ivIndex: u32, sealed: bytes, header: bytes)
    requires |sealed| >= 7 && |header| == 6
    ensures Obfuscate(c, key, ivIndex, sealed, Obfuscate(c, key, ivIndex, sealed, header)) == header
  {
    var o := Obfuscate(c, key, ivIndex, sealed, header);
    var back := Obfuscate(c, key, ivIndex, sealed, o);
    forall i | 0 <= i < 6 ensures back[i] == header[i] {
      XorTwice(c.block(key.privacy, [0, 0, 0, 0, 0] + U32(ivIndex) + sealed[..7], i), header[i]);
    }
  }

  function Encrypt(c: Crypto, key: NetworkKey, m: Cleartext): Result<NetworkPdu, DriverError> {
    var (meta, mic) := (m.pdu.meta, MicSize(m.control));
    var ctlTtl := CtlTtl(m.control, meta.ttl);
    var plaintext := U16(meta.dst) + m.pdu.transport;
    var sealed := c.seal(key.encryption, NetworkNonce(ctlTtl, meta.seqNum, meta.src, meta.ivIndex), mic, plaintext);
    if |plaintext| + mic > ENCRYPTED_CAPACITY then Err(InsufficientSpace)
    else if |sealed| < 7 then Err(Panic)
    else
      var header := Header(ctlTtl, meta.seqNum, meta.src);
      Ok(NetworkPdu(Ivi(meta.ivIndex), key.nid, Obfuscate(c, key, meta.ivIndex, sealed, header), sealed))
  }

  function Decrypt(c: Crypto, key: NetworkKey, pdu: NetworkPdu, ivIndex: u32): Result<Cleartext, DriverError>
    requires |pdu.obfuscated| == 6
  {
    if |pdu.encryptedAndMic| < 7 then Err(Panic)
    else
      var h := Obfuscate(c, key, ivIndex, pdu.encryptedAndMic, pdu.obfuscated);
      var control := h[0] & 0x80 != 0;
      var (seqNum, src) := (ToU24(h[1], h[2], h[3]), ToU16(h[4], h[5]));
      if h[4] & 0x80 != 0 then Err(InvalidAddress)
      else if |pdu.encryptedAndMic| < MicSize(control) then Err(Panic)
      else
        match c.open(key.encryption, NetworkNonce(h[0], seqNum, src, ivIndex), MicSize(control), pdu.encryptedAndMic)
        case None => Err(CryptoError)
        case Some(p) =>
          if |p| < 2 then Err(Panic)
          else if |p| - 2 > TRANSPORT_CAPACITY then Err(InsufficientSpace)
          else Ok(Cleartext(control, CleartextPdu(p[2..], Meta(ivIndex, src, ToU16(p[0], p[1]), seqNum, Number(h[0] & 0x7F)))))
  }

  // The first key of the right NID under which the PDU decrypts.
  function TryKeys(c: Crypto, keys: seq<NetworkKey>, pdu: NetworkPdu,
                   ivIndex: u32): Result<Option<Cleartext>, DriverError>
    requires |pdu.obfuscated| == 6
  {
    if keys == [] then Ok(None)
    else if keys[0].nid != pdu.nid then TryKeys(c, keys[1..], pdu, ivIndex)
    else
      match Decrypt(c, keys[0], pdu, ivIndex)
      case Ok(m) => Ok(Some(m))
      case Err(e) => if e == Panic then Err(Panic) else TryKeys(c, keys[1..], pdu, ivIndex)
  }

  method TryDecrypt(c: Crypto, keys: seq<NetworkKey>, pdu: NetworkPdu, ivIndex: u32)
    returns (result: Result<Option<Cleartext>, DriverError>)
    requires |pdu.obfuscated| == 6
    ensures result == TryKeys(c, keys, pdu, ivIndex)
  {
    for i := 0 to |keys|
      invariant TryKeys(c, keys[i..], pdu, ivIndex) == TryKeys(c, keys, pdu, ivIndex)
    {
      assert keys[i..][1..] == keys[i + 1..];
      if keys[i].nid == pdu.nid {
        match Decrypt(c, keys[i], pdu, ivIndex) {
          case Ok(m) => return Ok(Some(m));
          case Err(e) => if e == Panic { return Err(Panic); }
        }
      }
    }
    return Ok(None);
  }

  // ---------------------------------------------------------------- round trip

  lemma CtlTtlBits(control: bool, ttl: u8)
    ensures var b := CtlTtl(control, ttl);
      && (b & 0x80 != 0 <==> control || ttl >= 0x80)
      && Number(b & 0x7F) == if ttl >= 0x80 then ttl - 0x80 else ttl
  {
    OctetBits(Octet(ttl));
    TtlBits(control, Octet(ttl));
  }

  lemma TtlBits(control: bool, t: byte)
    ensures var b: byte := (if control then 0x80 else 0) | t;
      b & 0x80 == (if control then 0x80 else t & 0x80) && b & 0x7F == t & 0x7F
  {
  }

  lemma Parts(ctlTtl: byte, q: bytes, s: bytes)
    requires |q| == 3 && |s| == 2
    ensures var h := [ctlTtl] + q + s;
      h[0] == ctlTtl && h[1] == q[0] && h[2] == q[1] && h[3] == q[2] && h[4] == s[0] && h[5] == s[1]
  {
  }

  // The number as the 24 bits of a header carry it.
  function Low24(seqNum: u32): u32 { seqNum % 0x100_0000 }

  lemma HeaderBack(ctlTtl: byte, seqNum: u32, src: u16)
    ensures var h := Header(ctlTtl, seqNum, src);
      && h[0] == ctlTtl && ToU24(h[1], h[2], h[3]) == Low24(seqNum) && ToU16(h[4], h[5]) == src
      && (h[4] & 0x80 == 0 <==> src < 0x8000)
  {
    Parts(ctlTtl, U24(seqNum), U16(src));
    U24RoundTrip(seqNum);
    U16RoundTrip(src);
    HighBit(src);
  }

  lemma NonceOfLowNumber(ctlTtl: byte, seqNum: u32, src: u16, ivIndex: u32)
    ensures NetworkNonce(ctlTtl, Low24(seqNum), src, ivIndex) == NetworkNonce(ctlTtl, seqNum, src, ivIndex)
  {
    LowTwice(seqNum, Low24(seqNum));
    NetworkNoncesEqual(ctlTtl, Low24(seqNum), src, ivIndex, ctlTtl, seqNum, src, ivIndex);
  }

  lemma LowTwice(x: u32, low: nat)
    requires low == x % 0x100_0000
    ensures low % 0x100_0000 == low
  {
  }

  function Carried(m: Cleartext): Cleartext {
    m.(pdu := m.pdu.(meta := m.pdu.meta.(seqNum := Low24(m.pdu.meta.seqNum))))
  }

  // The receiver's half, given the fields that come out of the header.
  lemma DecryptWith(c: Crypto, key: NetworkKey, p: NetworkPdu, ivIndex: u32, h: bytes, seqNum: u32, src: u16, dst: u16,
                    transport: bytes, control: bool)
    requires |p.obfuscated| == 6 && |p.encryptedAndMic| >= 7 && |p.encryptedAndMic| >= (if control then 8 else 4)
    requires |transport| <= TRANSPORT_CAPACITY && |h| == 6
    requires Obfuscate(c, key, ivIndex, p.encryptedAndMic, p.obfuscated) == h
    requires ToU24(h[1], h[2], h[3]) == seqNum && ToU16(h[4], h[5]) == src && h[4] & 0x80 == 0
    requires control <==> h[0] & 0x80 != 0
    requires c.open(key.encryption, NetworkNonce(h[0], seqNum, src, ivIndex), if control then 8 else 4, p.encryptedAndMic)
          == Some(U16(dst) + transport)
    ensures Decrypt(c, key, p, ivIndex)
         == Ok(Cleartext(control, CleartextPdu(transport, Meta(ivIndex, src, dst, seqNum, Number(h[0] & 0x7F)))))
  {
    DestinationBack(dst, transport);
  }

  // What is never decrypted: too few octets to obfuscate or for the MIC, which make the receiver panic, a
  // source that is no unicast address, and what does not open.
  lemma DecryptErrors(c: Crypto, key: NetworkKey, p: NetworkPdu, ivIndex: u32)
    requires |p.obfuscated| == 6
    ensures |p.encryptedAndMic| < 7 ==> Decrypt(c, key, p, ivIndex) == Err(Panic)
    ensures |p.encryptedAndMic| >= 7 ==>
      var h := Obfuscate(c, key, ivIndex, p.encryptedAndMic, p.obfuscated);
      var mic := if h[0] & 0x80 != 0 then 8 else 4;
      if h[4] & 0x80 != 0 then Decrypt(c, key, p, ivIndex) == Err(InvalidAddress)
      else if |p.encryptedAndMic| < mic then Decrypt(c, key, p, ivIndex) == Err(Panic)
      else Decrypt(c, key, p, ivIndex) == Err(CryptoError) <==>
             c.open(key.encryption, NetworkNonce(h[0], ToU24(h[1], h[2], h[3]), ToU16(h[4], h[5]), ivIndex), mic,
                    p.encryptedAndMic).None?
  {
  }

  // What opens to fewer than two octets makes the receiver panic, and a transport PDU of more than
  // sixteen octets does not fit.
  lemma DecryptLimits(c: Crypto, key: NetworkKey, p: NetworkPdu, ivIndex: u32, h: bytes, plaintext: bytes)
    requires |p.obfuscated| == 6 && |p.encryptedAndMic| >= 8 && |h| == 6
    requires Obfuscate(c, key, ivIndex, p.encryptedAndMic, p.obfuscated) == h && h[4] & 0x80 == 0
    requires c.open(key.encryption, NetworkNonce(h[0], ToU24(h[1], h[2], h[3]), ToU16(h[4], h[5]), ivIndex),
                    if h[0] & 0x80 != 0 then 8 else 4, p.encryptedAndMic) == Some(plaintext)
    ensures Decrypt(c, key, p, ivIndex).Ok? <==> 2 <= |plaintext| <= 18
    ensures |plaintext| < 2 ==> Decrypt(c, key, p, ivIndex) == Err(Panic)
    ensures |plaintext| > 18 ==> Decrypt(c, key, p, ivIndex) == Err(InsufficientSpace)
  {
  }

  // A decrypted PDU is a control PDU exactly when the header's first bit says so.
  lemma DecryptedControl(c: Crypto, key: NetworkKey, p: NetworkPdu, ivIndex: u32, h: bytes)
    requires |p.obfuscated| == 6 && |p.encryptedAndMic| >= 7 && |h| == 6
    requires Obfuscate(c, key, ivIndex, p.encryptedAndMic, p.obfuscated) == h
    ensures var r := Decrypt(c, key, p, ivIndex);
      r.Ok? ==> (r.value.control <==> h[0] & 0x80 != 0) && r.value.pdu.meta.ttl == Number(h[0] & 0x7F)
  {
  }

  // The octets of a PDU on the air, as its sender made them.
  ghost predicate SentAs(c: Crypto, key: NetworkKey, m: Cleartext, p: NetworkPdu, ctlTtl: byte) {
    var meta := m.pdu.meta;
    && |p.obfuscated| == 6 && |p.encryptedAndMic| >= 7 && |p.encryptedAndMic| >= (if m.control then 8 else 4)
    && c.open(key.encryption, NetworkNonce(ctlTtl, meta.seqNum, meta.src, meta.ivIndex), if m.control then 8 else 4, p.encryptedAndMic)
       == Some(U16(meta.dst) + m.pdu.transport)
    && p.obfuscated == Obfuscate(c, key, meta.ivIndex, p.encryptedAndMic, Header(ctlTtl, meta.seqNum, meta.src))
  }

  lemma EncryptSends(c: Crypto, key: NetworkKey, m: Cleartext, p: NetworkPdu)
    requires Lawful(c) && Encrypt(c, key, m) == Ok(p)
    ensures p.ivi == Ivi(m.pdu.meta.ivIndex) && p.nid == key.nid && SentAs(c, key, m, p, CtlTtl(m.control, m.pdu.meta.ttl))
  {
  }

  lemma DecryptOfSent(c: Crypto, key: NetworkKey, m: Cleartext, p: NetworkPdu, ctlTtl: byte)
    requires SentAs(c, key, m, p, ctlTtl) && m.pdu.meta.src < 0x8000 && |m.pdu.transport| <= TRANSPORT_CAPACITY
    requires m.control == (ctlTtl & 0x80 != 0) && Number(ctlTtl & 0x7F) == m.pdu.meta.ttl
    ensures Decrypt(c, key, p, m.pdu.meta.ivIndex) == Ok(Carried(m))
  {
    var meta := m.pdu.meta;
    var h := Header(ctlTtl, meta.seqNum, meta.src);
    ObfuscateTwice(c, key, meta.ivIndex, p.encryptedAndMic, h);
    HeaderBack(ctlTtl, meta.seqNum, meta.src);
    NonceOfLowNumber(ctlTtl, meta.seqNum, meta.src, meta.ivIndex);
    DecryptWith(c, key, p, meta.ivIndex, h, Low24(meta.seqNum), meta.src, meta.dst, m.pdu.transport, m.control);
  }

  lemma DecryptOfOverflow(c: Crypto, key: NetworkKey, m: Cleartext, p: NetworkPdu, ctlTtl: byte)
    requires SentAs(c, key, m, p, ctlTtl)
    requires m.control != (ctlTtl & 0x80 != 0) || Number(ctlTtl & 0x7F) != m.pdu.meta.ttl
    ensures Decrypt(c, key, p, m.pdu.meta.ivIndex) != Ok(m)
  {
    var meta := m.pdu.meta;
    var h := Header(ctlTtl, meta.seqNum, meta.src);
    ObfuscateTwice(c, key, meta.ivIndex, p.encryptedAndMic, h);
    DecryptedControl(c, key, p, meta.ivIndex, h);
  }

  // How many octets are sealed: the destination, the transport PDU, and a MIC of eight octets for control
  // PDUs and four for access PDUs. A PDU is sent exactly when they fit, and are enough to obfuscate.
  lemma SealedSize(c: Crypto, key: NetworkKey, m: Cleartext)
    requires Lawful(c)
    ensures var size := 2 + |m.pdu.transport| + if m.control then 8 else 4;
      && (Encrypt(c, key, m).Ok? <==> 7 <= size <= 28)
      && (Encrypt(c, key, m).Ok? ==> |Encrypt(c, key, m).value.encryptedAndMic| == size)
      && (size > 28 ==> Encrypt(c, key, m) == Err(InsufficientSpace)) && (size < 7 ==> Encrypt(c, key, m) == Err(Panic))
  {
  }

  // What the receiver with the same key and IV index makes of a PDU, when the TTL has seven bits: the
  // same PDU, with 24 bits of its number.
  lemma DecryptOfEncrypt(c: Crypto, key: NetworkKey, m: Cleartext, p: NetworkPdu)
    requires Lawful(c) && m.pdu.meta.src < 0x8000 && 0 < |m.pdu.transport| <= TRANSPORT_CAPACITY
    requires Encrypt(c, key, m) == Ok(p)
    ensures p.ivi == Ivi(m.pdu.meta.ivIndex) && p.nid == key.nid && |p.obfuscated| == 6
    ensures m.pdu.meta.ttl < 0x80 ==> Decrypt(c, key, p, m.pdu.meta.ivIndex) == Ok(Carried(m))
    ensures m.pdu.meta.ttl >= 0x80 ==> Decrypt(c, key, p, m.pdu.meta.ivIndex) != Ok(m)
  {
    EncryptSends(c, key, m, p);
    CtlTtlBits(m.control, m.pdu.meta.ttl);
    if m.pdu.meta.ttl < 0x80 {
      DecryptOfSent(c, key, m, p, CtlTtl(m.control, m.pdu.meta.ttl));
    } else {
      DecryptOfOverflow(c, key, m, p, CtlTtl(m.control, m.pdu.meta.ttl));
    }
  }

  lemma DestinationBack(dst: u16, transport: bytes)
    ensures var p := U16(dst) + transport;
      p[2..] == transport && ToU16(p[0], p[1]) == dst
  {
    var p := U16(dst) + transport;
    assert p[0] == U16(dst)[0] && p[1] == U16(dst)[1];
    U16RoundTrip(dst);
  }

  lemma AlwaysEncrypts(c: Crypto, key: NetworkKey, m: Cleartext)
    requires Lawful(c) && 0 < |m.pdu.transport| <= TRANSPORT_CAPACITY
    ensures Encrypt(c, key, m).Ok?
  {
  }

  // The PDU survives exactly when the TTL has seven bits and the number 24.
  lemma NetworkRoundTrip(c: Crypto, key: NetworkKey, m: Cleartext, p: NetworkPdu)
    requires Lawful(c) && m.pdu.meta.src < 0x8000 && 0 < |m.pdu.transport| <= TRANSPORT_CAPACITY
    requires Encrypt(c, key, m) == Ok(p) && |p.obfuscated| == 6
    ensures Decrypt(c, key, p, m.pdu.meta.ivIndex) == Ok(m) <==> m.pdu.meta.ttl < 0x80 && m.pdu.meta.seqNum < 0x100_0000
  {
    DecryptOfEncrypt(c, key, m, p);
    CarriedIsSame(m);
  }

  lemma CarriedIsSame(m: Cleartext)
    ensures Carried(m) == m <==> m.pdu.meta.seqNum < 0x100_0000
  {
  }

  // The key at this position is the first of its NID that the PDU does not fail to decrypt under.
  predicate OpensFirst(c: Crypto, keys: seq<NetworkKey>, k: nat, pdu: NetworkPdu, ivIndex: u32)
    requires |pdu.obfuscated| == 6 && k < |keys|
  {
    forall i | 0 <= i < k :: keys[i].nid == pdu.nid ==>
      Decrypt(c, keys[i], pdu, ivIndex).Err? && Decrypt(c, keys[i], pdu, ivIndex).error != Panic
  }

  lemma {:induction false} FoundByKey(c: Crypto, keys: seq<NetworkKey>, k: nat, pdu: NetworkPdu, ivIndex: u32)
    requires |pdu.obfuscated| == 6 && k < |keys| && keys[k].nid == pdu.nid && OpensFirst(c, keys, k, pdu, ivIndex)
    requires Decrypt(c, keys[k], pdu, ivIndex).Ok?
    ensures TryKeys(c, keys, pdu, ivIndex) == Ok(Some(Decrypt(c, keys[k], pdu, ivIndex).value))
  {
    if k > 0 {
      var rest := keys[1..];
      assert rest[k - 1] == keys[k];
      forall i | 0 <= i < k - 1 ensures rest[i].nid == pdu.nid ==>
        Decrypt(c, rest[i], pdu, ivIndex).Err? && Decrypt(c, rest[i], pdu, ivIndex).error != Panic
      {
        assert rest[i] == keys[i + 1];
      }
      FoundByKey(c, rest, k - 1, pdu, ivIndex);
    }
  }

  // A PDU is for nobody exactly when it fails to decrypt under every key of its NID, without a panic.
  lemma {:induction false} ForNobody(c: Crypto, keys: seq<NetworkKey>, pdu: NetworkPdu, ivIndex: u32)
    requires |pdu.obfuscated| == 6
    ensures TryKeys(c, keys, pdu, ivIndex) == Ok(None) <==>
      forall k | k in keys && k.nid == pdu.nid ::
        Decrypt(c, k, pdu, ivIndex).Err? && Decrypt(c, k, pdu, ivIndex).error != Panic
  {
    if keys != [] {
      ForNobody(c, keys[1..], pdu, ivIndex);
      assert forall k :: k in keys <==> k == keys[0] || k in keys[1..];
    }
  }
}
