/** The nonces of the network and the device-key layers, and the IV index they contain. */
module Nonce {
  import opened Mesh
  import opened Octets

  function NetworkNonce(ctlTtl: byte, seqNum: u32, src: u16, ivIndex: u32): bytes {
    [0x00, ctlTtl] + U24(seqNum) + U16(src) + [0, 0] + U32(ivIndex)
  }

  function DeviceNonce(szmic: SzMic, seqNum: u32, src: u16, dst: u16, ivIndex: u32): bytes {
    [0x02, if szmic.Bit64? then 0x80 else 0x00] + U24(seqNum) + U16(src) + U16(dst) + U32(ivIndex)
  }

  // Two network nonces are equal exactly when their fields are, of the number only 24 bits.
  lemma NetworkNoncesEqual(c1: byte, q1: u32, s1: u16, i1: u32, c2: byte, q2: u32, s2: u16, i2: u32)
    ensures NetworkNonce(c1, q1, s1, i1) == NetworkNonce(c2, q2, s2, i2) <==>
            c1 == c2 && q1 % 0x100_0000 == q2 % 0x100_0000 && s1 == s2 && i1 == i2
  {
    var (a, b) := (NetworkNonce(c1, q1, s1, i1), NetworkNonce(c2, q2, s2, i2));
    U24Equal(q1, q2);
    if a == b {
      assert a[2..5] == U24(q1) && b[2..5] == U24(q2);
      assert a[5..7] == U16(s1) && b[5..7] == U16(s2);
      assert a[9..] == U32(i1) && b[9..] == U32(i2);
      assert a[1] == c1 && b[1] == c2;
      U16Injective(s1, s2);
      U32Injective(i1, i2);
    }
  }

  lemma DeviceNoncesEqual(z1: SzMic, q1: u32, s1: u16, d1: u16, i1: u32, z2: SzMic, q2: u32, s2: u16, d2: u16, i2: u32)
    ensures DeviceNonce(z1, q1, s1, d1, i1) == DeviceNonce(z2, q2, s2, d2, i2) <==>
            z1 == z2 && q1 % 0x100_0000 == q2 % 0x100_0000 && s1 == s2 && d1 == d2 && i1 == i2
  {
    var (a, b) := (DeviceNonce(z1, q1, s1, d1, i1), DeviceNonce(z2, q2, s2, d2, i2));
    U24Equal(q1, q2);
    if a == b {
      assert a[2..5] == U24(q1) && b[2..5] == U24(q2);
      assert a[5..7] == U16(s1) && b[5..7] == U16(s2);
      assert a[7..9] == U16(d1) && b[7..9] == U16(d2);
      assert a[9..] == U32(i1) && b[9..] == U32(i2);
      assert a[1] == (if z1.Bit64? then 0x80 else 0x00) && b[1] == (if z2.Bit64? then 0x80 else 0x00);
      U16Injective(s1, s2);
      U16Injective(d1, d2);
      U32Injective(i1, i2);
    }
  }

  // The nonce type keeps the two kinds apart.
  lemma KindsDiffer(c: byte, q1: u32, s1: u16, i1: u32, z: SzMic, q2: u32, s2: u16, d2: u16, i2: u32)
    ensures NetworkNonce(c, q1, s1, i1) != DeviceNonce(z, q2, s2, d2, i2)
  {
    assert NetworkNonce(c, q1, s1, i1)[0] == 0x00 && DeviceNonce(z, q2, s2, d2, i2)[0] == 0x02;
  }

  // ---------------------------------------------------------------- the IV index

  // The bit of the index that a network PDU carries.
  function Ivi(ivIndex: u32): nat { ivIndex % 2 }

  // One less, but never down to zero: an index of one stays one.
  function Previous(ivIndex: u32): u32 { if ivIndex > 1 then ivIndex - 1 else ivIndex }

  function Accepted(own: u32, ivi: nat): u32 { if Ivi(own) == ivi then own else Previous(own) }

  function Transmission(own: u32, updateInProgress: bool): u32 { if updateInProgress then Previous(own) else own }

  // A receiver rebuilds the index of a sender that is level with it or one behind, unless the receiver
  // is at one and the sender still at zero.
  lemma AcceptedIsSenders(own: u32, sender: u32)
    ensures Accepted(own, Ivi(sender)) == sender <==> own == sender || (own == sender + 1 && own > 1)
  {
  }

  // Outside an update a node sends under its own index, during one under the index before it; an index
  // of one or zero is sent in both.
  lemma TransmittedIndex(own: u32)
    ensures Transmission(own, false) == own
    ensures own > 1 ==> Transmission(own, true) == own - 1
    ensures own <= 1 ==> Transmission(own, true) == own
  {
  }

  // What a node sends is accepted, under the index it was sent with, exactly by nodes of that index or
  // the next: outside an update those level with the sender or one ahead, during one those level with
  // it or one behind.
  lemma TransmittedIsAccepted(sender: u32, updating: bool, receiver: u32)
    requires sender > 1 && receiver > 1
    ensures var sent := Transmission(sender, updating);
      Accepted(receiver, Ivi(sent)) == sent <==>
        if updating then receiver == sender || receiver + 1 == sender else receiver == sender || receiver == sender + 1
  {
    AcceptedIsSenders(receiver, Transmission(sender, updating));
  }

  // ---------------------------------------------------------------- the octets of the nonces

  lemma NetworkNonceOctets(ctlTtl: byte, seqNum: u32, src: u16, ivIndex: u32)
    ensures var n := NetworkNonce(ctlTtl, seqNum, src, ivIndex);
      && |n| == 13 && n[0] == 0x00 && n[1] == ctlTtl && ToU24(n[2], n[3], n[4]) == seqNum % 0x100_0000
      && ToU16(n[5], n[6]) == src && n[7] == 0 && n[8] == 0 && ToU32(n[9], n[10], n[11], n[12]) == ivIndex
  {
    NonceParts([0x00, ctlTtl], U24(seqNum), U16(src), [0, 0], U32(ivIndex));
    U24RoundTrip(seqNum);
    U16RoundTrip(src);
    U32RoundTrip(ivIndex);
  }

  lemma DeviceNonceOctets(szmic: SzMic, seqNum: u32, src: u16, dst: u16, ivIndex: u32)
    ensures var n := DeviceNonce(szmic, seqNum, src, dst, ivIndex);
      && |n| == 13 && n[0] == 0x02 && n[1] == (if szmic.Bit64? then 0x80 else 0x00)
      && ToU24(n[2], n[3], n[4]) == seqNum % 0x100_0000 && ToU16(n[5], n[6]) == src && ToU16(n[7], n[8]) == dst
      && ToU32(n[9], n[10], n[11], n[12]) == ivIndex
  {
    NonceParts([0x02, if szmic.Bit64? then 0x80 else 0x00], U24(seqNum), U16(src), U16(dst), U32(ivIndex));
    U24RoundTrip(seqNum);
    U16RoundTrip(src);
    U16RoundTrip(dst);
    U32RoundTrip(ivIndex);
  }

  lemma NonceParts(kind: bytes, seqNum: bytes, src: bytes, dst: bytes, ivIndex: bytes)
    requires |kind| == 2 && |seqNum| == 3 && |src| == 2 && |dst| == 2 && |ivIndex| == 4
    ensures var n := kind + seqNum + src + dst + ivIndex;
      && |n| == 13 && n[0] == kind[0] && n[1] == kind[1] && n[2] == seqNum[0] && n[3] == seqNum[1] && n[4] == seqNum[2]
      && n[5] == src[0] && n[6] == src[1] && n[7] == dst[0] && n[8] == dst[1]
      && n[9] == ivIndex[0] && n[10] == ivIndex[1] && n[11] == ivIndex[2] && n[12] == ivIndex[3]
  {
  }
}
