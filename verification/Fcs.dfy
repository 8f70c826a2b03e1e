/** The frame check sequence of a provisioning transaction: a table-driven eight-bit CRC. */
module Fcs {
  import opened Mesh

  // Sixteen entries of the table, packed into one word: those of the octets 16*h .. 16*h + 15.
  function Row(h: bv4): bv128 {
    if h == 0 then 0x0091E372_0796E475_0E9FED7C_0998EA7B
    else if h == 1 then 0x1C8DFF6E_1B8AF869_1283F160_1584F667
    else if h == 2 then 0x38A9DB4A_3FAEDC4D_36A7D544_31A0D243
    else if h == 3 then 0x24B5C756_23B2C051_2ABBC958_2DBCCE5F
    else if h == 4 then 0x70E19302_77E69405_7EEF9D0C_79E89A0B
    else if h == 5 then 0x6CFD8F1E_6BFA8819_62F38110_65F48617
    else if h == 6 then 0x48D9AB3A_4FDEAC3D_46D7A534_41D0A233
    else if h == 7 then 0x54C5B726_53C2B021_5ACBB928_5DCCBE2F
    else if h == 8 then 0xE0710392_E7760495_EE7F0D9C_E9780A9B
    else if h == 9 then 0xFC6D1F8E_FB6A1889_F2631180_F5641687
    else if h == 10 then 0xD8493BAA_DF4E3CAD_D64735A4_D14032A3
    else if h == 11 then 0xC45527B6_C35220B1_CA5B29B8_CD5C2EBF
    else if h == 12 then 0x900173E2_970674E5_9E0F7DEC_99087AEB
    else if h == 13 then 0x8C1D6FFE_8B1A68F9_821361F0_851466F7
    else if h == 14 then 0xA8394BDA_AF3E4CDD_A63745D4_A13042D3
    else 0xB42557C6_B32250C1_BA2B59C8_BD2C5ECF
  }

  function Table(octet: byte): byte {
    ((Row((octet >> 4) as bv4) >> (((15 - (octet & 0x0F)) as bv128) << 3)) & 0xFF) as byte
  }

  // One bit of the reflected CRC with polynomial x^8 + x^2 + x + 1.
  function Bit(x: byte): byte {
    if x & 1 != 0 then (x >> 1) ^ 0xE0 else x >> 1
  }

  function Bits(x: byte, n: nat): byte
    decreases n
  {
    if n == 0 then x else Bits(Bit(x), n - 1)
  }

  // An octet is shifted into the register bit by bit.
  function ShiftIn(register: byte, octet: byte): byte { Bits(register ^ octet, 8) }

  lemma TableIsBitwise(register: byte, octet: byte)
    ensures Table(register ^ octet) == ShiftIn(register, octet)
  {
    EntryIsBitwise(register ^ octet);
    EightSteps(register ^ octet);
  }

  lemma EntryIsBitwise(x: byte)
    ensures Table(x) == Bit(Bit(Bit(Bit(Bit(Bit(Bit(Bit(x))))))))
  {
  }

  lemma EightSteps(x: byte)
    ensures Bits(x, 8) == Bit(Bit(Bit(Bit(Bit(Bit(Bit(Bit(x))))))))
  {
    var (x2, x4) := (Bit(Bit(x)), Bit(Bit(Bit(Bit(x)))));
    var (x6, x8) := (Bit(Bit(x4)), Bit(Bit(Bit(Bit(x4)))));
    assert Bits(x6, 2) == Bits(Bit(x6), 1) == Bits(x8, 0);
    assert Bits(x4, 4) == Bits(Bit(x4), 3) == Bits(x6, 2);
    assert Bits(x2, 6) == Bits(Bit(x2), 5) == Bits(x4, 4);
    assert Bits(x, 8) == Bits(Bit(x), 7) == Bits(x2, 6);
  }

  // The specification: shift in one octet after the other, bit by bit, least significant bit first.
  function Register(start: byte, data: bytes): byte {
    if data == [] then start else ShiftIn(Register(start, Front(data)), Last(data))
  }

  function Of(data: bytes): byte { 0xFF - Register(0xFF, data) }

  // The table loop computes the bit-by-bit CRC.
  method Compute(data: bytes) returns (fcs: byte)
    ensures fcs == Of(data)
  {
    var register: byte := 0xFF;
    for i := 0 to |data|
      invariant register == Register(0xFF, data[..i])
    {
      TableIsBitwise(register, data[i]);
      assert Front(data[..i + 1]) == data[..i];
      register := Table(register ^ data[i]);
    }
    assert data[..|data|] == data;
    return 0xFF - register;
  }

  lemma BitInjective(x: byte, y: byte)
    requires Bit(x) == Bit(y)
    ensures x == y
  {
  }

  lemma {:induction false} BitsInjective(x: byte, y: byte, n: nat)
    ensures Bits(x, n) == Bits(y, n) ==> x == y
    decreases n
  {
    if n > 0 && Bits(x, n) == Bits(y, n) {
      BitsInjective(Bit(x), Bit(y), n - 1);
      BitInjective(x, y);
    }
  }

  // One step of the register tells octets apart, and keeps different registers different.
  lemma ShiftInInjective(r: byte, s: byte, x: byte, y: byte)
    ensures ShiftIn(r, x) == ShiftIn(r, y) ==> x == y
    ensures ShiftIn(r, x) == ShiftIn(s, x) ==> r == s
  {
    BitsInjective(r ^ x, r ^ y, 8);
    BitsInjective(r ^ x, s ^ x, 8);
    XorCancels(r, x, y);
    XorCancels(x, r, s);
  }

  lemma XorCancels(a: byte, x: byte, y: byte)
    ensures a ^ x == a ^ y ==> x == y
    ensures x ^ a == y ^ a ==> x == y
  {
  }

  // Sequences that differ in exactly one octet have different check sequences; and from there on
  // equal octets never make the registers meet again.
  lemma {:induction false} OneOctetDetected(a: bytes, b: bytes, k: nat)
    requires |a| == |b| && k < |a| && a[k] != b[k]
    requires forall i | 0 <= i < |a| && i != k :: a[i] == b[i]
    ensures Of(a) != Of(b)
  {
    RegistersDiffer(a, b, k);
    Complement(Register(0xFF, a), Register(0xFF, b));
  }

  lemma Complement(x: byte, y: byte)
    ensures 0xFF - x == 0xFF - y <==> x == y
  {
  }

  lemma {:induction false} RegistersDiffer(a: bytes, b: bytes, k: nat)
    requires |a| == |b| && k < |a| && a[k] != b[k]
    requires forall i | 0 <= i < |a| && i != k :: a[i] == b[i]
    ensures Register(0xFF, a) != Register(0xFF, b)
  {
    ShiftInInjective(Register(0xFF, Front(a)), Register(0xFF, Front(b)), Last(a), Last(b));
    if k == |a| - 1 {
      assert Front(a) == Front(b);
    } else {
      RegistersDiffer(Front(a), Front(b), k);
    }
  }

  // ---------------------------------------------------------------- what the check sequence is for

  lemma ComplementIsXor(r: byte)
    ensures r ^ (0xFF - r) == 0xFF
  {
  }

  lemma Residue()
    ensures Bits(0xFF, 8) == 0xCF
  {
    EightSteps(0xFF);
    EntryIsBitwise(0xFF);
  }

  // A receiver that runs octets and check sequence through the same register, started with all ones,
  // always ends with the same residue; and no other check sequence does.
  lemma ReceiverCheck(data: bytes, fcs: byte)
    ensures Register(0xFF, data + [fcs]) == 0xCF <==> fcs == Of(data)
  {
    var r := Register(0xFF, data);
    assert Front(data + [fcs]) == data && Last(data + [fcs]) == fcs;
    ComplementIsXor(r);
    Residue();
    ShiftInInjective(r, r, fcs, Of(data));
  }
}
