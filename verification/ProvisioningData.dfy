/** The data a provisioner hands out, and its 25 octets. */
module ProvisioningData {
  import opened Wrappers
  import opened Mesh
  import opened Octets

  type Key = k: bytes | |k| == 16 witness seq(16, _ => 0)

  datatype Data = Data(networkKey: Key, keyRefresh: bool, ivUpdateInProgress: bool, ivIndex: u32, unicastAddress: u16)

  function Flags(keyRefresh: bool, ivUpdateInProgress: bool): byte {
    (if keyRefresh then 0x01 else 0) | (if ivUpdateInProgress then 0x02 else 0)
  }

  // The key index is not carried: its two octets are zero.
  function Emit(d: Data): (octets: bytes)
    ensures |octets| == 25
  {
    d.networkKey + [0, 0] + [Flags(d.keyRefresh, d.ivUpdateInProgress)] + U32(d.ivIndex) + U16(d.unicastAddress)
  }

  function Parse(octets: bytes): Result<Data, ParseError> {
    if |octets| < 25 then Err(InvalidLength)
    else if octets[23] & 0x80 != 0 then Err(InvalidValue)
    else Ok(Data(octets[0..16], octets[18] & 0x01 != 0, octets[18] & 0x02 != 0,
                 ToU32(octets[19], octets[20], octets[21], octets[22]), ToU16(octets[23], octets[24])))
  }

  lemma FlagsBack(keyRefresh: bool, ivUpdateInProgress: bool)
    ensures Flags(keyRefresh, ivUpdateInProgress) & 0x01 != 0 <==> keyRefresh
    ensures Flags(keyRefresh, ivUpdateInProgress) & 0x02 != 0 <==> ivUpdateInProgress
  {
  }

  lemma Layout(key: Key, flags: byte, iv: bytes, address: bytes)
    requires |iv| == 4 && |address| == 2
    ensures var e := key + [0, 0] + [flags] + iv + address;
      && e[0..16] == key && e[18] == flags && e[19] == iv[0] && e[20] == iv[1] && e[21] == iv[2] && e[22] == iv[3]
      && e[23] == address[0] && e[24] == address[1]
  {
  }

  // What is parsed is what was emitted, exactly when the address is a unicast address.
  lemma RoundTrip(d: Data)
    ensures Parse(Emit(d)) == Ok(d) <==> d.unicastAddress < 0x8000
    ensures Parse(Emit(d)).Ok? ==> d.unicastAddress < 0x8000
  {
    Layout(d.networkKey, Flags(d.keyRefresh, d.ivUpdateInProgress), U32(d.ivIndex), U16(d.unicastAddress));
    FlagsBack(d.keyRefresh, d.ivUpdateInProgress);
    U32RoundTrip(d.ivIndex);
    U16RoundTrip(d.unicastAddress);
    HighBit(d.unicastAddress);
  }

  // What is read: the key, two of the flags, the index and the address, in their places; and what is not.
  lemma ParsedData(octets: bytes)
    ensures Parse(octets).Ok? <==> |octets| >= 25 && octets[23] < 0x80
    ensures Parse(octets).Err? ==> Parse(octets).error == if |octets| < 25 then InvalidLength else InvalidValue
    ensures Parse(octets).Ok? ==> var d := Parse(octets).value;
      && d.networkKey == octets[..16] && (d.keyRefresh <==> octets[18] % 2 == 1)
      && (d.ivUpdateInProgress <==> octets[18] / 2 % 2 == 1)
      && d.ivIndex == ToU32(octets[19], octets[20], octets[21], octets[22])
      && d.unicastAddress == Number(octets[23]) * 0x100 + Number(octets[24])
  {
    if |octets| >= 25 {
      TopBit(octets[23]);
      FlagBits(octets[18]);
    }
  }

  lemma TopBit(b: byte)
    ensures b & 0x80 != 0 <==> b >= 0x80
  {
  }

  lemma FlagBits(b: byte)
    ensures b & 0x01 != 0 <==> b % 2 == 1
    ensures b & 0x02 != 0 <==> b / 2 % 2 == 1
  {
  }
}
