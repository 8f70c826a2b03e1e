/** Control PDUs of the lower transport layer, which the node receives but does not send. */
module LowerControl {
  import opened Wrappers
  import opened Mesh
  import opened Octets
  import opened InboundSegmentation
  import opened LowerAccess

  const CONTROL_SEGMENT_SIZE: nat := 8
  const HEARTBEAT: byte := 0x0A

  function ParseOpcode(octet: byte): Result<byte, DriverError> {
    if octet & 0x7F <= HEARTBEAT then Ok(octet & 0x7F) else Err(DriverError.Parse(InvalidValue))
  }

  // The opcode is read before the rest of the header, which may be missing.
  function ParseSegment(data: bytes, meta: Meta): Result<SegmentedPdu, DriverError>
    requires data != []
  {
    match ParseOpcode(data[0])
    case Err(e) => Err(e)
    case Ok(opcode) =>
      if |data| < 4 then Err(Panic)
      else if |data| > 4 + CONTROL_SEGMENT_SIZE then Err(DriverError.Parse(InsufficientBuffer))
      else
        Ok(SegmentedPdu(Control(opcode), None, ParseZero(data[1], data[2]), ParseSegO(data[2], data[3]) as nat,
                        ParseSegN(data[3]) as nat, data[4..], meta))
  }

  // ---------------------------------------------------------------- the header in numbers

  lemma Quarters(b: byte)
    ensures Number(b) == 4 * Number(b >> 2) + Number(b & 3) && Number(b & 3) < 4
  {
  }

  lemma Eighths(b: byte)
    ensures Number(b) == 0x20 * Number(b >> 5) + Number(b & 0x1F) && Number(b & 0x1F) < 0x20
  {
  }

  lemma Division(x: nat, k: nat, q: nat, r: nat)
    requires (k == 4 || k == 0x20 || k == 0x80) && x == k * q + r && r < k
    ensures x / k == q && x % k == r
  {
  }

  lemma Sevens(b: byte)
    ensures Number(b & 0x7F) == Number(b) % 0x80
  {
    OctetBits(b);
  }

  lemma ReadZero(b: byte, c: byte)
    ensures ParseZero(b, c) == Word((b & 0x7F) >> 2, ((b & 3) << 6) | (c >> 2))
    ensures (b & 0x7F) & 3 == b & 3
  {
  }

  lemma LowOfZero(b: byte, c: byte)
    ensures Number(((b & 3) << 6) | (c >> 2)) == 0x40 * Number(b & 3) + Number(c >> 2)
  {
  }

  lemma SevenAndSix(x: nat, high: nat, two: nat, six: nat)
    requires x == 4 * high + two
    ensures 0x100 * high + (0x40 * two + six) == 0x40 * x + six
  {
  }

  lemma ZeroInNumbers(b: byte, c: byte)
    ensures ParseZero(b, c) as nat == 0x40 * (Number(b) % 0x80) + Number(c) / 4
  {
    ReadZero(b, c);
    var (high, low) := ((b & 0x7F) >> 2, ((b & 3) << 6) | (c >> 2));
    WordIsNumber(high, low);
    LowOfZero(b, c);
    Quarters(b & 0x7F);
    Quarters(c);
    Division(Number(c), 4, Number(c >> 2), Number(c & 3));
    Sevens(b);
    SevenAndSix(Number(b & 0x7F), Number(high), Number(b & 3), Number(c >> 2));
  }

  lemma ReadOffset(c: byte, d: byte)
    ensures ParseSegO(c, d) == ((c & 3) << 3) | (d >> 5)
  {
  }

  lemma OffsetParts(c: byte, d: byte)
    ensures Number(((c & 3) << 3) | (d >> 5)) == 8 * Number(c & 3) + Number(d >> 5)
  {
  }

  lemma OffsetInNumbers(c: byte, d: byte)
    ensures Number(ParseSegO(c, d)) == 8 * (Number(c) % 4) + Number(d) / 0x20
    ensures Number(ParseSegN(d)) == Number(d) % 0x20
  {
    ReadOffset(c, d);
    OffsetParts(c, d);
    Quarters(c);
    Division(Number(c), 4, Number(c >> 2), Number(c & 3));
    Eighths(d);
    Division(Number(d), 0x20, Number(d >> 5), Number(d & 0x1F));
  }

  // Which octets are a segment of a control PDU, and what is read from them, in numbers: the opcode, of
  // eleven, thirteen bits of sequence-zero, five of the offset and five of the last offset.
  lemma SegmentOctets(data: bytes, meta: Meta)
    requires data != []
    ensures var (r, known) := (ParseSegment(data, meta), Number(data[0]) % 0x80 <= 10);
      && (r.Ok? <==> known && 4 <= |data| <= 12)
      && (r == Err(DriverError.Parse(InvalidValue)) <==> !known)
      && (r == Err(Panic) <==> known && |data| < 4)
      && (r == Err(DriverError.Parse(InsufficientBuffer)) <==> known && |data| > 12)
      && (r.Ok? ==>
          && r.value.kind.Control? && Number(r.value.kind.opcode) == Number(data[0]) % 0x80
          && r.value.aid == None && r.value.meta == meta && r.value.segmentM == data[4..]
          && r.value.seqZero as nat == 0x40 * (Number(data[1]) % 0x80) + Number(data[2]) / 4
          && r.value.segO == 8 * (Number(data[2]) % 4) + Number(data[3]) / 0x20
          && r.value.segN == Number(data[3]) % 0x20)
  {
    OctetBits(data[0]);
    AtMostTen(data[0] & 0x7F);
    if |data| >= 4 {
      ZeroInNumbers(data[1], data[2]);
      OffsetInNumbers(data[2], data[3]);
    }
  }

  lemma AtMostTen(b: byte)
    ensures b <= 0x0A <==> Number(b) <= 10
  {
  }
}
