/** The segmented access header of the lower transport layer. */
module LowerAccess {
  import opened Wrappers
  import opened Mesh
  import opened Octets

  // A segmented lower access PDU, as built by the sender or returned by the parser.
  datatype Segment = Segment(aid: Option<byte>, szmic: SzMic, seqZero: bv16, segO: byte, segN: byte, segmentM: bytes)

  const SEGMENT_SIZE: nat := 12

  function EmitAid(aid: Option<byte>): byte {
    match aid
    case None => 0
    case Some(a) => 0x40 | (a & 0x3F)
  }

  function ParseAid(octet: byte): Option<byte> {
    if octet & 0x40 != 0 then Some(octet & 0x3F) else None
  }

  // The octets of a header whose third octet carries `high` below the sequence-zero: the place of the
  // high bits of the offset.
  function EmitWith(s: Segment, high: byte): bytes {
    [0x80 | EmitAid(s.aid), ZeroHigh(s.szmic, s.seqZero), ZeroLow(s.seqZero) | high, OffsetAndN(s.segO, s.segN)] + s.segmentM
  }

  function ZeroHigh(szmic: SzMic, seqZero: bv16): byte {
    if szmic.Bit64? then 0x80 | (((seqZero & 0x1FC0) >> 6) as byte) else ((seqZero & 0x1FC0) >> 6) as byte
  }

  function ZeroLow(seqZero: bv16): byte { ((seqZero & 0x3F) << 2) as byte }

  function OffsetAndN(segO: byte, segN: byte): byte { ((segO & 0x07) << 5) | (segN & 0x1F) }

  // Bits 3 and 4 of SegO are shifted right by two, so they land one bit too high.
  function HighBits(segO: byte): byte { (segO & 0x18) >> 2 }

  function Emit(s: Segment): bytes { EmitWith(s, HighBits(s.segO)) }

  function ParseZero(b: byte, c: byte): bv16 { (((b & 0x7F) as bv16 << 8) | ((c & 0xFC) as bv16)) >> 2 }

  function ParseSegO(c: byte, d: byte): (o: byte)
    ensures o < 32
  {
    ((((c & 0x03) as bv16 << 8) | ((d & 0xE0) as bv16)) >> 5) as byte
  }

  function ParseSegN(d: byte): (n: byte)
    ensures n < 32
  {
    d & 0x1F
  }

  function Parse(data: bytes): (r: Result<Segment, DriverError>)
    ensures r.Ok? ==> r.value.segO < 32 && r.value.segN < 32
  {
    if |data| < 4 then Err(Panic)
    else if |data| > 4 + SEGMENT_SIZE then Err(DriverError.Parse(InsufficientBuffer))
    else
      Ok(Segment(ParseAid(data[0]), if data[1] & 0x80 != 0 then Bit64 else Bit32, ParseZero(data[1], data[2]),
                 ParseSegO(data[2], data[3]), ParseSegN(data[3]), data[4..]))
  }

  // What the receiver reads for the offset and the sequence-zero, given the high bits of the third octet.
  function ReadSegO(segO: byte, high: byte): byte { (segO & 0x07) | ((high & 0x03) << 3) }

  function ReadSeqZero(seqZero: bv16, high: byte): bv16 {
    (seqZero & 0x1FFF) | (if high & 0x04 != 0 then 1 else 0)
  }

  function Read(s: Segment, high: byte): Segment {
    s.(aid := if s.aid.Some? then Some(s.aid.value & 0x3F) else None,
       seqZero := ReadSeqZero(s.seqZero, high), segO := ReadSegO(s.segO, high), segN := s.segN & 0x1F)
  }

  function ReceivedSegO(segO: byte): byte { ReadSegO(segO, HighBits(segO)) }

  function ReceivedSeqZero(seqZero: bv16, segO: byte): bv16 { ReadSeqZero(seqZero, HighBits(segO)) }

  function Received(s: Segment): Segment { Read(s, HighBits(s.segO)) }

  // The parser puts thirteen bits of sequence-zero together from seven and six.
  function Join(hi: byte, lo: byte): bv16 { ((hi as bv16) << 6) | ((lo as bv16) >> 2) }

  lemma ParseJoins(hi: byte, lo: byte, high: byte)
    requires hi < 0x80 && lo & 3 == 0 && high < 8
    ensures ParseZero(hi, lo | high) == Join(hi, lo) | (if high & 0x04 != 0 then 1 else 0)
    ensures ParseZero(0x80 | hi, lo | high) == ParseZero(hi, lo | high)
    ensures hi & 0x80 == 0 && (0x80 | hi) & 0x80 != 0
  {
  }

  lemma JoinOfHalves(z: bv16)
    ensures var (hi, lo) := (((z & 0x1FC0) >> 6) as byte, ((z & 0x3F) << 2) as byte);
      hi < 0x80 && lo & 3 == 0 && Join(hi, lo) == z & 0x1FFF
  {
  }

  lemma ZeroBack(szmic: SzMic, z: bv16, high: byte)
    requires high < 8
    ensures ParseZero(ZeroHigh(szmic, z), ZeroLow(z) | high) == ReadSeqZero(z, high)
    ensures ZeroHigh(szmic, z) & 0x80 != 0 <==> szmic.Bit64?
  {
    JoinOfHalves(z);
    ParseJoins(((z & 0x1FC0) >> 6) as byte, ZeroLow(z), high);
  }

  lemma OffsetBack(z: bv16, high: byte, o: byte, n: byte)
    requires high < 8
    ensures ParseSegO(ZeroLow(z) | high, OffsetAndN(o, n)) == ReadSegO(o, high)
    ensures ParseSegN(OffsetAndN(o, n)) == n & 0x1F
  {
  }

  lemma AidBack(aid: Option<byte>)
    ensures ParseAid(0x80 | EmitAid(aid)) == if aid.Some? then Some(aid.value & 0x3F) else None
    ensures (0x80 | EmitAid(aid)) & 0x80 != 0
  {
  }

  // What the parser reads from each of the four header octets.
  predicate Reads(r: Segment, a: byte, b: byte, c: byte, d: byte) {
    && ParseAid(a) == r.aid && (b & 0x80 != 0 <==> r.szmic.Bit64?) && ParseZero(b, c) == r.seqZero
    && ParseSegO(c, d) == r.segO && ParseSegN(d) == r.segN
  }

  lemma ParseOfOctets(r: Segment, a: byte, b: byte, c: byte, d: byte)
    requires |r.segmentM| <= SEGMENT_SIZE && Reads(r, a, b, c, d)
    ensures Parse([a, b, c, d] + r.segmentM) == Ok(r)
  {
    var data := [a, b, c, d] + r.segmentM;
    assert data[0] == a && data[1] == b && data[2] == c && data[3] == d && data[4..] == r.segmentM;
  }

  lemma OctetsBack(s: Segment, high: byte)
    requires high < 8
    ensures Reads(Read(s, high), 0x80 | EmitAid(s.aid), ZeroHigh(s.szmic, s.seqZero), ZeroLow(s.seqZero) | high,
                  OffsetAndN(s.segO, s.segN))
  {
    ZeroBack(s.szmic, s.seqZero, high);
    OffsetBack(s.seqZero, high, s.segO, s.segN);
    AidBack(s.aid);
  }

  // The header as the receiver sees it, for every segment that fits.
  lemma ParseOfEmitWith(s: Segment, high: byte)
    requires |s.segmentM| <= SEGMENT_SIZE && high < 8
    ensures Parse(EmitWith(s, high)) == Ok(Read(s, high))
  {
    OctetsBack(s, high);
    ParseOfOctets(Read(s, high), 0x80 | EmitAid(s.aid), ZeroHigh(s.szmic, s.seqZero), ZeroLow(s.seqZero) | high,
                  OffsetAndN(s.segO, s.segN));
  }

  lemma ParseOfEmit(s: Segment)
    requires |s.segmentM| <= SEGMENT_SIZE
    ensures Parse(Emit(s)) == Ok(Received(s))
  {
    HighBitsBound(s.segO);
    ParseOfEmitWith(s, HighBits(s.segO));
  }

  lemma HighBitsBound(segO: byte)
    ensures HighBits(segO) < 8
  {
  }

  lemma Widths(s: Segment)
    ensures Received(s) == s <==>
            && s.segO < 8 && s.segN < 32 && s.seqZero < 0x2000
            && (s.aid.Some? ==> s.aid.value < 64)
  {
  }

  // The header survives the trip exactly when every field fits its width AND the offset is below
  // eight: a ninth segment is never read back as the ninth.
  lemma HeaderRoundTrip(s: Segment)
    requires |s.segmentM| <= SEGMENT_SIZE
    ensures Parse(Emit(s)) == Ok(s) <==>
            && s.segO < 8 && s.segN < 32 && s.seqZero < 0x2000
            && (s.aid.Some? ==> s.aid.value < 64)
  {
    ParseOfEmit(s);
    Widths(s);
  }

  // Offsets 8..15 and 24..31 are never read by any receiver.
  lemma NeverReceived(segO: byte)
    ensures ReceivedSegO(segO) < 8 || 16 <= ReceivedSegO(segO) < 24
  {
  }

  // ---------------------------------------------------------------- the header in numbers

  lemma ZeroOctets(z: bv16)
    ensures (z & 0x1FFF) as nat == 0x40 * (((z & 0x1FFF) >> 6) as nat) + (z & 0x3F) as nat
    ensures (z & 0x1FFF) >> 6 == (((z & 0x1FC0) >> 6) as byte) as bv16 && z & 0x3F == ((z & 0x3F) as byte) as bv16
    ensures ((z & 0x1FC0) >> 6) as byte < 0x80 && (z & 0x3F) as byte < 0x40
    ensures ((z & 0x3F) << 2) as byte == ((z & 0x3F) as byte) << 2
  {
  }

  lemma FourTimes(b: byte)
    requires b < 0x40
    ensures Number(b << 2) == 4 * Number(b) && Number(b) < 0x40
  {
  }

  lemma SetHighest(b: byte)
    requires b < 0x80
    ensures Number(0x80 | b) == 0x80 + Number(b)
  {
  }

  lemma OffsetAndNumber(o: byte, n: byte)
    requires o < 8 && n < 32
    ensures Number(OffsetAndN(o, n)) == 32 * Number(o) + Number(n)
  {
  }

  lemma KeyBits(aid: Option<byte>)
    requires aid.Some? ==> aid.value < 0x40
    ensures 0x80 | EmitAid(aid) == if aid.Some? then 0xC0 + aid.value else 0x80
  {
  }

  lemma Digits(x: nat, h: nat, l: nat)
    requires x == 0x40 * h + l && l < 0x40
    ensures h == x / 0x40 && l == x % 0x40
  {
  }

  lemma ZeroInOctets(z: bv16, h: byte, l: byte)
    requires h == ((z & 0x1FC0) >> 6) as byte && l == (z & 0x3F) as byte
    ensures Number(h) == z as nat % 0x2000 / 0x40 && Number(l) == z as nat % 0x2000 % 0x40 && h < 0x80 && l < 0x40
  {
    ZeroOctets(z);
    LowBits(z);
    Widened(h);
    Widened(l);
    FourTimes(l);
    Digits(z as nat % 0x2000, Number(h), Number(l));
  }

  lemma SecondOctet(szmic: SzMic, z: bv16, h: byte)
    requires h == ((z & 0x1FC0) >> 6) as byte
    ensures Number(ZeroHigh(szmic, z)) == (if szmic.Bit64? then 0x80 else 0) + z as nat % 0x2000 / 0x40
  {
    ZeroInOctets(z, h, (z & 0x3F) as byte);
    SetHighest(h);
  }

  lemma ThirdOctet(z: bv16, l: byte)
    requires l == (z & 0x3F) as byte
    ensures Number(ZeroLow(z)) == 4 * (z as nat % 0x2000 % 0x40)
  {
    ZeroInOctets(z, ((z & 0x1FC0) >> 6) as byte, l);
    ZeroOctets(z);
    FourTimes(l);
  }

  lemma Behind(a: byte, b: byte, c: byte, d: byte, rest: bytes)
    ensures var e := [a, b, c, d] + rest;
      |e| == 4 + |rest| && e[0] == a && e[1] == b && e[2] == c && e[3] == d && e[4..] == rest
  {
  }

  predicate OctetsOf(s: Segment, a: byte, b: byte, c: byte, d: byte, zero: nat) {
    && a == (if s.aid.Some? then 0xC0 + s.aid.value else 0x80)
    && Number(b) == (if s.szmic.Bit64? then 0x80 else 0) + zero / 0x40
    && Number(c) == 4 * (zero % 0x40)
    && Number(d) == 32 * Number(s.segO) + Number(s.segN)
  }

  lemma WrittenOctets(s: Segment, c: byte)
    requires s.segO < 8 && s.segN < 32 && (s.aid.Some? ==> s.aid.value < 0x40) && c == ZeroLow(s.seqZero)
    ensures OctetsOf(s, 0x80 | EmitAid(s.aid), ZeroHigh(s.szmic, s.seqZero), c, OffsetAndN(s.segO, s.segN),
                     s.seqZero as nat % 0x2000)
  {
    KeyBits(s.aid);
    SecondOctet(s.szmic, s.seqZero, ((s.seqZero & 0x1FC0) >> 6) as byte);
    ThirdOctet(s.seqZero, (s.seqZero & 0x3F) as byte);
    OffsetAndNumber(s.segO, s.segN);
  }

  // The four octets of the header of one of the first eight segments: a set bit with the key's, the size
  // of the MIC with the high seven of thirteen bits of sequence-zero, its low six bits, and offset and
  // last segment.
  lemma HeaderOctets(s: Segment)
    requires s.segO < 8 && s.segN < 32 && (s.aid.Some? ==> s.aid.value < 0x40)
    ensures var e := Emit(s);
      && |e| == 4 + |s.segmentM| && e[4..] == s.segmentM
      && OctetsOf(s, e[0], e[1], e[2], e[3], s.seqZero as nat % 0x2000)
  {
    NoHighBits(s.segO, ZeroLow(s.seqZero));
    WrittenOctets(s, ZeroLow(s.seqZero));
    Behind(0x80 | EmitAid(s.aid), ZeroHigh(s.szmic, s.seqZero), ZeroLow(s.seqZero), OffsetAndN(s.segO, s.segN), s.segmentM);
  }

  lemma NoHighBits(o: byte, low: byte)
    requires o < 8
    ensures low | HighBits(o) == low
  {
  }

  // What is no header: fewer than four octets make the parser panic, more than sixteen are refused.
  lemma ParseLimits(data: bytes)
    ensures Parse(data) == Err(Panic) <==> |data| < 4
    ensures Parse(data) == Err(DriverError.Parse(InsufficientBuffer)) <==> |data| > 16
    ensures Parse(data).Ok? <==> 4 <= |data| <= 16
  {
  }
}
