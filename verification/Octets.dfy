/** Big-endian octets of the numbers that the network layer carries. */
module Octets {
  import opened Mesh

  function Number(b: byte): u8 { b as nat }

  lemma NumberOfNext(b: byte)
    requires b != 0xFF
    ensures Number(b + 1) == Number(b) + 1
  {
  }

  // The octet with a given number, counted up so that conversions run from octets to numbers only.
  function Octet(n: u8): (b: byte)
    ensures Number(b) == n
  {
    if n == 0 then 0
    else
      assert Octet(n - 1) != 0xFF;
      NumberOfNext(Octet(n - 1));
      Octet(n - 1) + 1
  }

  function U16(x: u16): (o: bytes)
    ensures |o| == 2
  {
    [Octet(x / 0x100), Octet(x % 0x100)]
  }

  // The low three octets of the four.
  function U24(x: u32): (o: bytes)
    ensures |o| == 3
  {
    [Octet(x / 0x1_0000 % 0x100), Octet(x / 0x100 % 0x100), Octet(x % 0x100)]
  }

  function U32(x: u32): (o: bytes)
    ensures |o| == 4
  {
    [Octet(x / 0x100_0000)] + U24(x)
  }

  function ToU16(a: byte, b: byte): u16 { Number(a) * 0x100 + Number(b) }

  function ToU24(a: byte, b: byte, c: byte): u32 { Number(a) * 0x1_0000 + Number(b) * 0x100 + Number(c) }

  function ToU32(a: byte, b: byte, c: byte, d: byte): u32 { Number(a) * 0x100_0000 + ToU24(b, c, d) }

  lemma U16RoundTrip(x: u16)
    ensures ToU16(U16(x)[0], U16(x)[1]) == x
  {
  }

  lemma ThreeDigits(x: u32)
    ensures x / 0x1_0000 % 0x100 * 0x1_0000 + x / 0x100 % 0x100 * 0x100 + x % 0x100 == x % 0x100_0000
  {
    var r := x % 0x100_0000;
    Low(x, r);
    assert r / 0x100 == r / 0x1_0000 * 0x100 + r / 0x100 % 0x100;
  }

  lemma U24RoundTrip(x: u32)
    ensures ToU24(U24(x)[0], U24(x)[1], U24(x)[2]) == x % 0x100_0000
  {
    ThreeDigits(x);
  }

  lemma U16Injective(x: u16, y: u16)
    requires U16(x) == U16(y)
    ensures x == y
  {
    U16RoundTrip(x);
    U16RoundTrip(y);
  }

  lemma U24Equal(x: u32, y: u32)
    ensures U24(x) == U24(y) <==> x % 0x100_0000 == y % 0x100_0000
  {
    U24RoundTrip(x);
    U24RoundTrip(y);
    if x % 0x100_0000 == y % 0x100_0000 {
      LowOctets(x, y);
    }
  }

  lemma LowOctets(x: u32, y: u32)
    requires x % 0x100_0000 == y % 0x100_0000
    ensures x / 0x1_0000 % 0x100 == y / 0x1_0000 % 0x100 && x / 0x100 % 0x100 == y / 0x100 % 0x100 && x % 0x100 == y % 0x100
  {
    var r := x % 0x100_0000;
    Low(x, r);
    Low(y, r);
  }

  lemma Low(x: u32, r: nat)
    requires r == x % 0x100_0000
    ensures x / 0x1_0000 % 0x100 == r / 0x1_0000 && x / 0x100 % 0x100 == r / 0x100 % 0x100 && x % 0x100 == r % 0x100
  {
    HighOfLow(x / 0x100_0000, r);
    MiddleOfLow(x / 0x100_0000, r);
    LastOfLow(x / 0x100_0000, r);
  }

  lemma HighOfLow(q: nat, r: nat)
    requires r < 0x100_0000
    ensures (q * 0x100_0000 + r) / 0x1_0000 % 0x100 == r / 0x1_0000
  {
    assert (q * 0x100_0000 + r) / 0x1_0000 == q * 0x100 + r / 0x1_0000;
  }

  lemma MiddleOfLow(q: nat, r: nat)
    ensures (q * 0x100_0000 + r) / 0x100 % 0x100 == r / 0x100 % 0x100
  {
    MiddleOnwards(q, r);
    LastDigit(q * 0x100, r / 0x100);
  }

  lemma MiddleOnwards(q: nat, r: nat)
    ensures (q * 0x100_0000 + r) / 0x100 == (q * 0x100) * 0x100 + r / 0x100
  {
  }

  lemma LastDigit(k: nat, y: nat)
    ensures (k * 0x100 + y) % 0x100 == y % 0x100
  {
    var m := y / 0x100;
    assert k * 0x100 + y == (k + m) * 0x100 + y % 0x100;
  }

  lemma LastOfLow(q: nat, r: nat)
    ensures (q * 0x100_0000 + r) % 0x100 == r % 0x100
  {
  }

  lemma U32Injective(x: u32, y: u32)
    requires U32(x) == U32(y)
    ensures x == y
  {
    assert U32(x)[1..] == U24(x) && U32(y)[1..] == U24(y);
    assert U32(x)[0] == U32(y)[0];
    U24Equal(x, y);
  }

  lemma U32RoundTrip(x: u32)
    ensures ToU32(U32(x)[0], U32(x)[1], U32(x)[2], U32(x)[3]) == x
  {
    U24RoundTrip(x);
    assert U32(x)[1] == U24(x)[0] && U32(x)[2] == U24(x)[1] && U32(x)[3] == U24(x)[2];
  }

  lemma HighBitOf(b: byte)
    ensures b & 0x80 != 0 <==> b >= 0x80
    ensures b & 0x7F == if b >= 0x80 then b - 0x80 else b
  {
  }

  lemma HighHalf(b: byte)
    ensures b >= 0x80 <==> Number(b) >= 0x80
    ensures b >= 0x80 ==> Number(b - 0x80) == Number(b) - 0x80
  {
  }

  lemma OctetBits(b: byte)
    ensures b & 0x80 != 0 <==> Number(b) >= 0x80
    ensures Number(b & 0x7F) == if Number(b) >= 0x80 then Number(b) - 0x80 else Number(b)
  {
    HighBitOf(b);
    HighHalf(b);
  }

  lemma HighBit(x: u16)
    ensures U16(x)[0] & 0x80 == 0 <==> x < 0x8000
  {
    OctetBits(Octet(x / 0x100));
  }

  // ---------------------------------------------------------------- words of sixteen bits

  function Word(high: byte, low: byte): bv16 { ((high as bv16) << 8) | (low as bv16) }

  lemma Widened(b: byte)
    ensures (b as bv16) as nat == Number(b)
  {
  }

  lemma HalvesOfWord(high: byte, low: byte)
    ensures Word(high, low) >> 8 == high as bv16 && Word(high, low) & 0xFF == low as bv16
  {
  }

  lemma HalvesOfNumber(z: bv16)
    ensures z as nat == 0x100 * ((z >> 8) as nat) + (z & 0xFF) as nat
  {
  }

  lemma WordOfHalves(z: bv16)
    ensures z == Word((z >> 8) as byte, (z & 0xFF) as byte)
  {
  }

  lemma WordIsNumber(high: byte, low: byte)
    ensures Word(high, low) as nat == 0x100 * Number(high) + Number(low)
  {
    HalvesOfNumber(Word(high, low));
    HalvesOfWord(high, low);
    Widened(high);
    Widened(low);
  }

  lemma SameNumber(a: byte, b: byte)
    ensures Number(a) == Number(b) <==> a == b
  {
  }

  lemma SameDigits(a: nat, b: u8, c: nat, d: u8)
    ensures 0x100 * a + b == 0x100 * c + d <==> a == c && b == d
  {
  }

  lemma SameWordOf(h: byte, l: byte, h': byte, l': byte)
    ensures Word(h, l) as nat == Word(h', l') as nat <==> h == h' && l == l'
  {
    WordIsNumber(h, l);
    WordIsNumber(h', l');
    SameDigits(Number(h), Number(l), Number(h'), Number(l'));
    SameNumber(h, h');
    SameNumber(l, l');
  }

  lemma SameWord(a: bv16, b: bv16)
    ensures a as nat == b as nat <==> a == b
  {
    WordOfHalves(a);
    WordOfHalves(b);
    SameWordOf((a >> 8) as byte, (a & 0xFF) as byte, (b >> 8) as byte, (b & 0xFF) as byte);
  }

  // The two low octets of a number, as a word.
  lemma LowWord(x: u32)
    ensures Word(Octet(x / 0x100 % 0x100), Octet(x % 0x100)) as nat == x % 0x1_0000
  {
    WordIsNumber(Octet(x / 0x100 % 0x100), Octet(x % 0x100));
    TwoDigits(x / 0x1_0000, x % 0x1_0000);
  }

  lemma TwoDigits(q: nat, r: nat)
    requires r < 0x1_0000
    ensures var x := q * 0x1_0000 + r; 0x100 * (x / 0x100 % 0x100) + x % 0x100 == r
  {
    var x := q * 0x1_0000 + r;
    assert x / 0x100 == (q * 0x100) * 0x100 / 0x100 + r / 0x100;
    LastDigit(q * 0x100, r / 0x100);
    LastDigit(q * 0x100, r);
    assert x == (q * 0x100) * 0x100 + r;
  }

  lemma LowBitsSplit(z: bv16)
    ensures z as nat == 0x2000 * ((z >> 13) as nat) + (z & 0x1FFF) as nat && (z & 0x1FFF) as nat < 0x2000
  {
  }

  lemma LowBits(z: bv16)
    ensures (z & 0x1FFF) as nat == z as nat % 0x2000
  {
    LowBitsSplit(z);
    Remainder((z >> 13) as nat, (z & 0x1FFF) as nat);
  }

  lemma Remainder(q: nat, r: nat)
    requires r < 0x2000
    ensures (0x2000 * q + r) % 0x2000 == r
  {
  }

  // Setting the lowest bit of a word.
  lemma OddHalf(high: byte, low: byte)
    ensures Word(high, low) | 1 == Word(high, low | 1)
  {
  }

  lemma OddOctet(b: byte)
    ensures Number(b | 1) == if Number(b) % 2 == 0 then Number(b) + 1 else Number(b)
  {
    OctetHalved(b);
    OctetHalved(b | 1);
    assert (b | 1) >> 1 == b >> 1 && (b | 1) & 1 == 1;
  }

  lemma OctetHalved(b: byte)
    ensures Number(b) == 2 * Number(b >> 1) + Number(b & 1) && Number(b & 1) < 2
  {
  }

  lemma OddWordOf(z: bv16, high: byte, low: byte)
    requires z == Word(high, low)
    ensures (z | 1) as nat == if z as nat % 2 == 0 then z as nat + 1 else z as nat
  {
    OddHalf(high, low);
    WordIsNumber(high, low);
    WordIsNumber(high, low | 1);
    OddOctet(low);
    Parity(Number(high), Number(low));
  }

  lemma OddWord(z: bv16)
    ensures (z | 1) as nat == if z as nat % 2 == 0 then z as nat + 1 else z as nat
  {
    var (high, low) := ((z >> 8) as byte, (z & 0xFF) as byte);
    WordOfHalves(z);
    OddWordOf(z, high, low);
  }

  lemma Parity(q: nat, r: nat)
    ensures (0x100 * q + r) % 2 == r % 2
  {
    assert 0x100 * q + r == 2 * (0x80 * q) + r;
  }
}
