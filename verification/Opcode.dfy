/** Access opcodes of one, two and three octets. */
module Opcode {
  import opened Wrappers
  import opened Mesh

  datatype Opcode = OneOctet(a: byte) | TwoOctet(a: byte, b: byte) | ThreeOctet(a: byte, b: byte, c: byte)

  function Emit(op: Opcode): bytes {
    match op
    case OneOctet(a) => [a]
    case TwoOctet(a, b) => [a, b]
    case ThreeOctet(a, b, c) => [a, b, c]
  }

  // One-octet opcodes have seven bits, but are masked to six.
  function Split(data: bytes): Option<(Opcode, bytes)> {
    if data == [] then None
    else if data[0] & 0x80 == 0 then Some((OneOctet(data[0] & 0x3F), data[1..]))
    else if |data| >= 2 && data[0] & 0xC0 == 0x80 then Some((TwoOctet(data[0], data[1]), data[2..]))
    else if |data| >= 3 && data[0] & 0xC0 == 0xC0 then Some((ThreeOctet(data[0], data[1], data[2]), data[3..]))
    else None
  }

  // The opcodes the receiver reads back: the top two bits tell the length, and a one-octet opcode
  // must leave both clear.
  predicate Survives(op: Opcode) {
    match op
    case OneOctet(a) => a < 0x40
    case TwoOctet(a, _) => 0x80 <= a < 0xC0
    case ThreeOctet(a, _, _) => 0xC0 <= a
  }

  lemma TopBits(a: byte)
    ensures a & 0x80 == 0 <==> a < 0x80
    ensures a & 0xC0 == 0x80 <==> 0x80 <= a < 0xC0
    ensures a & 0xC0 == 0xC0 <==> 0xC0 <= a
    ensures a < 0x80 ==> (a & 0x3F == a <==> a < 0x40)
  {
  }

  lemma SplitOfEmit(op: Opcode, parameters: bytes)
    ensures Split(Emit(op) + parameters) == Some((op, parameters)) <==> Survives(op)
  {
    TopBits(op.a);
    var data := Emit(op) + parameters;
    assert data[|Emit(op)|..] == parameters;
  }
}
