/** The octets of provisioning PDUs. */
module ProvisioningCodec {
  import opened Wrappers
  import opened Mesh
  import ProvisioningPdus

  type Block16 = b: bytes | |b| == 16 witness seq(16, _ => 0)
  type Block32 = b: bytes | |b| == 32 witness seq(32, _ => 0)
  type Block25 = b: bytes | |b| == 25 witness seq(25, _ => 0)
  type Block8 = b: bytes | |b| == 8 witness seq(8, _ => 0)

  // An out-of-band action is known by the position of its bit: five outputs, four inputs.
  type Position = k: nat | k < 5

  datatype OobSize = NotSupported | MaximumSize(size: byte)

  datatype Method = NoOob | StaticOob | OutputOob | InputOob

  datatype OobAction = NoAction | Output(k: Position) | Input(k: Position)

  datatype Capabilities = Capabilities(
    elements: byte, algorithms: nat, publicKey: bool, staticOob: bool,
    outputSize: OobSize, outputActions: seq<Position>, inputSize: OobSize, inputActions: seq<Position>)

  datatype Pdu =
    | Invite(attention: byte)
    | Caps(caps: Capabilities)
    | Start(oobKey: bool, oobMethod: Method, action: OobAction, size: OobSize)
    | PublicKey(x: Block32, y: Block32)
    | InputComplete
    | Confirmation(confirmation: Block16)
    | Random(random: Block16)
    | Data(encrypted: Block25, mic: Block8)
    | Complete
    | Failed(code: byte)

  // ---------------------------------------------------------------- lists of actions

  function BitAt(k: Position): byte {
    if k == 0 then 0x01 else if k == 1 then 0x02 else if k == 2 then 0x04 else if k == 3 then 0x08 else 0x10
  }

  // The bits of a list of actions, whatever their order.
  function Bits(actions: seq<Position>): byte {
    if actions == [] then 0 else BitAt(actions[0]) | Bits(actions[1..])
  }

  // The actions from position k on whose bits are set, in order.
  function ActionsFrom(bits: byte, k: nat): seq<Position>
    requires k <= 5
    decreases 5 - k
  {
    if k == 5 then []
    else if bits & BitAt(k) != 0 then [k] + ActionsFrom(bits, k + 1)
    else ActionsFrom(bits, k + 1)
  }

  function ParseActions(hi: byte, lo: byte, unused: byte): Result<seq<Position>, ParseError> {
    if hi != 0 || lo & unused != 0 then Err(InvalidValue) else Ok(ActionsFrom(lo, 0))
  }

  const UNUSED_OUTPUTS: byte := 0xE0
  const UNUSED_INPUTS: byte := 0xF0

  predicate Canonical(actions: seq<Position>) { forall i, j | 0 <= i < j < |actions| :: actions[i] < actions[j] }

  lemma BitOfUnion(k: Position, a: byte, b: byte)
    ensures (a | b) & BitAt(k) != 0 <==> a & BitAt(k) != 0 || b & BitAt(k) != 0
  {
  }

  lemma BitOfOne(j: Position, k: Position)
    ensures BitAt(j) & BitAt(k) != 0 <==> j == k
  {
  }

  lemma {:induction false} BitsHave(actions: seq<Position>, k: Position)
    ensures Bits(actions) & BitAt(k) != 0 <==> k in actions
  {
    if actions != [] {
      BitsHave(actions[1..], k);
      BitOfUnion(k, BitAt(actions[0]), Bits(actions[1..]));
      BitOfOne(actions[0], k);
      assert k in actions <==> k == actions[0] || k in actions[1..];
    }
  }

  lemma {:induction false} ActionsAreCanonical(bits: byte, k: nat)
    requires k <= 5
    ensures Canonical(ActionsFrom(bits, k))
    ensures forall j | j in ActionsFrom(bits, k) :: k <= j
    ensures forall j: Position | k <= j :: j in ActionsFrom(bits, k) <==> bits & BitAt(j) != 0
    decreases 5 - k
  {
    if k < 5 {
      ActionsAreCanonical(bits, k + 1);
      Prepend(k, ActionsFrom(bits, k + 1));
      forall j: Position | k <= j ensures j in ActionsFrom(bits, k) <==> bits & BitAt(j) != 0 {
        if j == k { assert k !in ActionsFrom(bits, k + 1); }
      }
    }
  }

  lemma Prepend(k: Position, rest: seq<Position>)
    requires Canonical(rest) && forall j | j in rest :: k + 1 <= j
    ensures Canonical([k] + rest)
    ensures forall j: Position :: j in [k] + rest <==> j == k || j in rest
  {
    assert forall i | 0 <= i < |rest| :: rest[i] in rest;
  }

  lemma HeadIsMember(s: seq<Position>)
    ensures s != [] ==> s[0] in s
  {
  }

  // A canonical list is determined by its members.
  lemma {:induction false} CanonicalUnique(a: seq<Position>, b: seq<Position>)
    requires Canonical(a) && Canonical(b) && forall k: Position :: k in a <==> k in b
    ensures a == b
  {
    HeadIsMember(a);
    HeadIsMember(b);
    if a != [] && b != [] {
      var i :| 0 <= i < |a| && a[i] == b[0];
      var j :| 0 <= j < |b| && b[j] == a[0];
      assert a[0] == b[0];
      forall k: Position ensures k in a[1..] <==> k in b[1..] {
        assert k in a <==> k == a[0] || k in a[1..];
        assert k in b <==> k == b[0] || k in b[1..];
        assert a[0] !in a[1..] && b[0] !in b[1..];
      }
      CanonicalUnique(a[1..], b[1..]);
    }
  }

  // The list that is parsed is the one that was emitted exactly when that one is in order.
  lemma ActionsRoundTrip(actions: seq<Position>)
    ensures ActionsFrom(Bits(actions), 0) == actions <==> Canonical(actions)
  {
    ActionsAreCanonical(Bits(actions), 0);
    forall k: Position ensures k in actions <==> k in ActionsFrom(Bits(actions), 0) { BitsHave(actions, k); }
    if Canonical(actions) { CanonicalUnique(actions, ActionsFrom(Bits(actions), 0)); }
  }

  lemma {:induction false} OutputsFit(actions: seq<Position>)
    ensures Bits(actions) & UNUSED_OUTPUTS == 0
    ensures Bits(actions) & UNUSED_INPUTS == 0 <==> 4 !in actions
  {
    if actions != [] {
      OutputsFit(actions[1..]);
      UnionFits(actions[0], Bits(actions[1..]));
      assert 4 in actions <==> 4 == actions[0] || 4 in actions[1..];
    }
  }

  lemma UnionFits(k: Position, b: byte)
    requires b & 0xE0 == 0
    ensures (BitAt(k) | b) & 0xE0 == 0
    ensures (BitAt(k) | b) & 0xF0 == 0 <==> b & 0xF0 == 0 && k != 4
  {
  }

  // ---------------------------------------------------------------- fields

  function EmitSize(s: OobSize): byte { match s case NotSupported => 0 case MaximumSize(size) => size }

  function ParseSize(octet: byte): Result<OobSize, ParseError> {
    if octet == 0 then Ok(NotSupported) else if octet < 8 then Ok(MaximumSize(octet)) else Err(InvalidValue)
  }

  predicate SizeSurvives(s: OobSize) { s.MaximumSize? ==> 0 < s.size < 8 }

  function EmitFlag(flag: bool): byte { if flag then 1 else 0 }

  function ParseFlag(octet: byte): Result<bool, ParseError> {
    if octet & 0xFE != 0 then Err(InvalidValue) else Ok(octet & 0x01 != 0)
  }

  lemma FlagRoundTrip(flag: bool)
    ensures ParseFlag(EmitFlag(flag)) == Ok(flag)
  {
  }

  lemma SizeRoundTrip(s: OobSize)
    ensures ParseSize(EmitSize(s)) == Ok(s) <==> SizeSurvives(s)
  {
  }

  function EmitMethod(m: Method): byte {
    match m case NoOob => 0 case StaticOob => 1 case OutputOob => 2 case InputOob => 3
  }

  function ParseMethod(octet: byte): Result<Method, ParseError> {
    if octet == 0 then Ok(NoOob) else if octet == 1 then Ok(StaticOob)
    else if octet == 2 then Ok(OutputOob) else if octet == 3 then Ok(InputOob) else Err(InvalidValue)
  }

  // An action is emitted as two octets, of its bit, and parsed as one, of its position.
  function EmitAction(a: OobAction): bytes {
    match a case NoAction => [0] case Output(k) => [0, BitAt(k)] case Input(k) => [0, BitAt(k)]
  }

  function ParsePosition(octet: byte, limit: byte): Result<Position, ParseError>
    requires limit <= 5
  {
    if octet >= limit then Err(InvalidValue)
    else Ok(if octet == 0 then 0 else if octet == 1 then 1 else if octet == 2 then 2 else if octet == 3 then 3 else 4)
  }

  function ParseAction(m: Method, octet: byte): Result<OobAction, ParseError> {
    match m
    case OutputOob => (var k :- ParsePosition(octet, 5); Ok(Output(k)))
    case InputOob => (var k :- ParsePosition(octet, 4); Ok(Input(k)))
    case _ => if octet != 0 then Err(InvalidValue) else Ok(NoAction)
  }

  function ParseAuthenticationSize(m: Method, octet: byte): Result<OobSize, ParseError> {
    match m
    case OutputOob => if octet == 0 then Err(InvalidPDUFormat) else ParseSize(octet)
    case InputOob => if octet == 0 then Err(InvalidPDUFormat) else ParseSize(octet)
    case _ => if octet != 0 then Err(InvalidValue) else Ok(NotSupported)
  }

  // ---------------------------------------------------------------- PDUs

  function EmitCapabilities(c: Capabilities): bytes {
    [c.elements, 0, if c.algorithms > 0 then 1 else 0, EmitFlag(c.publicKey), EmitFlag(c.staticOob),
     EmitSize(c.outputSize), 0, Bits(c.outputActions), EmitSize(c.inputSize), 0, Bits(c.inputActions)]
  }

  function Emit(p: Pdu): bytes {
    match p
    case Invite(attention) => [0x00, attention]
    case Caps(c) => [0x01] + EmitCapabilities(c)
    case Start(oobKey, m, action, size) => [0x02, 0, EmitFlag(oobKey), EmitMethod(m)] + EmitAction(action) + [EmitSize(size)]
    case PublicKey(x, y) => [0x03] + x + y
    case InputComplete => [0x04]
    case Confirmation(c) => [0x05] + c
    case Random(r) => [0x06] + r
    case Data(encrypted, mic) => [0x07] + encrypted + mic
    case Complete => [0x08]
    case Failed(code) => [0x09, code]
  }

  function ParseCapabilities(d: bytes): Result<Capabilities, ParseError>
    requires |d| == 12
  {
    if d[2] != 0 || d[3] & 0xFE != 0 then Err(InvalidValue)
    else
      var publicKey :- ParseFlag(d[4]);
      var staticOob :- ParseFlag(d[5]);
      var outputSize :- ParseSize(d[6]);
      var outputActions :- ParseActions(d[7], d[8], UNUSED_OUTPUTS);
      var inputSize :- ParseSize(d[9]);
      var inputActions :- ParseActions(d[10], d[11], UNUSED_INPUTS);
      Ok(Capabilities(d[1], if d[3] & 1 != 0 then 1 else 0, publicKey, staticOob, outputSize, outputActions, inputSize,
                      inputActions))
  }

  function ParseStart(d: bytes): Result<Pdu, ParseError>
    requires |d| == 6
  {
    if d[1] != 0 || d[2] > 1 then Err(InvalidValue)
    else
      var m :- ParseMethod(d[3]);
      var action :- ParseAction(m, d[4]);
      var size :- ParseAuthenticationSize(m, d[5]);
      Ok(Start(d[2] == 1, m, action, size))
  }

  // The error of a parser as that of the driver; an index or slice out of range is a Rust panic.
  function Lifted<T>(r: Result<T, ParseError>): Result<T, DriverError> {
    match r case Ok(v) => Ok(v) case Err(e) => Err(DriverError.Parse(e))
  }

  // The length checks of public keys, data and failures never apply, because the tag already matched.
  function Parse(d: bytes): Result<Pdu, DriverError> {
    if d == [] then Err(DriverError.Parse(InvalidLength))
    else if d[0] == 0x00 then
      if |d| == 2 then Ok(Invite(d[1])) else Err(DriverError.Parse(InvalidPDUFormat))
    else if d[0] == 0x01 then
      if |d| != 12 then Err(DriverError.Parse(InvalidPDUFormat))
      else (match ParseCapabilities(d) case Ok(c) => Ok(Caps(c)) case Err(e) => Err(DriverError.Parse(e)))
    else if d[0] == 0x02 then
      if |d| != 6 then Err(DriverError.Parse(InvalidPDUFormat)) else Lifted(ParseStart(d))
    else if d[0] == 0x03 then
      if |d| < 65 then Err(Panic) else Ok(PublicKey(d[1..33], d[33..65]))
    else if d[0] == 0x04 then
      if |d| == 1 then Ok(InputComplete) else Err(DriverError.Parse(InvalidPDUFormat))
    else if d[0] == 0x05 then
      if |d| == 17 then Ok(Confirmation(d[1..])) else Err(DriverError.Parse(InvalidLength))
    else if d[0] == 0x06 then
      if |d| == 17 then Ok(Random(d[1..])) else Err(DriverError.Parse(InvalidLength))
    else if d[0] == 0x07 then
      if |d| < 34 then Err(Panic) else Ok(Data(d[1..26], d[26..34]))
    else if d[0] == 0x08 then Ok(Complete)
    else if d[0] == 0x09 then
      if |d| < 2 then Err(Panic)
      else if d[1] <= 0x08 then Ok(Failed(d[1])) else Err(DriverError.Parse(InvalidValue))
    else Err(DriverError.Parse(InvalidPDUFormat))
  }

  // ---------------------------------------------------------------- round trip

  predicate CapabilitiesSurvive(c: Capabilities) {
    && c.algorithms <= 1 && SizeSurvives(c.outputSize) && SizeSurvives(c.inputSize)
    && Canonical(c.outputActions) && Canonical(c.inputActions) && 4 !in c.inputActions
  }

  // A start survives only without an out-of-band action.
  predicate Survives(p: Pdu) {
    match p
    case Caps(c) => CapabilitiesSurvive(c)
    case Start(_, m, action, size) => action.NoAction? && size.NotSupported? && (m.NoOob? || m.StaticOob?)
    case Failed(code) => code <= 0x08
    case _ => true
  }

  // The parser on octets whose fields are known one by one.
  lemma ParseOfFields(d: bytes, publicKey: bool, staticOob: bool,
                      outputSize: OobSize, outputs: byte, inputSize: OobSize, inputs: byte)
    requires |d| == 12 && d[2] == 0 && d[3] <= 1 && d[4] == EmitFlag(publicKey) && d[5] == EmitFlag(staticOob)
    requires d[6] == EmitSize(outputSize) && d[7] == 0 && d[8] == outputs && outputs & UNUSED_OUTPUTS == 0
    requires d[9] == EmitSize(inputSize) && d[10] == 0 && d[11] == inputs
    requires SizeSurvives(outputSize) && SizeSurvives(inputSize) && inputs & UNUSED_INPUTS == 0
    ensures ParseCapabilities(d) == Ok(Capabilities(d[1], if d[3] == 1 then 1 else 0, publicKey, staticOob, outputSize,
                                                    ActionsFrom(outputs, 0), inputSize, ActionsFrom(inputs, 0)))
  {
    FlagRoundTrip(publicKey);
    FlagRoundTrip(staticOob);
    OneBit(d[3]);
  }

  lemma OneBit(b: byte)
    requires b <= 1
    ensures b & 0xFE == 0 && (b & 1 != 0 <==> b == 1)
  {
  }

  // What the parser accepts has sizes and action bits in range.
  lemma ParsedFields(d: bytes)
    requires |d| == 12 && ParseCapabilities(d).Ok?
    ensures var c := ParseCapabilities(d).value;
      && ParseSize(d[6]) == Ok(c.outputSize) && ParseSize(d[9]) == Ok(c.inputSize) && d[11] & UNUSED_INPUTS == 0
  {
  }

  lemma CapabilitiesRoundTrip(c: Capabilities)
    ensures ParseCapabilities([0x01] + EmitCapabilities(c)) == Ok(c) <==> CapabilitiesSurvive(c)
  {
    var d := [0x01] + EmitCapabilities(c);
    OutputsFit(c.outputActions);
    OutputsFit(c.inputActions);
    ActionsRoundTrip(c.outputActions);
    ActionsRoundTrip(c.inputActions);
    if SizeSurvives(c.outputSize) && SizeSurvives(c.inputSize) && 4 !in c.inputActions {
      ParseOfFields(d, c.publicKey, c.staticOob, c.outputSize, Bits(c.outputActions), c.inputSize, Bits(c.inputActions));
    } else if ParseCapabilities(d).Ok? {
      ParsedFields(d);
      SizeRoundTrip(c.outputSize);
      SizeRoundTrip(c.inputSize);
    }
  }

  lemma StartRoundTrip(oobKey: bool, m: Method, action: OobAction, size: OobSize)
    ensures var p := Start(oobKey, m, action, size); Parse(Emit(p)) == Ok(p) <==> Survives(p)
  {
  }

  // What is parsed is what was emitted exactly for a capabilities PDU with canonical lists and sizes, a
  // start without an out-of-band action, a known error code, and every other PDU.
  lemma RoundTrip(p: Pdu)
    ensures Parse(Emit(p)) == Ok(p) <==> Survives(p)
  {
    match p
    case Caps(c) => CapabilitiesRoundTrip(c);
    case Start(oobKey, m, action, size) => StartRoundTrip(oobKey, m, action, size);
    case PublicKey(x, y) => assert Emit(p)[1..33] == x && Emit(p)[33..65] == y;
    case Confirmation(c) => assert Emit(p)[1..] == c;
    case Random(r) => assert Emit(p)[1..] == r;
    case Data(encrypted, mic) => assert Emit(p)[1..26] == encrypted && Emit(p)[26..34] == mic;
    case _ =>
  }

  // Every PDU fits a transaction of the advertising bearer.
  lemma EmitFits(p: Pdu)
    ensures 0 < |Emit(p)| <= 65
  {
  }

  // The parser is total but for three tags whose length is never checked.
  lemma PanicsExactly(d: bytes)
    ensures Parse(d) == Err(Panic) <==>
      d != [] && ((d[0] == 0x03 && |d| < 65) || (d[0] == 0x07 && |d| < 34) || (d[0] == 0x09 && |d| < 2))
  {
  }

  // ---------------------------------------------------------------- the octets of every PDU

  // The octets that are read as each PDU; surplus octets are ignored where the length is not checked.
  lemma ParsedPdus(d: bytes)
    ensures forall a :: Parse(d) == Ok(Invite(a)) <==> d == [0x00, a]
    ensures forall x, y :: Parse(d) == Ok(PublicKey(x, y)) <==> |d| >= 65 && d[0] == 0x03 && d[1..33] == x && d[33..65] == y
    ensures Parse(d) == Ok(InputComplete) <==> d == [0x04]
    ensures forall c :: Parse(d) == Ok(Confirmation(c)) <==> |d| == 17 && d[0] == 0x05 && d[1..] == c
    ensures forall r :: Parse(d) == Ok(Random(r)) <==> |d| == 17 && d[0] == 0x06 && d[1..] == r
    ensures forall e, m :: Parse(d) == Ok(Data(e, m)) <==> |d| >= 34 && d[0] == 0x07 && d[1..26] == e && d[26..34] == m
    ensures Parse(d) == Ok(Complete) <==> d != [] && d[0] == 0x08
    ensures forall c :: Parse(d) == Ok(Failed(c)) <==> |d| >= 2 && d[0] == 0x09 && d[1] == c && c <= 0x08
  {
  }

  // The octets that are read as a start: with an output action one of five positions, with an input
  // action one of four, and with either a size of one to seven; without, neither.
  lemma ParsedStart(d: bytes)
    requires |d| == 6 && d[0] == 0x02
    ensures Parse(d).Ok? <==>
      && d[1] == 0 && d[2] <= 1
      && (if d[3] == 2 then d[4] <= 4 && 1 <= d[5] <= 7
          else if d[3] == 3 then d[4] <= 3 && 1 <= d[5] <= 7
          else d[3] <= 1 && d[4] == 0 && d[5] == 0)
    ensures Parse(d).Ok? ==> var p := Parse(d).value;
      && p.Start? && (p.oobKey <==> d[2] == 1)
      && p.oobMethod == (if d[3] == 0 then NoOob else if d[3] == 1 then StaticOob else if d[3] == 2 then OutputOob else InputOob)
      && (if d[3] == 2 then p.action.Output? && p.action.k == d[4] as nat && p.size == MaximumSize(d[5])
          else if d[3] == 3 then p.action.Input? && p.action.k == d[4] as nat && p.size == MaximumSize(d[5])
          else p.action == NoAction && p.size == NotSupported)
  {
  }

  // A size as it is read: up to seven.
  predicate SizeIs(s: OobSize, octet: byte) { if octet == 0 then s == NotSupported else s == MaximumSize(octet) && octet < 8 }

  // The octets that are read as capabilities, field by field.
  lemma ParsedCapabilities(d: bytes, c: Capabilities)
    ensures Parse(d) == Ok(Caps(c)) ==>
      && |d| == 12 && d[0] == 0x01 && d[1] == c.elements && d[2] == 0 && d[7] == 0 && d[10] == 0
      && d[3] <= 1 && c.algorithms == (if d[3] == 1 then 1 else 0)
      && d[4] <= 1 && d[5] <= 1 && (c.publicKey <==> d[4] == 1) && (c.staticOob <==> d[5] == 1)
      && SizeIs(c.outputSize, d[6]) && SizeIs(c.inputSize, d[9]) && d[8] < 0x20 && d[11] < 0x10
      && (forall k: Position :: k in c.outputActions <==> d[8] & BitAt(k) != 0)
      && (forall k: Position :: k in c.inputActions <==> d[11] & BitAt(k) != 0)
  {
    if Parse(d) == Ok(Caps(c)) {
      CapabilityBits(d[3]);
      CapabilityBits(d[4]);
      CapabilityBits(d[5]);
      UnusedBits(d[8]);
      UnusedBits(d[11]);
      ActionsAreCanonical(d[8], 0);
      ActionsAreCanonical(d[11], 0);
    }
  }

  lemma CapabilityBits(b: byte)
    ensures b & 0xFE == 0 <==> b <= 1
    ensures b <= 1 ==> (b & 0x01 != 0 <==> b == 1)
  {
  }

  lemma UnusedBits(b: byte)
    ensures b & 0xE0 == 0 <==> b < 0x20
    ensures b & 0xF0 == 0 <==> b < 0x10
  {
  }

  // What is not read, where it is no panic, and why.
  lemma ParseErrors(d: bytes)
    requires Parse(d).Err? && Parse(d).error != Panic
    ensures Parse(d).error == DriverError.Parse(
      if d == [] || d[0] == 0x05 || d[0] == 0x06 then InvalidLength
      else if d[0] == 0x01 && |d| == 12 then InvalidValue
      else if d[0] == 0x02 && |d| == 6 then
        if d[1] == 0 && d[2] <= 1 && d[5] == 0 && ((d[3] == 2 && d[4] <= 4) || (d[3] == 3 && d[4] <= 3)) then InvalidPDUFormat
        else InvalidValue
      else if d[0] == 0x09 then InvalidValue
      else InvalidPDUFormat)
  {
    if d != [] && d[0] == 0x01 && |d| == 12 { CapabilitiesError(d); }
    if d != [] && d[0] == 0x02 && |d| == 6 { StartError(d); }
  }

  lemma CapabilitiesError(d: bytes)
    requires |d| == 12 && ParseCapabilities(d).Err?
    ensures ParseCapabilities(d).error == InvalidValue
  {
  }

  lemma StartError(d: bytes)
    requires |d| == 6 && ParseStart(d).Err?
    ensures ParseStart(d).error ==
      if d[1] == 0 && d[2] <= 1 && d[5] == 0 && ((d[3] == 2 && d[4] <= 4) || (d[3] == 3 && d[4] <= 3)) then InvalidPDUFormat
      else InvalidValue
  {
  }

  // How long each PDU is: a start with an out-of-band action is one octet longer than the parser takes.
  lemma EmittedLengths(p: Pdu)
    ensures |Emit(p)| ==
      match p
      case Invite(_) => 2
      case Caps(_) => 12
      case Start(_, _, action, _) => if action.NoAction? then 6 else 7
      case PublicKey(_, _) => 65
      case Confirmation(_) => 17
      case Random(_) => 17
      case Data(_, _) => 34
      case Failed(_) => 2
      case _ => 1
  {
  }

  // The octets of every start that is sent: an action is the sixteen bits with its own bit set.
  lemma EmittedStart(oobKey: bool, m: Method, action: OobAction, size: OobSize)
    ensures var e := Emit(Start(oobKey, m, action, size));
      && e[0] == 0x02 && e[1] == 0 && e[2] == (if oobKey then 1 else 0)
      && e[3] == (if m.NoOob? then 0 else if m.StaticOob? then 1 else if m.OutputOob? then 2 else 3)
      && e[4] == 0 && e[|e| - 1] == (if size.MaximumSize? then size.size else 0)
      && (!action.NoAction? ==> |e| == 7 && e[5] == [0x01, 0x02, 0x04, 0x08, 0x10][action.k])
  {
  }

  // The two forms of a PDU that goes into the confirmation inputs.
  predicate SameInput(p: Pdu, q: ProvisioningPdus.Pdu) {
    || (p.Invite? && q.Invite?) || (p.Caps? && q.Capabilities?) || (p.PublicKey? && q.PublicKey?)
    || (p.Start? && q.Start? && (q.oob <==> !p.action.NoAction?))
  }

  // A PDU takes as much room in the confirmation inputs as it has octets after its type.
  lemma InputSize(p: Pdu, q: ProvisioningPdus.Pdu)
    requires SameInput(p, q)
    ensures ProvisioningPdus.Size(q) == |Emit(p)| - 1
  {
    EmittedLengths(p);
  }
}
