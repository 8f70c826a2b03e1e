/** The life of a node's configuration outside crashes: what is written when, and a node that waits to be
    provisioned. */
module Lifecycle {
  import opened Wrappers
  import opened Mesh
  import opened Counter
  import opened Storage

  // ---------------------------------------------------------------- what is written

  // A provisioned configuration is written back unless flash was loaded or written with the same hashed
  // fields and the sequence has not moved, or neither reached a multiple of the threshold nor gone a
  // whole threshold beyond the one in flash.
  lemma WrittenWhen(latest: LatestLoad, core: Core, sequence: u32, foundation: nat, t: Threshold)
    ensures ShouldWriteback(latest, Provisioned(core, sequence, foundation), t) <==>
      !(&& latest.LoadedProvisioned? && latest.hash == OfTaggedCore(core)
        && (sequence == latest.sequence
            || (sequence % t != 0
                && if sequence >= latest.sequence then sequence - latest.sequence < t
                   else 0x1_0000_0000 + sequence - latest.sequence < t)))
  {
  }

  // An unprovisioned configuration would be written exactly unless flash already held one; but none is
  // ever handed down.
  lemma UnprovisionedNotWritten(n: Node, uuid: nat, t: Threshold)
    ensures ShouldWriteback(n.latest, Unprovisioned(uuid), t) <==> !n.latest.LoadedUnprovisioned?
    ensures PutStep(n, Unprovisioned(uuid), t) == n.(cached := Some(Unprovisioned(uuid)))
  {
  }

  // What was loaded from flash never has that hash, so the first configuration put after a boot is
  // always written.
  lemma FirstPutIsWritten(n: Node, config: Configuration, core: Core, sequence: u32, foundation: nat, t: Threshold)
    requires n.cached.None? && n.flash == Some(config)
    ensures PutStep(LoadStep(n), Provisioned(core, sequence, foundation), t).flash == Some(Provisioned(core, sequence, foundation))
  {
  }

  // The jump at start-up: to the second multiple of one hundred after the last, on 32 bits.
  lemma JumpOnCircle(sequence: u32)
    ensures var j := sequence - sequence % 100 + 200;
      Jump(sequence) == if j < 0x1_0000_0000 then j else j - 0x1_0000_0000
    ensures sequence < 0x1_0000_0000 - 200 ==> Jump(sequence) % 100 == 0 && 101 <= Jump(sequence) - sequence <= 200
  {
    var q := sequence / 100;
    assert sequence - sequence % 100 == 100 * q;
    Hundreds(q + 2);
  }

  lemma Hundreds(q: nat)
    ensures (100 * q) % 100 == 0
  {
  }

  // ---------------------------------------------------------------- waiting to be provisioned

  // A node whose flash holds no provisioned configuration, at the start of its first turn.
  predicate Waiting(n: Node) {
    && (n.flash.Some? ==> n.flash.value.Unprovisioned?) && n.latest in {NoLoad, LoadedUnprovisioned}
    && n.cached == n.flash && n.stack == NoStack
  }

  // The identity it goes by: the one in flash, or the one drawn in its first turn.
  function Identity(n: Node, drawn: nat): nat {
    match n.flash
    case Some(Unprovisioned(uuid)) => uuid
    case _ => drawn
  }

  predicate GoesBy(n: Node, uuid: nat, flash: Option<Configuration>) {
    n.flash == flash && n.cached == Some(Unprovisioned(uuid)) && n.stack == UnprovisionedStack(uuid)
    && n.latest in {NoLoad, LoadedUnprovisioned}
  }

  function Turns(n: Node, uuids: seq<nat>, inputs: seq<Input>, t: Threshold): Node
    requires |uuids| == |inputs|
  {
    if inputs == [] then n
    else TurnStep(Turns(n, Front(uuids), Front(inputs), t), Last(uuids), Last(inputs), t)
  }

  lemma FirstTurn(n: Node, drawn: nat, input: Input, t: Threshold)
    requires Waiting(n) && !input.ProvisioningDone?
    ensures GoesBy(TurnStep(n, drawn, input, t), Identity(n, drawn), n.flash)
    ensures NumbersOf(SetUpStep(n, drawn, t), input) == []
  {
  }

  lemma LaterTurn(n: Node, uuid: nat, flash: Option<Configuration>, drawn: nat, input: Input, t: Threshold)
    requires GoesBy(n, uuid, flash) && !input.ProvisioningDone?
    ensures GoesBy(TurnStep(n, drawn, input, t), uuid, flash) && NumbersOf(SetUpStep(n, drawn, t), input) == []
  {
  }

  // Until it is provisioned a node goes by one identity, whatever is drawn in later turns, hands out no
  // numbers, and leaves flash as it was.
  lemma {:induction false} KeepsIdentity(n: Node, uuids: seq<nat>, inputs: seq<Input>, t: Threshold)
    requires Waiting(n) && |uuids| == |inputs| > 0 && forall i | 0 <= i < |inputs| :: !inputs[i].ProvisioningDone?
    ensures GoesBy(Turns(n, uuids, inputs, t), Identity(n, uuids[0]), n.flash)
  {
    if |inputs| == 1 {
      assert Turns(n, Front(uuids), Front(inputs), t) == n;
      FirstTurn(n, uuids[0], inputs[0], t);
    } else {
      KeepsIdentity(n, Front(uuids), Front(inputs), t);
      LaterTurn(Turns(n, Front(uuids), Front(inputs), t), Identity(n, uuids[0]), n.flash, Last(uuids), Last(inputs), t);
    }
  }

  // The turn in which provisioning completes writes the new configuration at once; from then on numbers
  // are handed out, starting at eight hundred.
  lemma ProvisionedAtOnce(n: Node, uuid: nat, flash: Option<Configuration>, drawn: nat, core: Core, k: nat, t: Threshold)
    requires GoesBy(n, uuid, flash)
    ensures var n' := TurnStep(n, drawn, ProvisioningDone(core), t);
      && n'.flash == n'.cached == Some(Provisioned(core, 800, 0)) && n'.stack == ProvisionedStack(core, 800)
      && NumbersOf(SetUpStep(n', drawn, t), Send(k)) == seq(k, i requires 0 <= i < k => After(800, i))
  {
  }

  // At the start of every turn the stack is the one that the configuration calls for; one of the right
  // kind is kept as it is, so that the counter of a provisioned node goes on.
  lemma StackFollows(n: Node, drawn: nat, t: Threshold)
    ensures var r := SetUpStep(n, drawn, t);
      && r.cached.Some?
      && (r.cached.value.Unprovisioned? ==>
          r.stack == if n.stack.UnprovisionedStack? then n.stack else UnprovisionedStack(r.cached.value.uuid))
      && (r.cached.value.Provisioned? ==>
          r.stack == if n.stack.ProvisionedStack? then n.stack
                     else ProvisionedStack(r.cached.value.core, r.cached.value.sequence))
  {
  }
}
