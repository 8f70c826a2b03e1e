/** Sequence numbers across crashes: what lazy write-back and the boot-time jump guarantee. */
module CrashSafety {
  import opened Wrappers
  import opened Mesh
  import opened Counter
  import opened Storage

  // A turn that completes, one that is cut short by a crash before its configuration is put back,
  // and a crash between turns (or while starting up).
  datatype Event =
    | Completed(randomUuid: nat, input: Input)
    | Interrupted(randomUuid: nat, input: Input)
    | Reboot

  function Apply(n: Node, e: Event, t: Threshold): Node {
    match e
    case Completed(uuid, input) => TurnStep(n, uuid, input, t)
    case Interrupted(uuid, input) => BootStep(WorkStep(SetUpStep(n, uuid, t), input), t)
    case Reboot => BootStep(n, t)
  }

  function Numbers(n: Node, e: Event, t: Threshold): seq<u32> {
    if e.Reboot? then [] else NumbersOf(SetUpStep(n, e.randomUuid, t), e.input)
  }

  function Run(n: Node, events: seq<Event>, t: Threshold): Node
    decreases |events|
  {
    if events == [] then n else Run(Apply(n, events[0], t), events[1..], t)
  }

  // Every number the node hands out in a run, in order.
  function Issued(n: Node, events: seq<Event>, t: Threshold): seq<u32>
    decreases |events|
  {
    if events == [] then []
    else Numbers(n, events[0], t) + Issued(Apply(n, events[0], t), events[1..], t)
  }

  predicate Burst(events: seq<Event>, b: nat) {
    forall e | e in events :: !e.Reboot? && e.input.Send? ==> e.input.numbers <= b
  }

  // An upper bound on how far a run can move the counter.
  function Cost(events: seq<Event>): nat
    decreases |events|
  {
    if events == [] then 0 else CostOf(events[0]) + Cost(events[1..])
  }

  function CostOf(e: Event): nat {
    (if !e.Reboot? && e.input.Send? then e.input.numbers else 0) + (if e.Completed? then 0 else 200)
  }

  predicate Increasing(s: seq<u32>) { forall i, j | 0 <= i < j < |s| :: s[i] < s[j] }

  predicate Distinct(s: seq<u32>) { forall i, j | 0 <= i < j < |s| :: s[i] != s[j] }

  // ---------------------------------------------------------------- what holds between turns

  // Provisioned, with flash holding f and the cache p: the write-behind invariant.
  ghost predicate Behind(n: Node, core: Core, f: u32, p: u32, t: Threshold) {
    && IsProvisioned(n.flash, core, f)
    && n.latest == LoadedProvisioned(OfTaggedCore(core), f)
    && IsProvisioned(n.cached, core, p)
    && (n.stack == NoStack || n.stack == ProvisionedStack(core, p))
    && f <= p < f + t && (p == f || p % t != 0)
  }

  predicate IsProvisioned(c: Option<Configuration>, core: Core, sequence: u32) {
    c.Some? && c.value.Provisioned? && c.value.core == core && c.value.sequence == sequence
  }

  // Not provisioned: nothing in flash that could be provisioned, no counter.
  ghost predicate Blank(n: Node) {
    && (n.flash.Some? ==> n.flash.value.Unprovisioned?)
    && n.latest in {NoLoad, LoadedUnprovisioned}
    && (n.cached.Some? ==> n.cached.value.Unprovisioned?)
    && !n.stack.ProvisionedStack?
  }

  // Putting back a counter that moved forward keeps flash less than a threshold behind.
  lemma SaveKeepsBehind(n: Node, core: Core, f: u32, p: u32, c: u32, t: Threshold) returns (f': u32)
    requires Behind(n, core, f, p, t) && p <= c
    ensures f <= f' && Behind(SaveStep(n.(stack := ProvisionedStack(core, c)), t), core, f', c, t)
    ensures f' == if c != f && (c % t == 0 || c - f >= t) then c else f
  {
    f' := if c != f && (c % t == 0 || c - f >= t) then c else f;
  }

  // Provisioning completes: the first configuration is always written.
  lemma FirstSave(n: Node, core: Core, t: Threshold)
    requires Blank(n)
    ensures Behind(SaveStep(n.(stack := ProvisionedStack(core, FIRST_SEQUENCE)), t), core, FIRST_SEQUENCE, FIRST_SEQUENCE, t)
  {
  }

  // Booting writes the jumped value, because the hash taken at load never matches the one
  // taken at write-back.
  lemma BootJumps(n: Node, core: Core, f: u32, t: Threshold)
    requires IsProvisioned(n.flash, core, f) && f + 200 < 0x1_0000_0000
    ensures var j := f - f % 100 + 200;
      f + 101 <= j <= f + 200 && Behind(BootStep(n, t), core, j, j, t) && BootStep(n, t).stack == NoStack
  {
  }

  lemma BootBlank(n: Node, t: Threshold)
    requires n.flash.Some? ==> n.flash.value.Unprovisioned?
    ensures Blank(BootStep(n, t))
  {
  }

  // Thresholds and bursts that are safe together: between the value in flash and the end of a turn lie
  // at most 101 numbers. A threshold of two leaves flash behind only at even values, which are one
  // further below the value after a boot.
  predicate Matched(t: Threshold, b: nat) { t + b <= 102 || (t == 2 && b <= 101) }

  lemma BootIsAbove(f: u32, p: u32, t: Threshold, b: nat)
    requires Matched(t, b) && f <= p < f + t && (p == f || p % t != 0)
    ensures p + b <= f - f % 100 + 200
  {
    if f % 100 == 99 { EvenAfter(f); }
  }

  lemma EvenAfter(f: nat)
    requires f % 100 == 99
    ensures (f + 1) % 2 == 0
  {
    var q := f / 100;
    assert f + 1 == 2 * (50 * q + 50);
  }

  lemma NumbersAreConsecutive(c: u32, k: nat)
    requires c + k < 0x1_0000_0000
    ensures forall i | 0 <= i <= k :: After(c, i) == c + i
  {
    forall i | 0 <= i <= k ensures After(c, i) == c + i { AfterIsSum(c, i); }
  }

  function Sent(e: Event): nat { if !e.Reboot? && e.input.Send? then e.input.numbers else 0 }

  lemma SetUpKeepsBehind(n: Node, core: Core, f: u32, p: u32, uuid: nat, t: Threshold)
    requires Behind(n, core, f, p, t)
    ensures SetUpStep(n, uuid, t) == n.(stack := ProvisionedStack(core, p))
  {
  }

  // The work of a turn of a provisioned node: it hands out consecutive numbers from p on.
  lemma WorkOfBehind(n: Node, core: Core, f: u32, p: u32, e: Event, t: Threshold)
    requires Behind(n, core, f, p, t) && !e.Reboot? && p + Sent(e) < 0x1_0000_0000
    ensures WorkStep(SetUpStep(n, e.randomUuid, t), e.input) == n.(stack := ProvisionedStack(core, p + Sent(e)))
    ensures |Numbers(n, e, t)| == Sent(e) && forall i | 0 <= i < Sent(e) :: Numbers(n, e, t)[i] == p + i
  {
    SetUpKeepsBehind(n, core, f, p, e.randomUuid, t);
    NumbersAreConsecutive(p, Sent(e));
  }

  // One event of a provisioned node: the numbers it hands out start at p and are consecutive, and
  // whatever happens the counter resumes above all of them.
  lemma EventOfBehind(n: Node, core: Core, f: u32, p: u32, e: Event, t: Threshold, b: nat)
    returns (f': u32, p': u32)
    requires Behind(n, core, f, p, t) && Burst([e], b) && Matched(t, b)
    requires p + CostOf(e) < 0x1_0000_0000
    ensures Behind(Apply(n, e, t), core, f', p', t)
    ensures forall i | 0 <= i < |Numbers(n, e, t)| :: Numbers(n, e, t)[i] == p + i
    ensures p + |Numbers(n, e, t)| <= p' <= p + CostOf(e)
  {
    assert e in [e];
    if e == Reboot {
      BootJumps(n, core, f, t);
      f' := f - f % 100 + 200;
      p' := f';
    } else {
      WorkOfBehind(n, core, f, p, e, t);
      if e.Completed? {
        f' := SaveKeepsBehind(n, core, f, p, p + Sent(e), t);
        p' := p + Sent(e);
      } else {
        BootJumps(n.(stack := ProvisionedStack(core, p + Sent(e))), core, f, t);
        BootIsAbove(f, p, t, b);
        f' := f - f % 100 + 200;
        p' := f';
      }
    }
  }

  // A node that is provisioned hands out strictly increasing numbers, from p upwards.
  lemma {:induction false} BehindIncreasing(n: Node, core: Core, f: u32, p: u32, events: seq<Event>, t: Threshold, b: nat)
    requires Behind(n, core, f, p, t) && Burst(events, b) && Matched(t, b)
    requires p + Cost(events) < 0x1_0000_0000
    ensures Increasing(Issued(n, events, t))
    ensures forall x | x in Issued(n, events, t) :: p <= x
    decreases |events|
  {
    if events != [] {
      var f', p' := EventOfBehind(n, core, f, p, events[0], t, b);
      BehindIncreasing(Apply(n, events[0], t), core, f', p', events[1..], t, b);
      Append(Numbers(n, events[0], t), Issued(Apply(n, events[0], t), events[1..], t), p, p');
    }
  }

  lemma Append(s: seq<u32>, r: seq<u32>, p: u32, p': u32)
    requires forall i | 0 <= i < |s| :: s[i] == p + i
    requires p + |s| <= p' && (forall x | x in r :: p' <= x) && Increasing(r)
    ensures Increasing(s + r) && forall x | x in s + r :: p <= x
  {
    assert forall i | 0 <= i < |r| :: r[i] in r;
  }

  // A node that is not provisioned hands out nothing until provisioning completes and is written.
  lemma {:induction false} BlankIncreasing(n: Node, events: seq<Event>, t: Threshold, b: nat)
    requires Blank(n) && Burst(events, b) && Matched(t, b)
    requires FIRST_SEQUENCE + Cost(events) < 0x1_0000_0000
    ensures Increasing(Issued(n, events, t))
    decreases |events|
  {
    if events != [] {
      var (e, n') := (events[0], Apply(n, events[0], t));
      assert Numbers(n, e, t) == [];
      assert Issued(n, events, t) == Issued(n', events[1..], t);
      if e == Reboot {
        BootBlank(n, t);
        BlankIncreasing(n', events[1..], t, b);
      } else {
        var ready := SetUpStep(n, e.randomUuid, t);
        assert Blank(ready) && ready.stack.UnprovisionedStack?;
        if e.Completed? && e.input.ProvisioningDone? {
          FirstSave(ready, e.input.core, t);
          BehindIncreasing(n', e.input.core, FIRST_SEQUENCE, FIRST_SEQUENCE, events[1..], t, b);
        } else {
          if e.Interrupted? { BootBlank(WorkStep(ready, e.input), t); }
          assert Blank(n');
          BlankIncreasing(n', events[1..], t, b);
        }
      }
    }
  }

  // A node powered up on any flash content.
  function PowerUp(flash: Option<Configuration>, t: Threshold): Node {
    BootStep(Node(flash, NoLoad, None, NoStack), t)
  }

  function StartBelow(flash: Option<Configuration>): nat {
    if flash.Some? && flash.value.Provisioned? then flash.value.sequence + 200 else FIRST_SEQUENCE
  }

  // No run reuses a number, as long as the 32-bit counter does not wrap, when the write-back
  // threshold plus the numbers one turn may take is at most 102, or 103 for a threshold of two.
  lemma NeverReused(flash: Option<Configuration>, events: seq<Event>, t: Threshold, b: nat)
    requires Matched(t, b) && Burst(events, b) && StartBelow(flash) + Cost(events) < 0x1_0000_0000
    ensures Increasing(Issued(PowerUp(flash, t), events, t))
  {
    var off := Node(flash, NoLoad, None, NoStack);
    if flash.Some? && flash.value.Provisioned? {
      var (core, f) := (flash.value.core, flash.value.sequence);
      BootJumps(off, core, f, t);
      var j := f - f % 100 + 200;
      BehindIncreasing(PowerUp(flash, t), core, j, j, events, t, b);
    } else {
      BootBlank(off, t);
      BlankIncreasing(PowerUp(flash, t), events, t, b);
    }
  }
}
