/** Which write-back thresholds and bursts let a node reuse a sequence number after a crash: a run that
    does, for every pair that the invariant of CrashSafety does not cover. */
module CrashLimits {
  import opened Wrappers
  import opened Mesh
  import opened Counter
  import opened Storage
  import opened CrashSafety

  // A running node whose cache stands at v while flash holds f.
  function At(core: Core, f: u32, v: u32): Node {
    Node(Some(Provisioned(core, f, 0)), LoadedProvisioned(OfTaggedCore(core), f),
         Some(Provisioned(core, v, 0)), ProvisionedStack(core, v))
  }

  function Taking(k: nat): Event { Completed(0, Send(k)) }

  // Every turn takes at least one number, at most three, or exactly b.
  predicate Turns(events: seq<Event>, b: nat) {
    forall e | e in events :: !e.Reboot? && e.input.Send? ==> 0 < e.input.numbers <= 3 || e.input.numbers == b
  }

  const LIMIT: nat := 20000

  lemma TurnFromAt(core: Core, f: u32, v: u32, k: nat, t: Threshold)
    requires f <= v && v + k < LIMIT && k > 0
    ensures var c := v + k;
      Apply(At(core, f, v), Taking(k), t) == At(core, if c % t == 0 || c - f >= t then c else f, c)
  {
    NumbersAreConsecutive(v, k);
  }

  lemma {:induction false} RunConcat(n: Node, a: seq<Event>, b: seq<Event>, t: Threshold)
    ensures Run(n, a + b, t) == Run(Run(n, a, t), b, t)
    ensures Issued(n, a + b, t) == Issued(n, a, t) + Issued(Run(n, a, t), b, t)
    ensures Cost(a + b) == Cost(a) + Cost(b)
    decreases |a|
  {
    if a == [] {
      assert a + b == b;
    } else {
      assert (a + b)[0] == a[0] && (a + b)[1..] == a[1..] + b;
      RunConcat(Apply(n, a[0], t), a[1..], b, t);
    }
  }

  // A run that has brought the node to flash f and cache v, at the cost of as many numbers.
  ghost predicate Reaches(n: Node, events: seq<Event>, core: Core, f: nat, v: nat, t: Threshold, b: nat) {
    && f <= v < LIMIT && Turns(events, b) && v >= 200 && Cost(events) == v - 200
    && Run(n, events, t) == At(core, f, v)
  }

  lemma OneTurn(n: Node, e: Event, t: Threshold)
    ensures Run(n, [e], t) == Apply(n, e, t) && Cost([e]) == CostOf(e)
  {
    assert [e][1..] == [];
  }

  // One more turn at the end of a run.
  lemma Extend(n: Node, events: seq<Event>, k: nat, core: Core, f: nat, v: nat, t: Threshold, b: nat)
    requires Reaches(n, events, core, f, v, t, b) && 0 < k <= 3 && v + k < LIMIT
    ensures var c := v + k;
      Reaches(n, events + [Taking(k)], core, if c % t == 0 || c - f >= t then c else f, c, t, b)
  {
    RunConcat(n, events, [Taking(k)], t);
    OneTurn(At(core, f, v), Taking(k), t);
    TurnFromAt(core, f, v, k, t);
  }

  lemma NotBothMultiples(v: nat, t: Threshold)
    requires t >= 2
    ensures v % t != 0 || (v + 1) % t != 0
  {
    if v % t == 0 && (v + 1) % t == 0 { DividesOne(t, v / t, (v + 1) / t); }
  }

  lemma DividesOne(t: nat, x: int, y: int)
    requires t * y == t * x + 1
    ensures t == 1
  {
    assert t * (y - x) == 1;
  }

  // Numbers can be taken up to a threshold past the value in flash without a write, as long as no
  // turn ends on a multiple of the threshold.
  lemma {:induction false} Advance(n: Node, events: seq<Event>, core: Core, f: nat, v: nat, t: Threshold, b: nat)
    returns (more: seq<Event>)
    requires Reaches(n, events, core, f, f, t, b) && f <= v < f + t && v < LIMIT && (v == f || v % t != 0)
    ensures Reaches(n, more, core, f, v, t, b)
    decreases v
  {
    if v == f {
      more := events;
    } else if v - 1 == f || (v - 1) % t != 0 {
      more := Advance(n, events, core, f, v - 1, t, b);
      Extend(n, more, 1, core, f, v - 1, t, b);
      more := more + [Taking(1)];
    } else {
      NotBothMultiples(v - 2, t);
      more := Advance(n, events, core, f, v - 2, t, b);
      Extend(n, more, 2, core, f, v - 2, t, b);
      more := more + [Taking(2)];
    }
  }

  // From g, walk close to a threshold past it, then step onto g + t or g + t + 1, which is written.
  lemma Cycle(n: Node, before: seq<Event>, core: Core, g: nat, extra: nat, t: Threshold,
              b: nat) returns (events: seq<Event>)
    requires Reaches(n, before, core, g, g, t, b) && extra <= 1 && g + t + extra < LIMIT
    ensures Reaches(n, events, core, g + t + extra, g + t + extra, t, b)
  {
    var v := if t == 1 || (g + t - 1) % t != 0 then g + t - 1 else g + t - 2;
    if t > 1 { NotBothMultiples(g + t - 2, t); }
    events := Advance(n, before, core, g, v, t, b);
    Extend(n, events, g + t + extra - v, core, g, v, t, b);
    events := events + [Taking(g + t + extra - v)];
  }

  // Where flash stands after i cycles, the first r of which are one longer.
  function FlashAfter(i: nat, r: nat, t: Threshold): nat {
    if i == 0 then 200 else FlashAfter(i - 1, r, t) + t + (if i <= r then 1 else 0)
  }

  lemma {:induction false} FlashAfterIs(i: nat, r: nat, t: Threshold)
    ensures FlashAfter(i, r, t) == 200 + i * t + (if i <= r then i else r)
  {
    if i > 0 {
      FlashAfterIs(i - 1, r, t);
      assert (i - 1) * t + t == i * t;
    }
  }

  lemma {:induction false} Cycles(n: Node, first: seq<Event>, core: Core, i: nat, r: nat, t: Threshold, b: nat)
    returns (events: seq<Event>)
    requires Reaches(n, first, core, 200, 200, t, b) && FlashAfter(i, r, t) < LIMIT
    ensures Reaches(n, events, core, FlashAfter(i, r, t), FlashAfter(i, r, t), t, b)
  {
    if i == 0 {
      events := first;
    } else {
      events := Cycles(n, first, core, i - 1, r, t, b);
      events := Cycle(n, events, core, FlashAfter(i - 1, r, t), if i <= r then 1 else 0, t, b);
    }
  }

  lemma Product(q: nat, t: nat)
    requires t <= 100
    ensures q < t ==> q * t <= 9900
  {
    if q < t { assert q * t <= 99 * t; }
  }

  // Flash can be moved to any value from 10200 on.
  lemma ReachFlash(n: Node, first: seq<Event>, core: Core, f: nat, t: Threshold, b: nat) returns (events: seq<Event>)
    requires Reaches(n, first, core, 200, 200, t, b) && t <= 100 && 10200 <= f < LIMIT
    ensures Reaches(n, events, core, f, f, t, b)
  {
    var (q, r) := ((f - 200) / t, (f - 200) % t);
    assert q * t + r == f - 200;
    Product(q, t);
    FlashAfterIs(q, r, t);
    events := Cycles(n, first, core, q, r, t, b);
  }

  // ---------------------------------------------------------------- the crash

  // The numbers up to f + 101 are handed out just before a crash, and f + 101 again just after it.
  lemma RepeatsAfterCrash(core: Core, f: nat, lag: nat, t: Threshold, b: nat)
    requires f % 100 == 99 && f + 300 < LIMIT && lag + b == 102 && b > 0
    ensures var r := Issued(At(core, f, f + lag), [Interrupted(0, Send(b)), Taking(1)], t);
      |r| == b + 1 && r[b - 1] == f + 101 && r[b] == f + 101
  {
    var (n, e, l) := (At(core, f, f + lag), Interrupted(0, Send(b)), Taking(1));
    NumbersAreConsecutive(f + lag, b);
    NumbersAreConsecutive(f + 101, 1);
    assert [e, l][1..] == [l] && [l][1..] == [];
    var booted := Apply(n, e, t);
    assert booted.cached == Some(Provisioned(core, f + 101, 0));
    assert Issued(booted, [l], t) == Numbers(booted, l, t);
  }

  lemma CostOfCrash(b: nat)
    ensures Cost([Interrupted(0, Send(b)), Taking(1)]) == b + 201
  {
    assert [Interrupted(0, Send(b)), Taking(1)][1..] == [Taking(1)] && [Taking(1)][1..] == [];
  }

  lemma RepeatInSuffix(a: seq<u32>, r: seq<u32>, i: nat, j: nat)
    requires i < j < |r| && r[i] == r[j]
    ensures !Distinct(a + r)
  {
    assert (a + r)[|a| + i] == r[i] && (a + r)[|a| + j] == r[j];
  }

  // From offset 99, when flash can lag so far behind that the burst ends on the value after the boot.
  lemma ReuseFrom(n: Node, first: seq<Event>, core: Core, f: nat, lag: nat, t: Threshold,
                  b: nat) returns (events: seq<Event>)
    requires Reaches(n, first, core, f, f, t, b) && f % 100 == 99 && f + 300 < LIMIT
    requires lag < t && (lag == 0 || (f + lag) % t != 0) && lag + b == 102 && b > 0
    ensures Turns(events, b) && Cost(events) <= LIMIT && !Distinct(Issued(n, events, t))
  {
    var rest := [Interrupted(0, Send(b)), Taking(1)];
    var before := Advance(n, first, core, f, f + lag, t, b);
    RepeatsAfterCrash(core, f, lag, t, b);
    CostOfCrash(b);
    RunConcat(n, before, rest, t);
    RepeatInSuffix(Issued(n, before, t), Issued(At(core, f, f + lag), rest, t), b - 1, b);
    events := before + rest;
  }

  // ---------------------------------------------------------------- the exact limits

  // Two values at offset 99, one of which lets flash lag behind by the whole threshold but one.
  lemma OffsetFor(t: Threshold) returns (f: nat)
    requires t <= 100 && t != 2
    ensures f in {10299, 10399} && (t == 1 || (f + t - 1) % t != 0)
  {
    f := if (10298 + t) % t != 0 then 10299 else 10399;
    if t > 1 && (10298 + t) % t == 0 && (10398 + t) % t == 0 {
      var (x, y) := ((10298 + t) / t, (10398 + t) / t);
      assert t * x == 10298 + t && t * y == 10398 + t;
      assert t * (y - x) == 100;
      assert t * (x - 1 - 102 * (y - x)) == 98;
      DividesTwo(t, y - x, x - 1 - 102 * (y - x));
    }
  }

  lemma DividesTwo(t: nat, a: int, b: int)
    requires t * a == 100 && t * b == 98
    ensures t <= 2
  {
    assert t * (a - b) == 2;
  }

  function Fresh(core: Core, t: Threshold): Node { PowerUp(Some(Provisioned(core, 0, 0)), t) }

  lemma FirstTurn(core: Core, t: Threshold, b: nat)
    ensures Reaches(Fresh(core, t), [Completed(0, Idle)], core, 200, 200, t, b)
  {
    OneTurn(Fresh(core, t), Completed(0, Idle), t);
  }

  // How far flash can lag behind at offset 99.
  function Lag(t: Threshold): nat { if t == 2 then 0 else t - 1 }

  // A node of any threshold up to one hundred reuses a number in some run whose turns take up to three
  // numbers, or as many as bring the last one to that after the boot.
  lemma Reuse(core: Core, t: Threshold) returns (events: seq<Event>)
    requires t <= 100
    ensures Turns(events, 102 - Lag(t)) && Cost(events) <= LIMIT && !Distinct(Issued(Fresh(core, t), events, t))
  {
    var f, b := 10299, 102 - Lag(t);
    if t != 2 { f := OffsetFor(t); }
    FirstTurn(core, t, b);
    events := ReachFlash(Fresh(core, t), [Completed(0, Idle)], core, f, t, b);
    events := ReuseFrom(Fresh(core, t), events, core, f, Lag(t), t, b);
  }

  // No run whose turns take at most b numbers each ever reuses one.
  ghost predicate Safe(t: Threshold, b: nat) {
    forall flash, events | Burst(events, b) && StartBelow(flash) + Cost(events) < 0x1_0000_0000 ::
      Distinct(Issued(PowerUp(flash, t), events, t))
  }

  // For every threshold of at most one hundred, exactly the bursts that the invariant covers are safe.
  lemma SafeExactly(t: Threshold, b: nat)
    requires t <= 100
    ensures Safe(t, b) <==> Matched(t, b)
  {
    if Matched(t, b) {
      forall flash, events | Burst(events, b) && StartBelow(flash) + Cost(events) < 0x1_0000_0000
        ensures Distinct(Issued(PowerUp(flash, t), events, t))
      {
        NeverReused(flash, events, t, b);
      }
    } else {
      var core := Core(0, 0, 0);
      var events := Reuse(core, t);
      assert Burst(events, b) && StartBelow(Some(Provisioned(core, 0, 0))) + Cost(events) < 0x1_0000_0000;
    }
  }

  const HUNDRED: Threshold := 100

  // With the threshold of one hundred the node is safe exactly when no turn takes more than two
  // numbers, that is, when no message needs more than two segments.
  lemma SafeAtHundred(b: nat)
    ensures Safe(HUNDRED, b) <==> b <= 2
  {
    SafeExactly(HUNDRED, b);
  }
}
