/** The sequence numbers, and so the nonces, of everything a node sends between two boots. */
module SequenceAssignment {
  import opened Wrappers
  import opened Mesh
  import opened Counter
  import opened Nonce
  import opened NetworkLayer
  import opened DeviceMessages
  import OutboundSegmentation
  import Opcode
  import Storage
  import CrashSafety
  import CrashLimits

  // The numbers of the network PDUs of a message, and of a run of messages.
  function NumbersOf(c: Crypto, deviceKey: nat, m: AccessMessage, counter: u32): seq<u32> {
    match Cleartexts(c, deviceKey, m, counter)
    case Err(_) => []
    case Ok(pdus) => seq(|pdus|, i requires 0 <= i < |pdus| => pdus[i].meta.seqNum)
  }

  function NumbersOfRun(c: Crypto, deviceKey: nat, messages: seq<AccessMessage>, counter: u32): seq<u32> {
    if messages == [] then []
    else
      var rest := NumbersOfRun(c, deviceKey, messages[1..], CounterAfter(c, deviceKey, messages[0], counter));
      NumbersOf(c, deviceKey, messages[0], counter) + rest
  }

  // How many numbers a message takes: one for its nonce, and one more for each further segment. A
  // message that is too long takes the one for its nonce all the same.
  function Taken(m: AccessMessage): nat {
    if |m.Payload()| <= 11 || |m.Payload()| > 376 then 1 else (|m.Payload()| + 4 + 11) / 12
  }

  function TakenByRun(messages: seq<AccessMessage>): nat {
    if messages == [] then 0 else Taken(messages[0]) + TakenByRun(messages[1..])
  }

  // The PDUs of a message carry consecutive numbers, the first of them that of the nonce the message
  // was encrypted under, and the counter resumes after the last.
  lemma MessageNumbers(c: Crypto, deviceKey: nat, m: AccessMessage, counter: u32)
    requires Lawful(c)
    ensures |NumbersOf(c, deviceKey, m, counter)| == (if |m.Payload()| > 376 then 0 else Taken(m))
    ensures forall i | 0 <= i < |NumbersOf(c, deviceKey, m, counter)| ::
      NumbersOf(c, deviceKey, m, counter)[i] == After(counter, i)
    ensures CounterAfter(c, deviceKey, m, counter) == After(counter, Taken(m))
  {
    if 11 < |m.Payload()| <= 376 {
      forall i | 0 <= i < Taken(m) ensures NumbersOf(c, deviceKey, m, counter)[i] == After(counter, i) {
        SegmentNumber(m, counter, i);
      }
      AfterIncrement(counter, Taken(m) - 1);
    }
  }

  predicate IncreasingWithin(lo: nat, s: seq<u32>, hi: nat) {
    && (forall i | 0 <= i < |s| :: lo <= s[i] < hi)
    && forall i, j | 0 <= i < j < |s| :: s[i] < s[j]
  }

  lemma Join(lo: nat, a: seq<u32>, mid: nat, b: seq<u32>, hi: nat)
    requires IncreasingWithin(lo, a, mid) && IncreasingWithin(mid, b, hi) && lo <= mid <= hi
    ensures IncreasingWithin(lo, a + b, hi)
  {
  }

  lemma Consecutive(s: seq<u32>, counter: u32, k: nat)
    requires |s| <= k && counter + k < 0x1_0000_0000 && forall i | 0 <= i < |s| :: s[i] == After(counter, i)
    ensures After(counter, k) == counter + k && IncreasingWithin(counter, s, counter + k)
  {
    AfterIsSum(counter, k);
    forall i | 0 <= i < |s| ensures s[i] == counter + i { AfterIsSum(counter, i); }
  }

  lemma MessageIncreases(c: Crypto, deviceKey: nat, m: AccessMessage, counter: u32)
    requires Lawful(c) && counter + Taken(m) < 0x1_0000_0000
    ensures CounterAfter(c, deviceKey, m, counter) == counter + Taken(m)
    ensures IncreasingWithin(counter, NumbersOf(c, deviceKey, m, counter), counter + Taken(m))
  {
    MessageNumbers(c, deviceKey, m, counter);
    Consecutive(NumbersOf(c, deviceKey, m, counter), counter, Taken(m));
  }

  // Over any run of messages, no two network PDUs carry the same number.
  lemma {:induction false} RunNumbersIncrease(c: Crypto, deviceKey: nat, messages: seq<AccessMessage>, counter: u32)
    requires Lawful(c) && counter + TakenByRun(messages) < 0x1_0000_0000
    ensures IncreasingWithin(counter, NumbersOfRun(c, deviceKey, messages, counter), counter + TakenByRun(messages))
    decreases |messages|
  {
    if messages != [] {
      var (m, rest) := (messages[0], messages[1..]);
      var next := CounterAfter(c, deviceKey, m, counter);
      MessageIncreases(c, deviceKey, m, counter);
      RunNumbersIncrease(c, deviceKey, rest, next);
      Join(counter, NumbersOf(c, deviceKey, m, counter), next, NumbersOfRun(c, deviceKey, rest, next),
           counter + TakenByRun(messages));
    }
  }

  // While the numbers have 24 bits, the network nonces of a run are pairwise distinct, whatever the
  // TTLs, sources and IV indices.
  lemma RunNoncesDistinct(c: Crypto, deviceKey: nat, messages: seq<AccessMessage>, counter: u32, i: nat, j: nat,
                          t1: byte, s1: u16, v1: u32, t2: byte, s2: u16, v2: u32)
    requires Lawful(c) && counter + TakenByRun(messages) <= 0x100_0000
    requires i < j < |NumbersOfRun(c, deviceKey, messages, counter)|
    ensures var numbers := NumbersOfRun(c, deviceKey, messages, counter);
      NetworkNonce(t1, numbers[i], s1, v1) != NetworkNonce(t2, numbers[j], s2, v2)
  {
    RunNumbersIncrease(c, deviceKey, messages, counter);
    var numbers := NumbersOfRun(c, deviceKey, messages, counter);
    NetworkNoncesEqual(t1, numbers[i], s1, v1, t2, numbers[j], s2, v2);
    Small(numbers[i]);
    Small(numbers[j]);
  }

  lemma Small(x: u32)
    requires x < 0x100_0000
    ensures x % 0x100_0000 == x
  {
  }

  // The most numbers that a message of up to n octets takes.
  function MostTaken(n: nat): nat { if n <= 11 then 1 else if n <= 376 then (n + 4 + 11) / 12 else 32 }

  lemma MostTakenBounds(m: AccessMessage, n: nat)
    requires |m.Payload()| <= n
    ensures 0 < Taken(m) <= MostTaken(n)
  {
  }

  // A message of up to n octets that takes k numbers.
  lemma MessageTaking(k: nat, n: nat) returns (m: AccessMessage)
    requires 0 < k <= MostTaken(n) && n > 0
    ensures |m.Payload()| <= n && Taken(m) == k
  {
    var size := if k == 1 then 1 else if k == 2 then 12 else 12 * k - 15;
    m := AccessMessage(Opcode.OneOctet(0), seq(size - 1, _ => 0), 0, 0, 0, 0);
    assert |m.Payload()| == size;
  }

  // A turn that sends takes as many numbers as some message of up to n octets.
  ghost predicate Sending(e: CrashSafety.Event, n: nat) {
    e.Reboot? || !e.input.Send? || exists m: AccessMessage :: |m.Payload()| <= n && e.input.numbers == Taken(m)
  }

  // No run whose turns send messages of up to n octets each ever reuses a number.
  ghost predicate SafeForMessages(t: Storage.Threshold, n: nat) {
    forall flash, events: seq<CrashSafety.Event> |
      && (forall e | e in events :: Sending(e, n))
      && CrashSafety.StartBelow(flash) + CrashSafety.Cost(events) < 0x1_0000_0000 ::
      CrashSafety.Distinct(CrashSafety.Issued(CrashSafety.PowerUp(flash, t), events, t))
  }

  lemma SendingBounds(events: seq<CrashSafety.Event>, n: nat)
    requires forall e | e in events :: Sending(e, n)
    ensures CrashSafety.Burst(events, MostTaken(n))
  {
    forall e | e in events && !e.Reboot? && e.input.Send? ensures e.input.numbers <= MostTaken(n) {
      assert Sending(e, n);
      var m: AccessMessage :| |m.Payload()| <= n && e.input.numbers == Taken(m);
      MostTakenBounds(m, n);
    }
  }

  lemma TurnsAreSending(events: seq<CrashSafety.Event>, b: nat, n: nat)
    requires CrashLimits.Turns(events, b) && 3 <= b <= MostTaken(n)
    ensures forall e | e in events :: Sending(e, n)
  {
    forall e | e in events ensures Sending(e, n) {
      if !e.Reboot? && e.input.Send? {
        var m := MessageTaking(e.input.numbers, n);
      }
    }
  }

  // For every threshold of at most one hundred: a node that sends messages of up to n octets never
  // reuses a number after a crash exactly when the most that such a message takes is covered.
  lemma SafeForMessagesExactly(t: Storage.Threshold, n: nat)
    requires t <= 100
    ensures SafeForMessages(t, n) <==> CrashSafety.Matched(t, MostTaken(n))
  {
    if CrashSafety.Matched(t, MostTaken(n)) {
      forall flash, events: seq<CrashSafety.Event> |
        && (forall e | e in events :: Sending(e, n))
        && CrashSafety.StartBelow(flash) + CrashSafety.Cost(events) < 0x1_0000_0000
        ensures CrashSafety.Distinct(CrashSafety.Issued(CrashSafety.PowerUp(flash, t), events, t))
      {
        SendingBounds(events, n);
        CrashSafety.NeverReused(flash, events, t, MostTaken(n));
      }
    } else {
      var core := Storage.Core(0, 0, 0);
      var events := CrashLimits.Reuse(core, t);
      TurnsAreSending(events, 102 - CrashLimits.Lag(t), n);
      assert CrashSafety.StartBelow(Some(Storage.Provisioned(core, 0, 0))) + CrashSafety.Cost(events) < 0x1_0000_0000;
    }
  }

  // With the threshold of one hundred: exactly when n is at most twenty.
  lemma SafeForPayloads(n: nat)
    ensures SafeForMessages(CrashLimits.HUNDRED, n) <==> n <= 20
  {
    SafeForMessagesExactly(CrashLimits.HUNDRED, n);
  }
}
