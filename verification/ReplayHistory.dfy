/** Whole runs of the replay check: when the bounded cache is as good as an unbounded memory. */
module ReplayHistory {
  import opened Wrappers
  import opened Mesh
  import opened ReplayProtection

  // The cache after a run, starting empty, and the verdict on the last PDU of the run.
  function CacheAfter(pdus: seq<Pdu>, capacity: nat): seq<Entry> {
    if pdus == [] then [] else Truncate(Judge(CacheAfter(Front(pdus), capacity), Last(pdus)).0, capacity)
  }

  predicate Verdict(pdus: seq<Pdu>, capacity: nat)
    requires pdus != []
  {
    Judge(CacheAfter(Front(pdus), capacity), Last(pdus)).1
  }

  // The memory that never forgets: the newest (IV, sequence number) accepted from each source.
  function Memory(pdus: seq<Pdu>): map<u16, Entry> {
    if pdus == [] then map[] else Remember(Memory(Front(pdus)), Last(pdus))
  }

  function Remember(m: map<u16, Entry>, pdu: Pdu): map<u16, Entry> {
    if Rejects(m, pdu) then m else m[pdu.src := pdu.AsEntry()]
  }

  predicate Rejects(m: map<u16, Entry>, pdu: Pdu) {
    pdu.src in m && !Newer(pdu.AsEntry(), m[pdu.src])
  }

  predicate IdealVerdict(pdus: seq<Pdu>)
    requires pdus != []
  {
    Rejects(Memory(Front(pdus)), Last(pdus))
  }

  // The sources other than src heard since the last PDU of src.
  function HeardSince(pdus: seq<Pdu>, src: u16): set<u16> {
    if pdus == [] || Last(pdus).src == src then {}
    else HeardSince(Front(pdus), src) + {Last(pdus).src}
  }

  function Heard(pdus: seq<Pdu>): set<u16> {
    if pdus == [] then {} else Heard(Front(pdus)) + {Last(pdus).src}
  }

  // A cache that never evicts, most recently heard source first.
  function Unlimited(pdus: seq<Pdu>): seq<Entry> {
    if pdus == [] then [] else Judge(Unlimited(Front(pdus)), Last(pdus)).0
  }

  // ---------------------------------------------------------------- the unlimited cache

  function Sources(cache: seq<Entry>): set<u16> {
    if cache == [] then {} else {cache[0].src} + Sources(cache[1..])
  }

  // The sources listed in front of src.
  function Before(cache: seq<Entry>, src: u16): set<u16> {
    if cache == [] || cache[0].src == src then {} else {cache[0].src} + Before(cache[1..], src)
  }

  // One entry per source, and it is the one remembered.
  predicate Lists(cache: seq<Entry>, m: map<u16, Entry>) {
    cache == [] ||
    (cache[0].src in m && m[cache[0].src] == cache[0] && cache[0].src !in Sources(cache[1..]) && Lists(cache[1..], m))
  }

  lemma {:induction false} FoundInList(cache: seq<Entry>, m: map<u16, Entry>, src: u16)
    requires Lists(cache, m)
    ensures src in Sources(cache) <==> IndexOf(cache, src) < |cache|
    ensures src in Sources(cache) ==> src in m && cache[IndexOf(cache, src)] == m[src]
    ensures |Before(cache, src)| == IndexOf(cache, src)
    ensures Before(cache, src) <= Sources(cache)
  {
    if cache != [] && cache[0].src != src {
      FoundInList(cache[1..], m, src);
    }
  }

  lemma {:induction false} RestOfList(cache: seq<Entry>, m: map<u16, Entry>, src: u16)
    requires Lists(cache, m)
    ensures Sources(Rest(cache, src)) == Sources(cache) - {src}
    ensures Lists(Rest(cache, src), m)
  {
    if cache != [] && cache[0].src != src {
      RestOfList(cache[1..], m, src);
      assert Rest(cache, src)[1..] == Rest(cache[1..], src);
    }
  }

  lemma {:induction false} BeforeInRest(cache: seq<Entry>, m: map<u16, Entry>, other: u16, src: u16)
    requires Lists(cache, m) && other != src && src in Sources(cache)
    ensures Before(Rest(cache, other), src) == Before(cache, src) - {other}
  {
    FoundInList(cache, m, src);
    if cache[0].src == src {
    } else if cache[0].src == other {
      FoundInList(cache[1..], m, src);
    } else {
      BeforeInRest(cache[1..], m, other, src);
      assert Rest(cache, other)[1..] == Rest(cache[1..], other);
    }
  }

  lemma {:induction false} ListsOther(cache: seq<Entry>, m: map<u16, Entry>, e: Entry)
    requires Lists(cache, m) && e.src !in Sources(cache)
    ensures Lists(cache, m[e.src := e])
  {
    if cache != [] { ListsOther(cache[1..], m, e); }
  }

  lemma VerdictOfList(cache: seq<Entry>, m: map<u16, Entry>, pdu: Pdu)
    requires Lists(cache, m) && Sources(cache) == m.Keys
    ensures Judge(cache, pdu).1 == Rejects(m, pdu)
    ensures Judge(cache, pdu).0 == [Remember(m, pdu)[pdu.src]] + Rest(cache, pdu.src)
  {
    FoundInList(cache, m, pdu.src);
  }

  lemma JudgeOfList(cache: seq<Entry>, m: map<u16, Entry>, pdu: Pdu)
    requires Lists(cache, m) && Sources(cache) == m.Keys
    ensures Judge(cache, pdu).1 == Rejects(m, pdu)
    ensures Lists(Judge(cache, pdu).0, Remember(m, pdu))
    ensures Sources(Judge(cache, pdu).0) == m.Keys + {pdu.src}
  {
    VerdictOfList(cache, m, pdu);
    RestOfList(cache, m, pdu.src);
    ListsOther(Rest(cache, pdu.src), m, pdu.AsEntry());
    RememberedIsOwn(cache, m, pdu);
    ConsOfList(Remember(m, pdu)[pdu.src], Rest(cache, pdu.src), Remember(m, pdu));
  }

  lemma RememberedIsOwn(cache: seq<Entry>, m: map<u16, Entry>, pdu: Pdu)
    requires Lists(cache, m) && Sources(cache) == m.Keys
    ensures Remember(m, pdu)[pdu.src].src == pdu.src
  {
    FoundInList(cache, m, pdu.src);
  }

  lemma ConsOfList(e: Entry, rest: seq<Entry>, m: map<u16, Entry>)
    requires Lists(rest, m) && e.src !in Sources(rest) && e.src in m && m[e.src] == e
    ensures Lists([e] + rest, m) && Sources([e] + rest) == Sources(rest) + {e.src}
  {
    assert ([e] + rest)[1..] == rest;
  }

  // The unlimited cache is the memory, listed by recency.
  lemma {:induction false} UnlimitedListsMemory(pdus: seq<Pdu>)
    ensures Lists(Unlimited(pdus), Memory(pdus))
    ensures Sources(Unlimited(pdus)) == Memory(pdus).Keys == Heard(pdus)
  {
    if pdus != [] {
      UnlimitedListsMemory(Front(pdus));
      JudgeOfList(Unlimited(Front(pdus)), Memory(Front(pdus)), Last(pdus));
    }
  }

  // The position of a source in the unlimited cache is the number of other sources heard since.
  lemma {:induction false} BeforeIsHeardSince(pdus: seq<Pdu>, src: u16)
    requires src in Heard(pdus)
    ensures Before(Unlimited(pdus), src) == HeardSince(pdus, src)
  {
    var (front, pdu, cache) := (Front(pdus), Last(pdus), Unlimited(pdus));
    if pdu.src != src {
      BeforeIsHeardSince(front, src);
      UnlimitedListsMemory(front);
      BeforeInRest(Unlimited(front), Memory(front), pdu.src, src);
      assert cache[1..] == Rest(Unlimited(front), pdu.src);
    }
  }

  lemma Position(pdus: seq<Pdu>, src: u16)
    ensures IndexOf(Unlimited(pdus), src) == if src in Heard(pdus) then |HeardSince(pdus, src)| else |Unlimited(pdus)|
    ensures src in Heard(pdus) ==> |HeardSince(pdus, src)| < |Unlimited(pdus)|
  {
    UnlimitedListsMemory(pdus);
    FoundInList(Unlimited(pdus), Memory(pdus), src);
    if src in Heard(pdus) { BeforeIsHeardSince(pdus, src); }
  }

  // ---------------------------------------------------------------- the cache against the memory

  // A source the cache has had to evict: it was heard, and since then so were `capacity` others.
  predicate Forgotten(pdus: seq<Pdu>, src: u16, capacity: nat) {
    src in Heard(pdus) && |HeardSince(pdus, src)| >= capacity
  }

  // No PDU of the run comes from a source that had been forgotten when it arrived.
  predicate AlwaysRecent(pdus: seq<Pdu>, capacity: nat) {
    pdus == [] ||
    (AlwaysRecent(Front(pdus), capacity) && !Forgotten(Front(pdus), Last(pdus).src, capacity))
  }

  lemma {:induction false} PrefixIndex(cache: seq<Entry>, src: u16, k: nat)
    requires k <= |cache|
    ensures IndexOf(cache[..k], src) == if IndexOf(cache, src) < k then IndexOf(cache, src) else k
  {
    if k > 0 && cache[0].src != src {
      assert cache[..k][1..] == cache[1..][..k - 1];
      PrefixIndex(cache[1..], src, k - 1);
    }
  }

  lemma {:induction false} PrefixRest(cache: seq<Entry>, src: u16, k: nat)
    requires k < |cache|
    ensures IndexOf(cache, src) < k ==> |Rest(cache, src)| >= k
    ensures Rest(cache[..k], src) ==
      if IndexOf(cache, src) < k then Rest(cache, src)[..k - 1] else cache[..k]
  {
    if k > 0 && cache[0].src != src {
      assert cache[..k][1..] == cache[1..][..k - 1];
      PrefixRest(cache[1..], src, k - 1);
    }
  }

  lemma {:induction false} AbsentRest(cache: seq<Entry>, src: u16)
    requires IndexOf(cache, src) == |cache|
    ensures Rest(cache, src) == cache
  {
    if cache != [] { AbsentRest(cache[1..], src); }
  }

  lemma TruncateCons(e: Entry, s: seq<Entry>, k: nat, capacity: nat)
    requires capacity <= k + 1 && k <= |s|
    ensures Truncate([e] + s[..k], capacity) == Truncate([e] + s, capacity)
  {
  }

  // One PDU on a truncated cache: the same verdict and the same future when its source has not
  // been evicted, and an acceptance when it has.
  lemma JudgeOfTruncated(cache: seq<Entry>, pdu: Pdu, capacity: nat)
    ensures IndexOf(cache, pdu.src) < capacity || IndexOf(cache, pdu.src) == |cache| ==>
      && Judge(Truncate(cache, capacity), pdu).1 == Judge(cache, pdu).1
      && Truncate(Judge(Truncate(cache, capacity), pdu).0, capacity) == Truncate(Judge(cache, pdu).0, capacity)
    ensures capacity <= IndexOf(cache, pdu.src) ==> !Judge(Truncate(cache, capacity), pdu).1
  {
    if |cache| > capacity {
      PrefixIndex(cache, pdu.src, capacity);
      PrefixRest(cache, pdu.src, capacity);
      var front := Judge(cache, pdu).0[0];
      if IndexOf(cache, pdu.src) == |cache| {
        AbsentRest(cache, pdu.src);
        TruncateCons(front, cache, capacity, capacity);
      } else if IndexOf(cache, pdu.src) < capacity {
        TruncateCons(front, Rest(cache, pdu.src), capacity - 1, capacity);
      }
    }
  }

  // The cache is the memory cut down to the most recent sources, as long as nobody was forgotten.
  lemma {:induction false} CacheOfRecentRun(pdus: seq<Pdu>, capacity: nat)
    requires AlwaysRecent(pdus, capacity)
    ensures CacheAfter(pdus, capacity) == Truncate(Unlimited(pdus), capacity)
  {
    if pdus != [] {
      CacheOfRecentRun(Front(pdus), capacity);
      Position(Front(pdus), Last(pdus).src);
      JudgeOfTruncated(Unlimited(Front(pdus)), Last(pdus), capacity);
    }
  }

  // In a run in which nobody was forgotten before, the cache gives the verdict of the memory that
  // never forgets, unless the last PDU is a replay from a source that has been forgotten.
  lemma VerdictIsIdeal(pdus: seq<Pdu>, capacity: nat)
    requires pdus != [] && AlwaysRecent(Front(pdus), capacity)
    ensures Verdict(pdus, capacity) == IdealVerdict(pdus) <==>
            !(Forgotten(Front(pdus), Last(pdus).src, capacity) && IdealVerdict(pdus))
  {
    var (front, pdu) := (Front(pdus), Last(pdus));
    CacheOfRecentRun(front, capacity);
    UnlimitedListsMemory(front);
    JudgeOfList(Unlimited(front), Memory(front), pdu);
    Position(front, pdu.src);
    JudgeOfTruncated(Unlimited(front), pdu, capacity);
  }

  lemma {:induction false} RecentPrefix(pdus: seq<Pdu>, capacity: nat, k: nat)
    requires AlwaysRecent(pdus, capacity) && k <= |pdus|
    ensures AlwaysRecent(pdus[..k], capacity)
  {
    if k < |pdus| {
      RecentPrefix(Front(pdus), capacity, k);
      assert Front(pdus)[..k] == pdus[..k];
    } else {
      assert pdus[..k] == pdus;
    }
  }

  // Whole runs: every verdict is that of the memory that never forgets.
  lemma CacheRefinesMemory(pdus: seq<Pdu>, capacity: nat, k: nat)
    requires AlwaysRecent(pdus, capacity) && k < |pdus|
    ensures Verdict(pdus[..k + 1], capacity) == IdealVerdict(pdus[..k + 1])
  {
    RecentPrefix(pdus, capacity, k + 1);
    VerdictIsIdeal(pdus[..k + 1], capacity);
  }

  predicate IdeallyAccepted(pdus: seq<Pdu>, k: nat)
    requires k < |pdus|
  {
    !IdealVerdict(pdus[..k + 1])
  }

  // The memory holds the newest accepted PDU of every source.
  lemma {:induction false} MemoryIsNewest(pdus: seq<Pdu>, i: nat)
    requires i < |pdus| && IdeallyAccepted(pdus, i)
    ensures pdus[i].src in Memory(pdus)
    ensures var newest := Memory(pdus)[pdus[i].src];
      newest == pdus[i].AsEntry() || Newer(newest, pdus[i].AsEntry())
  {
    if i == |pdus| - 1 {
      assert pdus[..i + 1] == pdus;
    } else {
      assert Front(pdus)[..i + 1] == pdus[..i + 1];
      MemoryIsNewest(Front(pdus), i);
    }
  }

  lemma {:induction false} MemoryWasAccepted(pdus: seq<Pdu>, src: u16) returns (i: nat)
    requires src in Memory(pdus)
    ensures i < |pdus| && pdus[i].src == src && IdeallyAccepted(pdus, i) && Memory(pdus)[src] == pdus[i].AsEntry()
  {
    if src == Last(pdus).src && !IdealVerdict(pdus) {
      i := |pdus| - 1;
      assert pdus[..i + 1] == pdus;
    } else {
      i := MemoryWasAccepted(Front(pdus), src);
      assert Front(pdus)[..i + 1] == pdus[..i + 1];
    }
  }

  // Whether the cache lets PDU k of the run through.
  predicate Accepted(pdus: seq<Pdu>, k: nat, capacity: nat)
    requires k < |pdus|
  {
    !Verdict(pdus[..k + 1], capacity)
  }

  // Order on the sixteen low bits of the IV index and then on the number, in arithmetic.
  predicate Above(a: Pdu, b: Pdu) {
    || a.ivIndex % 0x1_0000 > b.ivIndex % 0x1_0000
    || (a.ivIndex % 0x1_0000 == b.ivIndex % 0x1_0000 && a.seqNum > b.seqNum)
  }

  lemma NewerIsAbove(a: Pdu, b: Pdu)
    ensures Newer(a.AsEntry(), b.AsEntry()) <==> Above(a, b)
  {
  }

  // In a run in which nobody was forgotten, the cache accepts a PDU exactly when it is above every PDU
  // accepted from its source before.
  lemma AcceptedExactly(pdus: seq<Pdu>, k: nat, capacity: nat)
    requires AlwaysRecent(pdus, capacity) && k < |pdus|
    ensures Accepted(pdus, k, capacity) <==>
      forall i | 0 <= i < k && pdus[i].src == pdus[k].src && Accepted(pdus, i, capacity) :: Above(pdus[k], pdus[i])
  {
    var front := pdus[..k];
    assert Front(pdus[..k + 1]) == front && Last(pdus[..k + 1]) == pdus[k];
    CacheRefinesMemory(pdus, capacity, k);
    forall i | 0 <= i < k
      ensures Accepted(pdus, i, capacity) <==> IdeallyAccepted(front, i)
    {
      CacheRefinesMemory(pdus, capacity, i);
      assert front[..i + 1] == pdus[..i + 1];
    }
    if Accepted(pdus, k, capacity) {
      forall i | 0 <= i < k && pdus[i].src == pdus[k].src && Accepted(pdus, i, capacity)
        ensures Above(pdus[k], pdus[i])
      {
        MemoryIsNewest(front, i);
        NewerIsAbove(pdus[k], pdus[i]);
      }
    } else {
      var i := MemoryWasAccepted(front, pdus[k].src);
      assert front[i] == pdus[i];
      NewerIsAbove(pdus[k], pdus[i]);
    }
  }

  // So nothing is accepted twice: what is accepted of one source has different numbers or IV indices,
  // and increases.
  lemma NeverAcceptedTwice(pdus: seq<Pdu>, i: nat, k: nat, capacity: nat)
    requires AlwaysRecent(pdus, capacity) && i < k < |pdus|
    requires Accepted(pdus, i, capacity) && Accepted(pdus, k, capacity)
    ensures pdus[i].src != pdus[k].src
         || pdus[i].ivIndex % 0x1_0000 < pdus[k].ivIndex % 0x1_0000
         || (pdus[i].ivIndex % 0x1_0000 == pdus[k].ivIndex % 0x1_0000 && pdus[i].seqNum < pdus[k].seqNum)
  {
    AcceptedExactly(pdus, k, capacity);
  }
}
