/** Replay protection: a bounded least-recently-used cache against a memory that never forgets. */
module ReplayProtection {
  import opened Wrappers
  import opened Mesh

  // What is remembered of a source: the low sixteen bits of the IV index, and the sequence number.
  datatype Entry = Entry(src: u16, iv: u16, seqNum: u32)

  datatype Pdu = Pdu(src: u16, ivIndex: u32, seqNum: u32) {
    function Iv(): u16 { ivIndex % 0x1_0000 }
    function AsEntry(): Entry { Entry(src, Iv(), seqNum) }
  }

  // Lexicographic order on (IV, sequence number).
  predicate Newer(a: Entry, b: Entry) {
    a.iv > b.iv || (a.iv == b.iv && a.seqNum > b.seqNum)
  }

  function IndexOf(cache: seq<Entry>, src: u16): (i: nat)
    ensures i <= |cache|
    ensures i < |cache| ==> cache[i].src == src
    ensures forall j | 0 <= j < i :: cache[j].src != src
  {
    if cache == [] || cache[0].src == src then 0 else 1 + IndexOf(cache[1..], src)
  }

  // The cache without the first entry of the source.
  function Rest(cache: seq<Entry>, src: u16): seq<Entry> {
    if cache == [] then []
    else if cache[0].src == src then cache[1..]
    else [cache[0]] + Rest(cache[1..], src)
  }

  // The verdict (true for a replay), and the cache with the source moved to the front.
  function Judge(cache: seq<Entry>, pdu: Pdu): (seq<Entry>, bool) {
    var i := IndexOf(cache, pdu.src);
    var replay := i < |cache| && !Newer(pdu.AsEntry(), cache[i]);
    ([if replay then cache[i] else pdu.AsEntry()] + Rest(cache, pdu.src), replay)
  }

  // A cache of limited size: the entries past the limit are evicted.
  function Truncate(cache: seq<Entry>, capacity: nat): seq<Entry> {
    if |cache| <= capacity then cache else cache[..capacity]
  }

  function Without(s: seq<Entry>, i: nat): seq<Entry> { if i >= |s| then s else s[..i] + s[i + 1..] }

  lemma WithoutLater(x: Entry, s: seq<Entry>, i: nat)
    ensures Without([x] + s, i + 1) == [x] + Without(s, i)
  {
    var xs := [x] + s;
    if i < |s| { assert xs[..i + 1] == [x] + s[..i] && xs[i + 2..] == s[i + 1..]; }
  }

  lemma {:induction false} RestIsRemoval(cache: seq<Entry>, src: u16)
    ensures Rest(cache, src) == Without(cache, IndexOf(cache, src))
  {
    if cache != [] {
      assert cache == [cache[0]] + cache[1..];
      if cache[0].src != src {
        RestIsRemoval(cache[1..], src);
        WithoutLater(cache[0], cache[1..], IndexOf(cache[1..], src));
      }
    }
  }

  class ReplayProtection {
    const capacity: nat
    var lru: seq<Entry>

    ghost predicate Valid()
      reads this
    {
      |lru| <= capacity
    }

    constructor (capacity: nat)
      ensures Valid() && lru == [] && this.capacity == capacity
    {
      this.capacity, lru := capacity, [];
    }

    // LRUCache::find: the matching entry, moved to the front.
    method Find(src: u16) returns (found: bool)
      requires Valid()
      modifies this
      ensures Valid()
      ensures found <==> IndexOf(old(lru), src) < |old(lru)|
      ensures lru == if found then [old(lru)[IndexOf(old(lru), src)]] + Rest(old(lru), src) else old(lru)
    {
      RestIsRemoval(lru, src);
      for i := 0 to |lru|
        invariant lru == old(lru) && IndexOf(lru, src) >= i
      {
        if lru[i].src == src {
          lru := [lru[i]] + (lru[..i] + lru[i + 1..]);
          return true;
        }
      }
      return false;
    }

    // LRUCache::insert: the last entry makes room when the cache is full.
    method Insert(e: Entry)
      requires Valid()
      modifies this
      ensures Valid() && lru == Truncate([e] + old(lru), capacity)
    {
      if capacity == 0 { return; }
      if |lru| == capacity {
        lru := lru[..capacity - 1];
      }
      lru := [e] + lru;
    }

    method Check(pdu: Pdu) returns (replayProtected: bool)
      requires Valid()
      modifies this
      ensures Valid()
      ensures replayProtected == Judge(old(lru), pdu).1
      ensures lru == Truncate(Judge(old(lru), pdu).0, capacity)
    {
      RestIsRemoval(lru, pdu.src);
      ghost var i, rest := IndexOf(lru, pdu.src), Rest(lru, pdu.src);
      assert i < |lru| ==> |rest| + 1 == |lru|;
      assert i == |lru| ==> rest == lru;
      var found := Find(pdu.src);
      if found {
        var entry, others := lru[0], lru[1..];
        assert entry == old(lru)[i] && others == rest && lru == [entry] + rest;
        if pdu.Iv() < entry.iv {
          replayProtected := true;
        } else if pdu.Iv() == entry.iv {
          if pdu.seqNum <= entry.seqNum {
            replayProtected := true;
          } else {
            lru := [entry.(seqNum := pdu.seqNum)] + others;
            replayProtected := false;
          }
        } else {
          lru := [Entry(entry.src, pdu.Iv(), pdu.seqNum)] + others;
          replayProtected := false;
        }
      } else {
        Insert(pdu.AsEntry());
        replayProtected := false;
      }
    }
  }
}
