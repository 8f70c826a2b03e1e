/** The node's sequence counter: one 32-bit atomic, advanced once for every number taken. */
module Counter {
  import opened Mesh

  // fetch_add(1) on 32 bits.
  function Increment(x: u32): u32 { if x == 0xFFFF_FFFF then 0 else x + 1 }

  // The value of the counter after k more numbers have been taken.
  function After(counter: u32, k: nat): u32 {
    if k == 0 then counter else Increment(After(counter, k - 1))
  }

  lemma {:induction false} AfterIsSum(counter: u32, k: nat)
    requires counter + k < 0x1_0000_0000
    ensures After(counter, k) == counter + k
  {
    if k > 0 { AfterIsSum(counter, k - 1); }
  }

  // The node's sequence counter: an atomic fetch-and-add on 32 bits.
  class Sequence {
    var seqNum: u32

    constructor (initial: u32)
      ensures seqNum == initial
    {
      seqNum := initial;
    }

    method Next() returns (taken: u32)
      modifies this
      ensures taken == old(seqNum) && seqNum == Increment(old(seqNum))
    {
      taken := seqNum;
      seqNum := Increment(seqNum);
    }
  }
}
