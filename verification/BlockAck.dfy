/** The block acknowledgement: a 32-bit value whose bit i stands for segment i. */
module BlockAck {
  import opened Mesh

  // Bit i of v.
  predicate IsAcked(v: nat, i: nat) {
    if i == 0 then v % 2 == 1 else IsAcked(v / 2, i - 1)
  }

  // v | (1 << i)
  function Ack(v: nat, i: nat): nat {
    if i == 0 then (if v % 2 == 1 then v else v + 1)
    else v % 2 + 2 * Ack(v / 2, i - 1)
  }

  function Pow2(k: nat): (p: nat)
    ensures p >= 1
  {
    if k == 0 then 1 else 2 * Pow2(k - 1)
  }

  // Acknowledging i sets bit i, keeps every other bit, and stays within the same width.
  lemma {:induction false} AckSetsOneBit(v: nat, i: nat, j: nat)
    ensures IsAcked(Ack(v, i), j) <==> i == j || IsAcked(v, j)
  {
    if i > 0 && j > 0 {
      AckSetsOneBit(v / 2, i - 1, j - 1);
    }
  }

  lemma {:induction false} AckKeepsWidth(v: nat, i: nat, width: nat)
    requires v < Pow2(width) && i < width
    ensures Ack(v, i) < Pow2(width)
  {
    assert Pow2(width) == 2 * Pow2(width - 1);
    if i > 0 {
      assert v / 2 < Pow2(width - 1);
      AckKeepsWidth(v / 2, i - 1, width - 1);
    }
  }

  lemma {:induction false} NothingAcked(i: nat)
    ensures !IsAcked(0, i)
  {
    if i > 0 { NothingAcked(i - 1); }
  }

  lemma {:induction false} ZeroIfNothingAcked(v: nat)
    requires forall i | 0 <= i :: !IsAcked(v, i)
    ensures v == 0
  {
    assert !IsAcked(v, 0);
    if v > 0 {
      forall i | 0 <= i ensures !IsAcked(v / 2, i) { assert !IsAcked(v, i + 1); }
      ZeroIfNothingAcked(v / 2);
    }
  }

  // Every segment 0..segN has been acknowledged.
  ghost predicate Complete(v: nat, segN: nat) {
    forall i | 0 <= i <= segN :: IsAcked(v, i)
  }

  // A value that acknowledges nothing above segN acknowledges all of 0..segN exactly when it is
  // 2^(segN+1) - 1.
  lemma {:induction false} CompleteValue(v: nat, segN: nat)
    requires forall j | segN < j :: !IsAcked(v, j)
    ensures Complete(v, segN) <==> v == Pow2(segN + 1) - 1
  {
    forall j | 0 <= j ensures IsAcked(v, j + 1) <==> IsAcked(v / 2, j) {}
    if segN == 0 {
      assert Pow2(1) == 2 * Pow2(0) && (Complete(v, 0) <==> IsAcked(v, 0));
      forall i | 0 <= i ensures !IsAcked(v / 2, i) { assert !IsAcked(v, i + 1); }
      ZeroIfNothingAcked(v / 2);
    } else {
      forall j | segN - 1 < j ensures !IsAcked(v / 2, j) { assert !IsAcked(v, j + 1); }
      CompleteValue(v / 2, segN - 1);
      if Complete(v, segN) {
        assert IsAcked(v, 0);
        forall j | 0 <= j <= segN - 1 ensures IsAcked(v / 2, j) { assert IsAcked(v, j + 1); }
      }
      if v == Pow2(segN + 1) - 1 {
        assert Pow2(segN + 1) == 2 * Pow2(segN);
        assert v == 2 * (v / 2) + 1;
        forall j | 0 <= j <= segN ensures IsAcked(v, j) {
          if j > 0 { assert IsAcked(v / 2, j - 1); }
        }
      }
    }
  }

  // The loop the reassembly runs after each segment.
  method IsComplete(v: nat, segN: u5) returns (complete: bool)
    ensures complete <==> Complete(v, segN)
  {
    for segO := 0 to segN + 1
      invariant forall j | 0 <= j < segO :: IsAcked(v, j)
    {
      if !IsAcked(v, segO) { return false; }
    }
    return true;
  }
}
