/**
 How `vg_ctrl_init` sizes the drop list (src/policy.c), in 32-bit arithmetic: the record
 pool is twice the drop map size, the bucket count is doubled until it reaches the pool.
 */
module PoolSize {
  import opened KernelState

  const DROP_MAP_MAX: nat := 65536

  /** Entries of each of drop_v4 and drop_v6; zero selects the default. */
  function DropMax(size: nat): nat {
    if size != 0 then size else DROP_MAP_MAX
  }

  /** `drop_pool_cap`. */
  function PoolCap(size: nat): nat {
    2 * DropMax(size) % TWO32
  }

  /** The pool has a record for every entry of both maps exactly below 2^31. */
  lemma PoolIsBigEnough(size: nat)
    requires size < TWO32
    ensures PoolCap(size) == 2 * DropMax(size) <==> size < 0x8000_0000
  {
  }

  function Pow2(k: nat): nat {
    if k == 0 then 1 else 2 * Pow2(k - 1)
  }

  /** The bucket count after k rounds of `<<= 1`. */
  function Buckets(k: nat): nat {
    if k == 0 then 1024 else Buckets(k - 1) * 2 % TWO32
  }

  lemma Pow2Grows(j: nat, k: nat)
    requires j <= k
    ensures Pow2(j) <= Pow2(k)
  {
  }

  lemma {:induction false} BucketsAre(k: nat)
    ensures k <= 21 ==> Buckets(k) == Pow2(k + 10) <= Pow2(31)
    ensures k > 21 ==> Buckets(k) == 0
    ensures Buckets(k + 1) == Buckets(k) * 2 % TWO32
  {
    PowersOfNote();
    if k > 0 {
      BucketsAre(k - 1);
    }
    Pow2Grows(k + 10, if k <= 21 then 31 else k + 10);
  }

  lemma PowersOfNote()
    ensures Pow2(10) == 1024 && Pow2(31) == 0x8000_0000
  {
    assert Pow2(5) == 32;
    assert Pow2(10) == 1024;
    assert Pow2(15) == 0x8000;
    assert Pow2(20) == 0x10_0000;
    assert Pow2(25) == 0x200_0000;
    assert Pow2(30) == 0x4000_0000;
  }

  /** The doubling loop ends exactly for pools of at most 2^31 records; above, the count wraps to zero and stays there. */
  lemma DoublingEnds(cap: nat)
    ensures (exists k :: Buckets(k) >= cap) <==> cap <= 0x8000_0000
  {
    PowersOfNote();
    BucketsAre(21);
    if k: nat :| Buckets(k) >= cap {
      BucketsAre(k);
    }
  }

  /** Sizes the configuration accepts at which the one and the other fail. */
  lemma LargeSizesFail()
    ensures PoolCap(0x8000_0000) == 0 < DropMax(0x8000_0000)
    ensures PoolCap(0x4000_0001) == 0x8000_0002 && forall k :: Buckets(k) < PoolCap(0x4000_0001)
  {
    hide Buckets;
    DoublingEnds(0x8000_0002);
  }

  /** The loop itself. */
  method BucketCount(cap: nat) returns (nb: nat, ghost k: nat)
    requires cap <= 0x8000_0000
    ensures nb == Buckets(k) == Pow2(k + 10) && nb >= cap && nb >= 1024
    ensures k > 0 ==> Pow2(k + 9) < cap
  {
    hide Pow2, Buckets;
    nb, k := 1024, 0;
    PowersOfNote();
    BucketsAre(21);
    BucketsAre(0);
    while nb < cap
      invariant k <= 21 && nb == Buckets(k) == Pow2(k + 10)
      invariant k > 0 ==> Pow2(k + 9) < cap
      decreases 21 - k
    {
      BucketsAre(k);
      BucketsAre(k + 1);
      nb := nb * 2 % TWO32;
      k := k + 1;
    }
    Pow2Grows(10, k + 10);
  }
}
