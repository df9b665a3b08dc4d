/** How many hashes one append performs: the exact number, and the bounds that follow. */
module HashCount {
  import opened Words

  /** The length of the run a batch of `k` leaves writes at level `l` above `n` leaves. */
  function RunLength(n: nat, k: nat, l: nat): nat {
    ShrMonotone(n, n + k, l);
    CeilShr(n + k, l) - Shr(n, l)
  }

  /** One hash for each node written on levels 1 to `d`. */
  function HashesOf(n: nat, k: nat, d: nat): nat {
    if d == 0 then 0 else HashesOf(n, k, d - 1) + RunLength(n, k, d)
  }

  lemma RunLengthIs(n: nat, k: nat, l: nat)
    requires k > 0
    ensures Shr(n, l) <= Shr(n + k - 1, l)
    ensures RunLength(n, k, l) == Shr(n + k - 1, l) + 1 - Shr(n, l)
  {
    CeilShrOfSuccessor(n + k, l);
    ShrMonotone(n, n + k - 1, l);
  }

  /** No run above the leaves outgrows half the batch and one edge node, the size of a scratch buffer. */
  lemma ScratchSuffices(n: nat, k: nat, l: nat)
    requires k > 0
    ensures 0 < RunLength(n, k, l + 1) <= k / 2 + 1
  {
    hide *;
    RunLengthIs(n, k, l + 1);
    ShrOfHalf(n + k - 1, l);
    ShrOfHalf(n, l);
    ShrMonotone((n + k - 1) / 2, n / 2 + k / 2, l);
    ShrOfSum(n / 2, k / 2, l);
  }

  lemma {:induction false} ShrOfSum(n: nat, j: nat, l: nat)
    ensures Shr(n + j, l) <= Shr(n, l) + j
  {
    if l > 0 {
      ShrOfSum(n, j, l - 1);
    }
  }

  // ----- the exact number

  /** The number of ones among the digits of `x`. */
  function Ones(x: nat): nat {
    if x == 0 then 0 else Ones(x / 2) + x % 2
  }

  /** The number of ones among the lowest `d` digits. */
  function LowOnes(x: nat, d: nat): nat {
    if d == 0 then 0 else LowOnes(x, d - 1) + Shr(x, d - 1) % 2
  }

  lemma {:induction false} LowOnesOfHalf(x: nat, d: nat)
    ensures LowOnes(x, d + 1) == x % 2 + LowOnes(x / 2, d)
  {
    if d > 0 {
      LowOnesOfHalf(x, d - 1);
      ShrOfHalf(x, d - 1);
    }
  }

  lemma {:induction false} LowOnesIsOnes(x: nat, d: nat)
    requires x < Pow2(d)
    ensures LowOnes(x, d) == Ones(x)
  {
    if d > 0 {
      LowOnesOfHalf(x, d - 1);
      LowOnesIsOnes(x / 2, d - 1);
    }
  }

  /** Up to level `d`, in terms of the two digit counts and of what is left above `d`. */
  lemma {:induction false} HashesByDigits(n: nat, k: nat, d: nat)
    requires k > 0
    ensures HashesOf(n, k, d) + LowOnes(n + k - 1, d) + Shr(n + k - 1, d) == k + d - 1 + LowOnes(n, d) + Shr(n, d)
  {
    if d > 0 {
      hide RunLength;
      HashesByDigits(n, k, d - 1);
      RunLengthIs(n, k, d);
    }
  }

  /**
   The exact cost of a batch that fits: the ones of the old leaf count come on top,
   the ones of the last new index come off.
   */
  lemma ExactHashes(n: nat, k: nat, d: nat)
    requires k > 0 && n + k <= Pow2(d)
    ensures HashesOf(n, k, d) == k + d - 1 + Ones(n) - Ones(n + k - 1)
  {
    hide *;
    HashesByDigits(n, k, d);
    LowOnesIsOnes(n, d);
    LowOnesIsOnes(n + k - 1, d);
    ShrOfSmall(n, d);
    ShrOfSmall(n + k - 1, d);
  }

  // ----- bounds

  /** `d` digits hold at most `d` ones, and that many only when all are ones. */
  lemma {:induction false} OnesBelow(x: nat, d: nat)
    requires x < Pow2(d)
    ensures Ones(x) <= d
    ensures Ones(x) == d <==> x == Pow2(d) - 1
    ensures Ones(x) == 0 <==> x == 0
  {
    if d > 0 {
      OnesBelow(x / 2, d - 1);
    }
  }

  lemma {:induction false} OnesOfPow2(k: nat)
    ensures Ones(Pow2(k)) == 1
  {
    if k > 0 {
      assert Pow2(k) / 2 == Pow2(k - 1) && Pow2(k) % 2 == 0;
      OnesOfPow2(k - 1);
    }
  }

  /** A single leaf costs one hash for each level. */
  lemma SingleLeafHashes(n: nat, d: nat)
    requires n < Pow2(d)
    ensures HashesOf(n, 1, d) == d
  {
    ExactHashes(n, 1, d);
  }

  /** The bound that does hold for batches of two leaves or more. */
  lemma AtMost(n: nat, k: nat, d: nat)
    requires k >= 2 && n + k <= Pow2(d)
    ensures HashesOf(n, k, d) <= k + 2 * d - 3
  {
    ExactHashes(n, k, d);
    OnesBelow(n, d);
    OnesBelow(n + k - 1, d);
  }

  /** The bound is attained: two leaves that straddle the middle of the tree. */
  lemma AttainedAtTheMiddle(d: nat)
    requires d >= 1
    ensures Pow2(d - 1) - 1 + 2 <= Pow2(d)
    ensures HashesOf(Pow2(d - 1) - 1, 2, d) == 2 * d - 1
  {
    ExactHashes(Pow2(d - 1) - 1, 2, d);
    OnesBelow(Pow2(d - 1) - 1, d - 1);
    OnesOfPow2(d - 1);
  }

  /** Never more than rehashing one path for each leaf. */
  lemma {:induction false} AtMostOnePathALeaf(n: nat, k: nat, d: nat)
    requires k > 0
    ensures HashesOf(n, k, d) <= k * d
  {
    if d > 0 {
      AtMostOnePathALeaf(n, k, d - 1);
      CeilShrOfSuccessor(n + k, d);
      ShrOfSum(n, k - 1, d);
      assert k * d == k * (d - 1) + k;
    }
  }

  /**
   The documented bound of `leaves + DEPTH` hashes holds exactly for the calls whose old
   leaf count has at most one digit more set than the index of their last leaf.
   */
  lemma DocumentedBound(n: nat, k: nat, d: nat)
    requires k > 0 && n + k <= Pow2(d)
    ensures HashesOf(n, k, d) <= k + d <==> Ones(n) <= Ones(n + k - 1) + 1
  {
    ExactHashes(n, k, d);
  }

  /** Every call that fits meets the documented bound exactly when the depth is below 4. */
  lemma DocumentedBoundForAllCalls(d: nat)
    requires d >= 1
    ensures d < 4 <==> forall n: nat, k: nat :: k > 0 && n + k <= Pow2(d) ==> HashesOf(n, k, d) <= k + d
  {
    if d < 4 {
      forall n: nat, k: nat | k > 0 && n + k <= Pow2(d)
        ensures HashesOf(n, k, d) <= k + d
      {
        if k == 1 {
          SingleLeafHashes(n, d);
        } else {
          AtMost(n, k, d);
        }
      }
    } else {
      AttainedAtTheMiddle(d);
    }
  }
}
