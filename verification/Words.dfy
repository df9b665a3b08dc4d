/**
 Machine words and the bit operations the tree applies to node indices.

 Words are integers with their range in the type, so that storing a sum or a
 product into a `u64` is an overflow check.  The bit operations are defined digit
 by digit, which is what they mean on a machine word; the lemmas below turn them
 into the division, remainder and parity facts that the proofs about runs use.
 */
module Words {

  const TWO_TO_THE_32 := 0x1_0000_0000
  const TWO_TO_THE_64 := 0x1_0000_0000_0000_0000

  type u8 = x: int | 0 <= x < 0x100
  type u32 = x: int | 0 <= x < TWO_TO_THE_32
  type u64 = x: int | 0 <= x < TWO_TO_THE_64

  /** The shifts of `1 << DEPTH` need a depth below 64; `new` reads `zero[DEPTH - 1]`. */
  const MAX_DEPTH := 63

  function Pow2(k: nat): (p: nat)
    ensures p >= 1
  {
    if k == 0 then 1 else 2 * Pow2(k - 1)
  }

  /** Digit `k` of `x` in base two. */
  predicate Bit(x: nat, k: nat) {
    if k == 0 then x % 2 == 1 else Bit(x / 2, k - 1)
  }

  /** `x >> k`. */
  function Shr(x: nat, k: nat): (r: nat)
    ensures r <= x
  {
    if k == 0 then x else Shr(x, k - 1) / 2
  }

  /** `1 << k`. */
  function ShlOne(k: nat): (r: u64)
    requires k < 64
    ensures r == Pow2(k)
  {
    Pow2Below(k, 63);
    assert Pow2(63) == 0x8000_0000_0000_0000 by { Pow2Of63(); }
    Pow2(k)
  }

  /** `x & y`. */
  function And(x: nat, y: nat): (r: nat)
    ensures r <= x
  {
    if x == 0 || y == 0 then 0 else 2 * And(x / 2, y / 2) + (if x % 2 == 1 && y % 2 == 1 then 1 else 0)
  }

  /** `x ^ y`. */
  function Xor(x: nat, y: nat): nat {
    if x == 0 then y
    else if y == 0 then x
    else 2 * Xor(x / 2, y / 2) + (if x % 2 == y % 2 then 0 else 1)
  }

  /** `x` divided by `2^k`, rounded up; the partner of `Shr`, which rounds down. */
  function CeilShr(x: nat, k: nat): (r: nat)
    ensures x > 0 ==> r > 0
    ensures r <= x
    ensures Shr(x, k) <= r <= Shr(x, k) + 1
  {
    if k == 0 then x else (CeilShr(x, k - 1) + 1) / 2
  }

  // ----- the digit definitions are the bitwise operations

  lemma {:induction false} AndBits(x: nat, y: nat, k: nat)
    ensures Bit(And(x, y), k) <==> Bit(x, k) && Bit(y, k)
  {
    if x == 0 || y == 0 {
      ZeroBits(k);
    } else {
      assert And(x, y) / 2 == And(x / 2, y / 2);
      if k > 0 {
        AndBits(x / 2, y / 2, k - 1);
      }
    }
  }

  lemma {:induction false} XorBits(x: nat, y: nat, k: nat)
    ensures Bit(Xor(x, y), k) <==> Bit(x, k) != Bit(y, k)
  {
    if x == 0 || y == 0 {
      ZeroBits(k);
    } else {
      assert Xor(x, y) / 2 == Xor(x / 2, y / 2);
      if k > 0 {
        XorBits(x / 2, y / 2, k - 1);
      }
    }
  }

  lemma {:induction false} ShrBits(x: nat, s: nat, k: nat)
    ensures Bit(Shr(x, s), k) <==> Bit(x, s + k)
    decreases s
  {
    if s > 0 {
      ShrBits(x, s - 1, k + 1);
    }
  }

  /** Digit `k` is the parity after dividing by `2^k`. */
  lemma {:induction false} BitIsParity(x: nat, k: nat)
    ensures Bit(x, k) <==> Shr(x, k) % 2 == 1
    ensures Bit(x, k) <==> x / Pow2(k) % 2 == 1
  {
    if k > 0 {
      BitIsParity(x / 2, k - 1);
      ShrOfHalf(x, k - 1);
    }
    ShrIsDivision(x, k);
    hide *;
    MulNext(Shr(x, k), Pow2(k));
    QuotientIs(x, Shr(x, k), Pow2(k));
  }

  lemma QuotientIs(x: nat, s: nat, p: nat)
    requires p > 0 && s * p <= x < s * p + p
    ensures x / p == s
  {
    MulGap(x / p, s, p);
    MulGap(s, x / p, p);
  }

  lemma {:induction false} ZeroBits(k: nat)
    ensures !Bit(0, k)
  {
    if k > 0 {
      ZeroBits(k - 1);
    }
  }

  // ----- from digits to arithmetic

  lemma {:induction false} Pow2Below(a: nat, b: nat)
    requires a <= b
    ensures Pow2(a) <= Pow2(b)
    decreases b - a
  {
    if a < b {
      Pow2Below(a + 1, b);
    }
  }

  lemma Pow2Of63()
    ensures Pow2(32) == 0x1_0000_0000 && Pow2(63) == 0x8000_0000_0000_0000
  {
    assert Pow2(8) == 0x100;
    assert Pow2(16) == 0x1_0000;
    assert Pow2(24) == 0x100_0000;
    assert Pow2(32) == 0x1_0000_0000;
    assert Pow2(40) == 0x100_0000_0000;
    assert Pow2(48) == 0x1_0000_0000_0000;
    assert Pow2(56) == 0x100_0000_0000_0000;
  }

  /** Words have 32 and 64 digits, and `1 << d` fits the wider one exactly for the depths allowed. */
  lemma WordSizes(d: nat)
    ensures TWO_TO_THE_32 == Pow2(32) && TWO_TO_THE_64 == Pow2(64)
    ensures Pow2(d) < TWO_TO_THE_64 <==> d <= MAX_DEPTH
  {
    hide Pow2;
    Pow2Of63();
    HalfOfPow2(63);
    if d <= 63 {
      Pow2Below(d, 63);
    } else {
      Pow2Below(64, d);
    }
  }

  lemma Regroup(a: nat, r: nat, p: nat)
    ensures (2 * a + r) * p == a * (2 * p) + r * p
  {
  }

  lemma CapacityFits(depth: nat)
    requires depth <= MAX_DEPTH
    ensures Pow2(depth) <= 0x8000_0000_0000_0000
  {
    Pow2Below(depth, 63);
    Pow2Of63();
  }

  /** `x >> k` is division by `2^k`, rounding down. */
  lemma {:induction false} ShrIsDivision(x: nat, k: nat)
    ensures Shr(x, k) * Pow2(k) <= x < (Shr(x, k) + 1) * Pow2(k)
  {
    if k > 0 {
      ShrIsDivision(x, k - 1);
      var a, r, p := Shr(x, k), Shr(x, k - 1) % 2, Pow2(k - 1);
      Regroup(a, r, p);
      Regroup(a, r + 1, p);
      Regroup(a, 2, p);
      Regroup(a + 1, 0, p);
    }
  }

  /** `CeilShr` is division by `2^k`, rounding up. */
  lemma CeilShrIsCeilDivision(x: nat, k: nat)
    ensures x <= CeilShr(x, k) * Pow2(k) < x + Pow2(k)
  {
    if x == 0 {
      CeilShrOfZero(k);
    } else {
      CeilShrOfSuccessor(x, k);
      ShrIsDivision(x - 1, k);
      hide *;
      MulNext(Shr(x - 1, k), Pow2(k));
    }
  }

  lemma {:induction false} CeilShrOfZero(k: nat)
    ensures CeilShr(0, k) == 0
  {
    if k > 0 {
      CeilShrOfZero(k - 1);
    }
  }

  /** Rounding up is rounding down the predecessor, plus one. */
  lemma {:induction false} CeilShrOfSuccessor(x: nat, k: nat)
    requires x > 0
    ensures CeilShr(x, k) == Shr(x - 1, k) + 1
  {
    if k > 0 {
      CeilShrOfSuccessor(x, k - 1);
    }
  }

  /** The two roundings differ by one, unless `2^k` divides the number. */
  lemma CeilShrAndRemainder(x: nat, k: nat)
    ensures CeilShr(x, k) - Shr(x, k) == if x % Pow2(k) == 0 then 0 else 1
  {
    ShrIsDivision(x, k);
    CeilShrIsCeilDivision(x, k);
    hide *;
    MulNext(Shr(x, k), Pow2(k));
    RemainderIs(x, Shr(x, k), Pow2(k));
  }

  lemma MulNext(s: nat, p: nat)
    ensures (s + 1) * p == s * p + p
  {
  }

  lemma MulGap(a: nat, b: nat, p: nat)
    ensures a < b ==> a * p + p <= b * p
  {
    if a < b {
      var g: nat := b - a - 1;
      assert b * p == (a + 1 + g) * p == a * p + p + g * p;
    }
  }

  lemma RemainderIs(x: nat, s: nat, p: nat)
    requires p > 0 && s * p <= x < s * p + p
    ensures x % p == x - s * p
  {
    MulGap(x / p, s, p);
    MulGap(s, x / p, p);
  }

  lemma RemainderOfSmall(x: nat, p: nat)
    requires x < p
    ensures x % p == x
  {
    RemainderIs(x, 0, p);
  }

  /** The lowest `d` digits of a word. */
  function LowDigits(x: u64, d: nat): (r: u64)
    ensures r < Pow2(d) && r == x % Pow2(d)
  {
    RemainderBounds(x, Pow2(d));
    x % Pow2(d)
  }

  lemma RemainderBounds(x: nat, p: nat)
    requires p > 0
    ensures 0 <= x % p < p && x % p <= x
  {
    if x < p {
      RemainderOfSmall(x, p);
    }
  }

  lemma {:induction false} ShrOfHalf(x: nat, k: nat)
    ensures Shr(x / 2, k) == Shr(x, k + 1)
  {
    if k > 0 {
      ShrOfHalf(x, k - 1);
    }
  }

  lemma {:induction false} ShrMonotone(x: nat, y: nat, k: nat)
    requires x <= y
    ensures Shr(x, k) <= Shr(y, k)
    ensures CeilShr(x, k) <= CeilShr(y, k)
  {
    if k > 0 {
      ShrMonotone(x, y, k - 1);
    }
  }

  lemma {:induction false} ShrOfPow2(d: nat, k: nat)
    requires k <= d
    ensures Shr(Pow2(d), k) == CeilShr(Pow2(d), k) == Pow2(d - k)
  {
    hide *;
    if k == 0 {
      ShrByZero(Pow2(d));
    } else {
      ShrOfPow2(d, k - 1);
      HalfOfPow2(d - k);
      ShrStep(Pow2(d), k - 1);
    }
  }

  lemma HalfOfPow2(k: nat)
    ensures Pow2(k + 1) == 2 * Pow2(k)
  {
  }

  lemma ShrByZero(x: nat)
    ensures Shr(x, 0) == CeilShr(x, 0) == x
  {
  }

  lemma ShrOne(x: nat)
    ensures Shr(x, 1) == x / 2
  {
    ShrByZero(x);
  }

  lemma ShrStep(x: nat, k: nat)
    ensures Shr(x, k + 1) == Shr(x, k) / 2
    ensures CeilShr(x, k + 1) == (CeilShr(x, k) + 1) / 2
  {
  }

  /** A count that fits under `2^d` needs at most `2^(d-k)` slots at level `k`, and one at the top. */
  lemma LevelFits(x: nat, d: nat, k: nat)
    requires x <= Pow2(d) && k <= d
    ensures CeilShr(x, k) <= Pow2(d - k)
    ensures x < Pow2(d) ==> Shr(x, k) < Pow2(d - k)
  {
    ShrMonotone(x, Pow2(d), k);
    ShrOfPow2(d, k);
    if x < Pow2(d) {
      ShrOfPow2(d, k);
      ShrMonotone(x + 1, Pow2(d), k);
      CeilShrOfSuccessor(x + 1, k);
    }
  }

  lemma ShrOfSmall(x: nat, d: nat)
    ensures x < Pow2(d) ==> Shr(x, d) == 0
    ensures x == Pow2(d) ==> Shr(x, d) == 1
  {
    ShrOfPow2(d, d);
    if x < Pow2(d) {
      LevelFits(x, d, d);
    }
  }

  /** `x & 1` is the parity of `x`. */
  lemma AndOne(x: nat)
    ensures And(x, 1) == x % 2
  {
    if x > 0 {
      assert And(x / 2, 0) == 0;
    }
  }

  /** `x ^ 1` is the other child of the same parent. */
  lemma XorOne(x: nat)
    ensures Xor(x, 1) == if x % 2 == 0 then x + 1 else x - 1
  {
    assert Xor(x / 2, 0) == x / 2;
  }

  /** The test `x & (1 << j)` of the verifier reads the parity the prover saw after `j` shifts. */
  lemma {:induction false} AndShlOne(x: nat, j: nat)
    ensures And(x, Pow2(j)) == 0 <==> Shr(x, j) % 2 == 0
  {
    hide *;
    if j == 0 {
      AndOne(x);
      ShrByZero(x);
      Pow2OfZero();
    } else {
      ShrOfHalf(x, j - 1);
      AndShlOne(x / 2, j - 1);
      HalfOfPow2(j - 1);
      AndDouble(x, Pow2(j - 1));
    }
  }

  lemma AndDouble(x: nat, y: nat)
    ensures And(x, 2 * y) == 2 * And(x / 2, y)
  {
    assert (2 * y) / 2 == y && (2 * y) % 2 == 0;
  }

  lemma Pow2OfZero()
    ensures Pow2(0) == 1
  {
  }
}
