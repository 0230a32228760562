/** Unsigned machine words as naturals: the bit operations of the wire codec and the facts about
    population counts that its rank lookups rest on. */
module Bits {

  type byte = x: int | 0 <= x < 256
  type u32 = x: int | 0 <= x < 0x1_0000_0000

  const U32_MAX: nat := 0xFFFF_FFFF
  const U64_MAX: nat := 0xFFFF_FFFF_FFFF_FFFF

  function Pow2(k: nat): (p: nat)
    ensures p >= 1
  {
    if k == 0 then 1 else 2 * Pow2(k - 1)
  }

  // m >> k & 1
  predicate Bit(m: nat, k: nat) {
    if k == 0 then m % 2 == 1 else Bit(m / 2, k - 1)
  }

  function Popcount(m: nat): nat {
    if m == 0 then 0 else m % 2 + Popcount(m / 2)
  }

  // count trailing zeros
  function Ctz(m: nat): nat
    requires m > 0
  {
    if m % 2 == 1 then 0 else 1 + Ctz(m / 2)
  }

  function And(a: nat, b: nat): nat
    decreases a
  {
    if a == 0 then 0 else a % 2 * (b % 2) + 2 * And(a / 2, b / 2)
  }

  function Or(a: nat, b: nat): nat
    decreases a + b
  {
    if a == 0 && b == 0 then 0
    else (if a % 2 == 1 || b % 2 == 1 then 1 else 0) + 2 * Or(a / 2, b / 2)
  }

  // How many of the bits 0..k-1 of m are set: the meaning of a rank.
  function CountBits(m: nat, k: nat): nat {
    if k == 0 then 0 else CountBits(m, k - 1) + if Bit(m, k - 1) then 1 else 0
  }

  lemma {:induction false} ZeroHasNoBits(k: nat)
    ensures !Bit(0, k)
  {
    if k > 0 { ZeroHasNoBits(k - 1); }
  }

  lemma {:induction false} BitBound(m: nat, k: nat)
    requires Bit(m, k)
    ensures m >= Pow2(k)
  {
    if k > 0 { BitBound(m / 2, k - 1); }
  }

  lemma {:induction false} AndBound(a: nat, b: nat)
    ensures And(a, b) <= b
    decreases a
  {
    if a > 0 { AndBound(a / 2, b / 2); }
  }

  lemma {:induction false} AndBits(a: nat, b: nat, j: nat)
    ensures Bit(And(a, b), j) <==> Bit(a, j) && Bit(b, j)
    decreases a, j
  {
    if a == 0 {
      ZeroHasNoBits(j);
    } else if j > 0 {
      AndBits(a / 2, b / 2, j - 1);
      assert And(a, b) / 2 == And(a / 2, b / 2);
    }
  }

  lemma {:induction false} OrBits(a: nat, b: nat, j: nat)
    ensures Bit(Or(a, b), j) <==> Bit(a, j) || Bit(b, j)
    decreases a + b, j
  {
    if a == 0 && b == 0 {
      ZeroHasNoBits(j);
    } else if j > 0 {
      assert Or(a, b) / 2 == Or(a / 2, b / 2);
      if a / 2 + b / 2 < a + b { OrBits(a / 2, b / 2, j - 1); }
    }
  }

  lemma {:induction false} OrBound(a: nat, b: nat, k: nat)
    requires a < Pow2(k) && b < Pow2(k)
    ensures Or(a, b) < Pow2(k)
  {
    if k > 0 { OrBound(a / 2, b / 2, k - 1); }
  }

  lemma {:induction false} Pow2Bit(k: nat, j: nat)
    ensures Bit(Pow2(k), j) <==> j == k
  {
    if k == 0 {
      if j > 0 { ZeroHasNoBits(j - 1); }
    } else if j > 0 {
      Pow2Bit(k - 1, j - 1);
    }
  }

  lemma {:induction false} LowMaskBits(k: nat, j: nat)
    ensures Bit(Pow2(k) - 1, j) <==> j < k
  {
    if k == 0 {
      ZeroHasNoBits(j);
    } else if j > 0 {
      LowMaskBits(k - 1, j - 1);
      assert (Pow2(k) - 1) / 2 == Pow2(k - 1) - 1;
    }
  }

  lemma {:induction false} NonzeroHasBit(m: nat)
    requires m > 0
    ensures Bit(m, Ctz(m)) && forall j :: 0 <= j < Ctz(m) ==> !Bit(m, j)
  {
    if m % 2 == 0 {
      NonzeroHasBit(m / 2);
      forall j | 0 <= j < Ctz(m)
        ensures !Bit(m, j)
      {
        if j > 0 { assert !Bit(m / 2, j - 1); }
      }
    }
  }

  // (m & 1 << k) != 0 is the test of bit k
  lemma {:induction false} TestBit(m: nat, k: nat)
    ensures And(m, Pow2(k)) != 0 <==> Bit(m, k)
  {
    if And(m, Pow2(k)) != 0 {
      var j := Ctz(And(m, Pow2(k)));
      NonzeroHasBit(And(m, Pow2(k)));
      AndBits(m, Pow2(k), j);
      Pow2Bit(k, j);
    } else {
      AndBits(m, Pow2(k), k);
      ZeroHasNoBits(k);
      Pow2Bit(k, k);
    }
  }

  lemma {:induction false} CountShift(m: nat, k: nat)
    ensures CountBits(m, k + 1) == m % 2 + CountBits(m / 2, k)
  {
    if k > 0 { CountShift(m, k - 1); }
  }

  lemma {:induction false} PopcountIsCount(m: nat, k: nat)
    requires m < Pow2(k)
    ensures Popcount(m) == CountBits(m, k)
  {
    if k > 0 {
      PopcountIsCount(m / 2, k - 1);
      CountShift(m, k - 1);
    }
  }

  lemma {:induction false} CountExtensional(a: nat, b: nat, k: nat)
    requires forall j :: 0 <= j < k ==> (Bit(a, j) <==> Bit(b, j))
    ensures CountBits(a, k) == CountBits(b, k)
  {
    if k > 0 { CountExtensional(a, b, k - 1); }
  }

  // popcount(m & ((1 << k) - 1)), the rank of bit k
  lemma {:induction false} MaskedPopcount(m: nat, k: nat)
    ensures Popcount(And(m, Pow2(k) - 1)) == CountBits(m, k)
  {
    var low := And(m, Pow2(k) - 1);
    forall j: nat
      ensures Bit(low, j) <==> Bit(m, j) && j < k
    {
      AndBits(m, Pow2(k) - 1, j);
      LowMaskBits(k, j);
    }
    BoundFromBits(low, k);
    PopcountIsCount(low, k);
    CountExtensional(low, m, k);
  }

  lemma {:induction false} BoundFromBits(m: nat, k: nat)
    requires forall j: nat :: j >= k ==> !Bit(m, j)
    ensures m < Pow2(k)
  {
    if k == 0 {
      if m > 0 { NonzeroHasBit(m); }
    } else {
      forall j: nat | j >= k - 1
        ensures !Bit(m / 2, j)
      {
        assert !Bit(m, j + 1);
      }
      BoundFromBits(m / 2, k - 1);
    }
  }

  // m & (m - 1) clears exactly the lowest set bit
  lemma {:induction false} ClearLowest(m: nat, j: nat)
    requires m > 0
    ensures Bit(And(m, m - 1), j) <==> Bit(m, j) && j != Ctz(m)
  {
    AndBits(m, m - 1, j);
    PredecessorBits(m, j);
    NonzeroHasBit(m);
  }

  lemma {:induction false} PredecessorBits(m: nat, j: nat)
    requires m > 0
    ensures Bit(m - 1, j) <==> if j > Ctz(m) then Bit(m, j) else j < Ctz(m)
  {
    if m % 2 == 1 {
      assert j > 0 ==> (m - 1) / 2 == m / 2;
    } else if j > 0 {
      assert (m - 1) / 2 == m / 2 - 1;
      PredecessorBits(m / 2, j - 1);
    }
  }

  lemma {:induction false} CountBound(m: nat, k: nat)
    ensures CountBits(m, k) <= k
  {
    if k > 0 { CountBound(m, k - 1); }
  }

  lemma {:induction false} CountMonotone(m: nat, i: nat, k: nat)
    requires i <= k
    ensures CountBits(m, i) <= CountBits(m, k)
    ensures i < k && Bit(m, i) ==> CountBits(m, i) < CountBits(m, k)
    decreases k
  {
    if i < k { CountMonotone(m, i, k - 1); }
  }
}
