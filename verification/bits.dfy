/**
 * Java `int` bitmasks over non-negative values. The operators `1 << i`, `&`, `|`, `^` and
 * `& ~` are written out as functions on `nat`, and every one of them is related to the
 * bit-membership predicate `Has`, which is what the rest of the model reasons with.
 * There is no 32-bit wrap-around: the masks of the Held-Karp table stay below `2^N`.
 */
module Bits {

  /** `1 << i`. */
  function Pow2(i: nat): (r: nat)
    ensures r >= 1
  {
    if i == 0 then 1 else 2 * Pow2(i - 1)
  }

  /** Bit `i` of `s` is set. */
  predicate Has(s: nat, i: nat)
  {
    if i == 0 then s % 2 == 1 else Has(s / 2, i - 1)
  }

  /** `a & b`. */
  function And(a: nat, b: nat): nat
    decreases a + b
  {
    if a == 0 || b == 0 then 0
    else 2 * And(a / 2, b / 2) + (if a % 2 == 1 && b % 2 == 1 then 1 else 0)
  }

  /** `a | b`. */
  function Or(a: nat, b: nat): nat
    decreases a + b
  {
    if a == 0 then b
    else if b == 0 then a
    else 2 * Or(a / 2, b / 2) + (if a % 2 == 1 || b % 2 == 1 then 1 else 0)
  }

  /** `a ^ b`. */
  function Xor(a: nat, b: nat): nat
    decreases a + b
  {
    if a == 0 then b
    else if b == 0 then a
    else 2 * Xor(a / 2, b / 2) + (if a % 2 != b % 2 then 1 else 0)
  }

  /** `a & ~b`. */
  function AndNot(a: nat, b: nat): nat
    decreases a + b
  {
    if a == 0 then 0
    else if b == 0 then a
    else 2 * AndNot(a / 2, b / 2) + (if a % 2 == 1 && b % 2 == 0 then 1 else 0)
  }

  /** `(1 << n) - 1`, the mask of all of `0 .. n-1`. */
  function Full(n: nat): nat
  {
    Pow2(n) - 1
  }

  /** Every set bit of `s` lies below `n`. */
  ghost predicate Below(s: nat, n: nat)
  {
    forall j: nat :: Has(s, j) ==> j < n
  }

  /** The number of set bits of `s` among positions `lo .. hi-1`. */
  function CountIn(s: nat, lo: nat, hi: nat): nat
    decreases hi
  {
    if hi <= lo then 0 else CountIn(s, lo, hi - 1) + (if Has(s, hi - 1) then 1 else 0)
  }

  /** The number of set bits of `s` below position `n`. */
  function PopCount(s: nat, n: nat): nat
  {
    CountIn(s, 0, n)
  }

  // ---------------------------------------------------------------------------------------
  // Bits of the operators

  lemma {:induction false} HasZero(j: nat)
    ensures !Has(0, j)
  {
    if j > 0 {
      HasZero(j - 1);
    }
  }

  lemma {:induction false} HasPow2(i: nat, j: nat)
    ensures Has(Pow2(i), j) <==> i == j
  {
    if i == 0 {
      if j > 0 {
        HasZero(j - 1);
      }
    } else if j > 0 {
      HasPow2(i - 1, j - 1);
    }
  }

  lemma {:induction false} HasAnd(a: nat, b: nat, j: nat)
    ensures Has(And(a, b), j) <==> Has(a, j) && Has(b, j)
    decreases j
  {
    if a == 0 || b == 0 {
      HasZero(j);
    } else if j > 0 {
      HasAnd(a / 2, b / 2, j - 1);
    }
  }

  lemma {:induction false} HasOr(a: nat, b: nat, j: nat)
    ensures Has(Or(a, b), j) <==> Has(a, j) || Has(b, j)
    decreases j
  {
    if a == 0 {
      HasZero(j);
    } else if b == 0 {
      HasZero(j);
    } else if j > 0 {
      HasOr(a / 2, b / 2, j - 1);
    }
  }

  lemma {:induction false} HasXor(a: nat, b: nat, j: nat)
    ensures Has(Xor(a, b), j) <==> Has(a, j) != Has(b, j)
    decreases j
  {
    if a == 0 {
      HasZero(j);
    } else if b == 0 {
      HasZero(j);
    } else if j > 0 {
      HasXor(a / 2, b / 2, j - 1);
    }
  }

  lemma {:induction false} HasAndNot(a: nat, b: nat, j: nat)
    ensures Has(AndNot(a, b), j) <==> Has(a, j) && !Has(b, j)
    decreases j
  {
    if a == 0 {
      HasZero(j);
    } else if b == 0 {
      HasZero(j);
    } else if j > 0 {
      HasAndNot(a / 2, b / 2, j - 1);
    }
  }

  /** `(1 << n) - 1` has exactly the bits `0 .. n-1`. */
  lemma {:induction false} HasFull(n: nat, j: nat)
    ensures Has(Full(n), j) <==> j < n
  {
    if n == 0 {
      HasZero(j);
    } else if j > 0 {
      HasFull(n - 1, j - 1);
      assert Full(n) / 2 == Full(n - 1);
    }
  }

  /** A mask is determined by its bits. */
  lemma {:induction false} Ext(a: nat, b: nat)
    requires forall j: nat :: Has(a, j) == Has(b, j)
    ensures a == b
    decreases a + b
  {
    if a + b > 0 {
      assert Has(a, 0) == Has(b, 0);
      forall j: nat
        ensures Has(a / 2, j) == Has(b / 2, j)
      {
        assert Has(a, j + 1) == Has(b, j + 1);
      }
      if a / 2 == a && b / 2 == b {
        // both are zero
      } else {
        Ext(a / 2, b / 2);
      }
    }
  }

  // ---------------------------------------------------------------------------------------
  // Counting bits

  lemma {:induction false} CountSplitLow(s: nat, lo: nat, hi: nat)
    requires lo < hi
    ensures CountIn(s, lo, hi) == (if Has(s, lo) then 1 else 0) + CountIn(s, lo + 1, hi)
    decreases hi
  {
    if hi > lo + 1 {
      CountSplitLow(s, lo, hi - 1);
    }
  }

  lemma {:induction false} CountAgree(a: nat, b: nat, lo: nat, hi: nat)
    requires forall j: nat :: lo <= j < hi ==> Has(a, j) == Has(b, j)
    ensures CountIn(a, lo, hi) == CountIn(b, lo, hi)
    decreases hi
  {
    if hi > lo {
      CountAgree(a, b, lo, hi - 1);
    }
  }

  /** Clearing one set bit inside the window lowers the count by one. */
  lemma {:induction false} CountClear(a: nat, b: nat, i: nat, lo: nat, hi: nat)
    requires lo <= i < hi
    requires Has(a, i) && !Has(b, i)
    requires forall j: nat :: j != i ==> Has(a, j) == Has(b, j)
    ensures CountIn(b, lo, hi) + 1 == CountIn(a, lo, hi)
    decreases hi
  {
    if hi - 1 == i {
      CountAgree(a, b, lo, hi - 1);
    } else {
      CountClear(a, b, i, lo, hi - 1);
    }
  }

  lemma {:induction false} CountBound(s: nat, lo: nat, hi: nat)
    ensures CountIn(s, lo, hi) <= if hi <= lo then 0 else hi - lo
    decreases hi
  {
    if hi > lo {
      CountBound(s, lo, hi - 1);
    }
  }

  /** A positive count has a witness. */
  lemma {:induction false} SomeBit(s: nat, lo: nat, hi: nat) returns (j: nat)
    requires CountIn(s, lo, hi) > 0
    ensures lo <= j < hi && Has(s, j)
    decreases hi
  {
    if Has(s, hi - 1) {
      j := hi - 1;
    } else {
      j := SomeBit(s, lo, hi - 1);
    }
  }

  /** A zero count means no bit in the window. */
  lemma {:induction false} NoBit(s: nat, lo: nat, hi: nat, j: nat)
    requires CountIn(s, lo, hi) == 0
    requires lo <= j < hi
    ensures !Has(s, j)
    decreases hi
  {
    if j < hi - 1 {
      NoBit(s, lo, hi - 1, j);
    }
  }

  /** A window with no set bit counts 0. */
  lemma {:induction false} CountNone(s: nat, lo: nat, hi: nat)
    requires forall j: nat :: lo <= j < hi ==> !Has(s, j)
    ensures CountIn(s, lo, hi) == 0
    decreases hi
  {
    if hi > lo {
      CountNone(s, lo, hi - 1);
    }
  }

  /** A window whose every bit is set counts its width. */
  lemma {:induction false} CountAll(s: nat, lo: nat, hi: nat)
    requires lo <= hi
    requires forall j: nat :: lo <= j < hi ==> Has(s, j)
    ensures CountIn(s, lo, hi) == hi - lo
    decreases hi
  {
    if hi > lo {
      CountAll(s, lo, hi - 1);
    }
  }

  /** `s ^ (1 << i)` clears bit `i` of `s` and keeps the others. */
  lemma FlipOff(s: nat, i: nat, n: nat)
    requires Has(s, i) && i < n
    ensures forall j: nat :: Has(Xor(s, Pow2(i)), j) <==> Has(s, j) && j != i
    ensures PopCount(Xor(s, Pow2(i)), n) + 1 == PopCount(s, n)
  {
    forall j: nat
      ensures Has(Xor(s, Pow2(i)), j) <==> Has(s, j) && j != i
    {
      HasXor(s, Pow2(i), j);
      HasPow2(i, j);
    }
    CountClear(s, Xor(s, Pow2(i)), i, 0, n);
  }

  /** `s | (1 << i)` sets bit `i` of `s` and keeps the others. */
  lemma SetOn(s: nat, i: nat)
    ensures forall j: nat :: Has(Or(s, Pow2(i)), j) <==> Has(s, j) || j == i
  {
    forall j: nat
      ensures Has(Or(s, Pow2(i)), j) <==> Has(s, j) || j == i
    {
      HasOr(s, Pow2(i), j);
      HasPow2(i, j);
    }
  }

  /** `s & ~(1 << i)` clears bit `i` of `s` and keeps the others. */
  lemma SetOff(s: nat, i: nat)
    ensures forall j: nat :: Has(AndNot(s, Pow2(i)), j) <==> Has(s, j) && j != i
  {
    forall j: nat
      ensures Has(AndNot(s, Pow2(i)), j) <==> Has(s, j) && j != i
    {
      HasAndNot(s, Pow2(i), j);
      HasPow2(i, j);
    }
  }

  /** A mask whose bits lie below `n` is below `2^n`, so it indexes a table of width `2^n`. */
  lemma {:induction false} BelowBound(s: nat, n: nat)
    requires Below(s, n)
    ensures s < Pow2(n)
    decreases n
  {
    if n == 0 {
      if s != 0 {
        forall j: nat
          ensures Has(s, j) == Has(0, j)
        {
          HasZero(j);
        }
        Ext(s, 0);
      }
    } else {
      forall j: nat | Has(s / 2, j)
        ensures j < n - 1
      {
        assert Has(s, j + 1);
      }
      BelowBound(s / 2, n - 1);
    }
  }

  /** `(1 << a) | (1 << b)` for `a != b` below `n` has exactly the bits `a` and `b`. */
  lemma Pair(a: nat, b: nat, n: nat)
    requires a != b && a < n && b < n
    ensures forall j: nat :: Has(Or(Pow2(a), Pow2(b)), j) <==> j == a || j == b
    ensures Below(Or(Pow2(a), Pow2(b)), n)
    ensures PopCount(Or(Pow2(a), Pow2(b)), n) == 2
  {
    var p := Or(Pow2(a), Pow2(b));
    forall j: nat
      ensures Has(p, j) <==> j == a || j == b
    {
      HasOr(Pow2(a), Pow2(b), j);
      HasPow2(a, j);
      HasPow2(b, j);
    }
    FlipOff(p, a, n);
    var q := Xor(p, Pow2(a));
    FlipOff(q, b, n);
    CountNone(Xor(q, Pow2(b)), 0, n);
  }

  /** `(1 << n) - 1` lies below `n` and counts `n` bits. */
  lemma FullMask(n: nat)
    ensures forall j: nat :: Has(Full(n), j) <==> j < n
    ensures Below(Full(n), n)
    ensures PopCount(Full(n), n) == n
  {
    forall j: nat
      ensures Has(Full(n), j) <==> j < n
    {
      HasFull(n, j);
    }
    CountAll(Full(n), 0, n);
  }

  /**
   * A mask below `n` with two bits `a` and `b` set and a count of 2 is `(1 << a) | (1 << b)`.
   */
  lemma TwoBits(s: nat, a: nat, b: nat, n: nat)
    requires Below(s, n) && PopCount(s, n) == 2
    requires a != b && a < n && b < n && Has(s, a) && Has(s, b)
    ensures s == Or(Pow2(a), Pow2(b))
  {
    FlipOff(s, a, n);
    var t := Xor(s, Pow2(a));
    FlipOff(t, b, n);
    var u := Xor(t, Pow2(b));
    Pair(a, b, n);
    forall j: nat
      ensures Has(s, j) == Has(Or(Pow2(a), Pow2(b)), j)
    {
      if j < n && j != a && j != b {
        NoBit(u, 0, n, j);
      }
    }
    Ext(s, Or(Pow2(a), Pow2(b)));
  }

  /** A mask below `n` with a bit besides `a` when its count exceeds 1. */
  lemma OtherBit(s: nat, a: nat, n: nat) returns (j: nat)
    requires PopCount(s, n) >= 2 && Has(s, a) && a < n
    ensures j < n && j != a && Has(s, j)
  {
    FlipOff(s, a, n);
    j := SomeBit(Xor(s, Pow2(a)), 0, n);
  }

  /** A mask with one set bit `a` below `n` has no other bit below `n`. */
  lemma OnlyBit(s: nat, a: nat, n: nat, j: nat)
    requires PopCount(s, n) == 1 && Has(s, a) && a < n
    requires j < n && j != a
    ensures !Has(s, j)
  {
    FlipOff(s, a, n);
    NoBit(Xor(s, Pow2(a)), 0, n, j);
  }
}
