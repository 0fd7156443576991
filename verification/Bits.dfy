/** Bitwise operations on non-negative integers. */
module Bits {
  import opened Truncation

  /** The bitwise OR. */
  function Or(x: nat, y: nat): nat {
    if x == 0 then y
    else (if x % 2 == 1 || y % 2 == 1 then 1 else 0) + 2 * Or(x / 2, y / 2)
  }

  predicate Bit(x: nat, i: nat) {
    if i == 0 then x % 2 == 1 else Bit(x / 2, i - 1)
  }

  lemma {:induction false} OrWithZero(x: nat)
    ensures Or(x, 0) == x
  {
    if x > 0 {
      OrWithZero(x / 2);
    }
  }

  /** Parts that share no bit are added. */
  lemma {:induction false} OrIsSum(x: nat, y: nat, k: nat)
    requires x % Pow2(k) == 0 && y < Pow2(k)
    ensures Or(x, y) == x + y
  {
    if k == 0 {
      OrWithZero(x);
    } else if x > 0 {
      var q := x / Pow2(k);
      assert x == Pow2(k) * q;
      Associate(2, Pow2(k - 1), q);
      WholeMultiple(Pow2(k - 1), q);
      OrIsSum(x / 2, y / 2, k - 1);
    }
  }

  lemma {:induction false} OrBound(x: nat, y: nat, k: nat)
    requires x < Pow2(k) && y < Pow2(k)
    ensures Or(x, y) < Pow2(k)
  {
    if x > 0 && k > 0 {
      OrBound(x / 2, y / 2, k - 1);
    }
  }

  lemma {:induction false} NoBits(i: nat)
    ensures !Bit(0, i)
  {
    if i > 0 {
      NoBits(i - 1);
    }
  }

  lemma {:induction false} OrBits(x: nat, y: nat, i: nat)
    ensures Bit(Or(x, y), i) <==> Bit(x, i) || Bit(y, i)
  {
    if x == 0 {
      NoBits(i);
    } else if i > 0 {
      OrBits(x / 2, y / 2, i - 1);
    }
  }

  lemma {:induction false} PowerBits(k: nat, i: nat)
    ensures Bit(Pow2(k), i) <==> i == k
  {
    if k == 0 {
      if i > 0 { NoBits(i - 1); }
    } else if i > 0 {
      PowerBits(k - 1, i - 1);
    }
  }

  /** The bits below k are those of the remainder. */
  lemma {:induction false} BitsBelow(x: nat, i: nat, k: nat)
    requires i < k
    ensures Bit(x % Pow2(k), i) <==> Bit(x, i)
  {
    var u := Pow2(k - 1);
    var q, m := x / Pow2(k), x % Pow2(k);
    Associate(2, u, q);
    assert x == 2 * (u * q) + m;
    assert x % 2 == m % 2 && x / 2 == u * q + m / 2;
    if i > 0 {
      DivUnique(x / 2, u, q, m / 2);
      BitsBelow(x / 2, i - 1, k - 1);
    }
  }

  /** A multiple of 2^k has its factor's bits, k places up. */
  lemma {:induction false} BitsAbove(x: nat, i: nat, k: nat)
    ensures Bit(x * Pow2(k), i) <==> i >= k && Bit(x, i - k)
  {
    if k > 0 {
      Associate(2, x, Pow2(k - 1));
      assert x * Pow2(k) == 2 * (x * Pow2(k - 1));
      if i > 0 {
        BitsAbove(x, i - 1, k - 1);
      }
    }
  }
}
