/** Rounding toward zero to p significant bits, on exact non-negative integers. */
module Truncation {

  function Pow2(n: nat): (p: nat)
    ensures p > 0
  {
    if n == 0 then 1 else 2 * Pow2(n - 1)
  }

  function Quotient(n: nat, u: nat): nat
    requires u > 0
  {
    n / u
  }

  /** n with all but its p leading bits cleared. */
  function Rz(p: nat, n: nat): nat {
    if n < Pow2(p) then n else 2 * Rz(p, n / 2)
  }

  /** The weight of the last kept bit of n. */
  function Ulp(p: nat, n: nat): (u: nat)
    ensures u > 0
  {
    if n < Pow2(p) then 1 else 2 * Ulp(p, n / 2)
  }

  predicate Float(p: nat, x: nat, m: nat, e: nat) {
    m < Pow2(p) && x == m * Pow2(e)
  }

  /** x is a number with a significand of at most p bits. */
  ghost predicate Representable(p: nat, x: nat) {
    exists m: nat, e: nat :: Float(p, x, m, e)
  }

  lemma {:induction false} Pow2Sum(a: nat, b: nat)
    ensures Pow2(a + b) == Pow2(a) * Pow2(b)
  {
    if a > 0 {
      Pow2Sum(a - 1, b);
    }
  }

  lemma Pow2Values()
    ensures Pow2(8) == 0x100 && Pow2(23) == 0x80_0000 && Pow2(24) == 0x100_0000
    ensures Pow2(31) == 0x8000_0000 && Pow2(32) == 0x1_0000_0000
  {
    assert Pow2(2) == 4 && Pow2(4) == 16;
    Pow2Sum(4, 4);
    Pow2Sum(8, 8);
    Pow2Sum(16, 8);
    Pow2Sum(16, 16);
    assert Pow2(24) == 2 * Pow2(23) && Pow2(32) == 2 * Pow2(31);
  }

  lemma {:induction false} Pow2Monotone(a: nat, b: nat)
    requires a <= b
    ensures Pow2(a) <= Pow2(b)
  {
    if a < b {
      Pow2Monotone(a, b - 1);
    }
  }

  /** What is cut off is less than one unit in the last place. */
  lemma {:induction false} RzError(p: nat, n: nat)
    ensures Rz(p, n) <= n < Rz(p, n) + Ulp(p, n)
  {
    if n >= Pow2(p) {
      RzError(p, n / 2);
    }
  }

  lemma {:induction false} RzKeepsLead(p: nat, n: nat)
    requires p > 0 && n >= Pow2(p - 1)
    ensures Rz(p, n) >= Pow2(p - 1)
    ensures n >= Pow2(p) ==> Rz(p, n) >= Pow2(p)
  {
    if n >= Pow2(p) {
      RzKeepsLead(p, n / 2);
    }
  }

  lemma HalfOf(m: nat, e: nat) returns (z: nat)
    requires e > 0
    ensures z == m * Pow2(e - 1) && m * Pow2(e) == 2 * z
  {
    z := m * Pow2(e - 1);
  }

  lemma {:induction false} RzRepresentable(p: nat, n: nat)
    ensures Representable(p, Rz(p, n))
  {
    if n < Pow2(p) {
      assert Float(p, n, n, 0);
    } else {
      RzRepresentable(p, n / 2);
      var m: nat, e: nat :| Float(p, Rz(p, n / 2), m, e);
      var _ := HalfOf(m, e + 1);
      assert Float(p, Rz(p, n), m, e + 1);
    }
  }

  /**
   * Rounding toward zero as IEEE 754 section 4.3.2 defines it: the result is the representable
   * number closest to, and no greater in magnitude than, the exact one.
   */
  lemma {:induction false} RzLargest(p: nat, n: nat, y: nat)
    requires p > 0 && Representable(p, y) && y <= n
    ensures y <= Rz(p, n)
  {
    if n >= Pow2(p) {
      var m: nat, e: nat :| Float(p, y, m, e);
      if e == 0 {
        RzKeepsLead(p, n);
      } else {
        var z := HalfOf(m, e);
        assert Float(p, z, m, e - 1);
        RzLargest(p, n / 2, z);
      }
    }
  }

  /** A number is left alone exactly when it already fits. */
  lemma RzFixed(p: nat, n: nat)
    requires p > 0
    ensures Rz(p, n) == n <==> Representable(p, n)
  {
    RzRepresentable(p, n);
    RzError(p, n);
    if Representable(p, n) {
      RzLargest(p, n, n);
    }
  }

  lemma RzMonotone(p: nat, n: nat, n': nat)
    requires p > 0 && n <= n'
    ensures Rz(p, n) <= Rz(p, n')
  {
    RzRepresentable(p, n);
    RzError(p, n);
    RzLargest(p, n', Rz(p, n));
  }

  /** Truncations nest: cutting to q bits first makes no difference to cutting to p. */
  lemma {:induction false} RzNested(p: nat, q: nat, n: nat)
    requires 0 < p <= q
    ensures Rz(p, Rz(q, n)) == Rz(p, n)
  {
    if n >= Pow2(q) {
      RzNested(p, q, n / 2);
      Pow2Monotone(p, q);
      RzKeepsLead(q, n);
      assert Rz(q, n) / 2 == Rz(q, n / 2);
    }
  }

  lemma {:induction false} UlpMonotone(p: nat, n: nat, n': nat)
    requires n <= n'
    ensures Ulp(p, n) <= Ulp(p, n')
  {
    if n >= Pow2(p) {
      UlpMonotone(p, n / 2, n' / 2);
    }
  }

  lemma {:induction false} UlpOfRz(p: nat, n: nat)
    requires p > 0
    ensures Ulp(p, Rz(p, n)) == Ulp(p, n)
  {
    if n >= Pow2(p) {
      UlpOfRz(p, n / 2);
      RzKeepsLead(p, n);
      assert Rz(p, n) / 2 == Rz(p, n / 2);
    }
  }

  lemma Distribute(u: int, a: int, b: int)
    ensures u * (a + b) == u * a + u * b
  {
  }

  lemma AtLeastOnce(u: nat, d: nat)
    requires d > 0
    ensures u * d >= u
  {
    Distribute(u, d - 1, 1);
  }

  /** Quotient and remainder are the only ones there are. */
  lemma DivUnique(n: nat, u: nat, q: nat, r: nat)
    requires u > 0 && n == u * q + r && r < u
    ensures n / u == q && n % u == r
  {
    var q', r' := n / u, n % u;
    assert n == u * q' + r';
    if q > q' {
      Distribute(u, q', q - q');
      AtLeastOnce(u, q - q');
      assert false;
    } else if q < q' {
      Distribute(u, q, q' - q);
      AtLeastOnce(u, q' - q);
      assert false;
    }
  }

  lemma WholeMultiple(u: nat, k: nat)
    requires u > 0
    ensures (u * k) % u == 0 && (u * k) / u == k
  {
    DivUnique(u * k, u, k, 0);
  }

  /** The next representable number is one unit away. */
  lemma {:induction false} NextFloat(p: nat, t: nat)
    requires p > 0 && Rz(p, t) == t
    ensures Representable(p, t + Ulp(p, t))
  {
    if t < Pow2(p) {
      if t + 1 < Pow2(p) {
        assert Float(p, t + 1, t + 1, 0);
      } else {
        assert Float(p, t + 1, 1, p);
      }
    } else {
      NextFloat(p, t / 2);
      var m: nat, e: nat :| Float(p, t / 2 + Ulp(p, t / 2), m, e);
      var _ := HalfOf(m, e + 1);
      assert Float(p, t + Ulp(p, t), m, e + 1);
    }
  }

  /** Everything from a representable number up to the next one is truncated to it. */
  lemma {:induction false} RzInterval(p: nat, t: nat, n: nat)
    requires Rz(p, t) == t && t <= n < t + Ulp(p, t)
    ensures Rz(p, n) == t
  {
    if n >= Pow2(p) {
      RzInterval(p, t / 2, n / 2);
    }
  }

  lemma {:induction false} UlpAtLeast(p: nat, n: nat, k: nat)
    requires p > 0 && n >= Pow2(p - 1 + k)
    ensures Ulp(p, n) >= Pow2(k)
  {
    if k > 0 {
      Pow2Monotone(p, p - 1 + k);
      UlpAtLeast(p, n / 2, k - 1);
    }
  }

  lemma DivDiv(n: nat, u: nat)
    requires u > 0
    ensures (n / 2) / u == n / (2 * u)
  {
    HalfQuotient(n, u, n / (2 * u), n % (2 * u));
  }

  lemma HalfQuotient(n: nat, u: nat, q: nat, r: nat)
    requires u > 0 && n == (2 * u) * q + r && r < 2 * u
    ensures (n / 2) / u == q
  {
    var uq := u * q;
    Associate(2, u, q);
    assert n / 2 == uq + r / 2;
    DivUnique(n / 2, u, q, r / 2);
  }

  /** Truncation does not look below the bits it keeps. */
  lemma {:induction false} RzScales(p: nat, n: nat, k: nat)
    requires p > 0 && n / Pow2(k) >= Pow2(p - 1)
    ensures Rz(p, n) == Pow2(k) * Rz(p, n / Pow2(k))
  {
    if k > 0 {
      DivDiv(n, Pow2(k - 1));
      RzScales(p, n / 2, k - 1);
      AtLeast(n / 2, Pow2(k - 1), Pow2(p - 1));
      assert n >= Pow2(p);
      Associate(2, Pow2(k - 1), Rz(p, n / Pow2(k)));
    }
  }

  lemma Associate(a: int, b: int, c: int)
    ensures a * (b * c) == (a * b) * c
  {
  }

  lemma AtLeast(n: nat, u: nat, q: nat)
    requires u > 0 && n / u >= q
    ensures n >= u * q && n >= q
  {
    assert n == u * (n / u) + n % u;
    Distribute(u, q, n / u - q);
    if q > 0 { AtLeastOnce(q, u); }
    if n / u > q { AtLeastOnce(u, n / u - q); }
  }

  /** Truncating a term before adding it, and the sum after, loses less than two units of the result. */
  lemma TwoTruncations(p: nat, x: nat, y: nat)
    requires p > 0
    ensures var t := Rz(p, Rz(p, x) + y);
            t <= Rz(p, x + y) <= x + y < t + 2 * Ulp(p, t)
  {
    hide Rz, Ulp, Pow2, Representable;
    var a := Rz(p, x);
    var t := Rz(p, a + y);
    RzError(p, x);
    RzError(p, a + y);
    RzError(p, x + y);
    RzMonotone(p, a + y, x + y);
    UlpOfRz(p, x);
    UlpOfRz(p, a + y);
    RzRepresentable(p, x);
    RzLargest(p, a + y, a);
    UlpMonotone(p, a, t);
  }

  lemma {:induction false} UlpOfPower(p: nat, k: nat)
    requires p > 0
    ensures Rz(p, Pow2(p - 1 + k)) == Pow2(p - 1 + k) && Ulp(p, Pow2(p - 1 + k)) == Pow2(k)
  {
    if k > 0 {
      Pow2Monotone(p, p - 1 + k);
      UlpOfPower(p, k - 1);
    }
  }
}
