/**
 * The exact two-sided sign test of the paired comparisons, over rationals
 * (harness/island_ab_read.py and harness/present_ab_read.py).
 */
module SignTest {
  import opened Tally
  import opened Truncation

  /** `math.comb`, by Pascal's rule. */
  function Comb(n: nat, k: nat): nat {
    if k == 0 then 1 else if n == 0 then 0 else Comb(n - 1, k - 1) + Comb(n - 1, k)
  }

  /** The sum of the first k + 1 entries of row n. */
  function CombSum(n: nat, k: nat): nat {
    Comb(n, k) + if k == 0 then 0 else CombSum(n, k - 1)
  }

  function Smaller(a: nat, b: nat): nat { if a < b then a else b }

  function Fraction(m: nat, all: nat): real
    requires all > 0
  {
    m as real / all as real
  }

  /** `min(1.0, 2.0 * tail)` for a tail of c outcomes out of all. */
  function Doubled(c: nat, all: nat): real
    requires all > 0
  {
    var tail := Fraction(c, all);
    if 2.0 * tail < 1.0 then 2.0 * tail else 1.0
  }

  /** `exact_sign_p`, and `sign_p` with its arguments the other way round. */
  function ExactSignP(negative: nat, positive: nat): real {
    var n := negative + positive;
    if n == 0 then 1.0 else Doubled(CombSum(n, Smaller(negative, positive)), Pow2(n))
  }

  // ---------------------------------------------------------------- sign vectors

  type Signs = seq<bool>

  function Ones(v: Signs): nat {
    if v == [] then 0 else Ones(v[..|v| - 1]) + if v[|v| - 1] then 1 else 0
  }

  function Extended(s: set<Signs>, b: bool): set<Signs> { set v | v in s :: v + [b] }

  /** All ways n differences can fall. */
  function Vectors(n: nat): set<Signs> {
    if n == 0 then {[]} else Extended(Vectors(n - 1), false) + Extended(Vectors(n - 1), true)
  }

  /** The rarer of the two signs. */
  function Minority(v: Signs): int { if Ones(v) < |v| - Ones(v) then Ones(v) else |v| - Ones(v) }

  function WithOnes(n: nat, k: nat): set<Signs> { set v | v in Vectors(n) && Ones(v) == k }

  function WithAtMost(n: nat, k: nat): set<Signs> { set v | v in Vectors(n) && Ones(v) <= k }

  function WithAtLeast(n: nat, k: int): set<Signs> { set v | v in Vectors(n) && Ones(v) >= k }

  /** The outcomes at least as one-sided as k against n - k. */
  function AsExtreme(n: nat, k: nat): set<Signs> { set v | v in Vectors(n) && Minority(v) <= k }

  lemma {:induction false} VectorsAreAll(n: nat, v: Signs)
    ensures v in Vectors(n) <==> |v| == n
  {
    if n > 0 {
      if |v| == n {
        VectorsAreAll(n - 1, v[..n - 1]);
        assert v == v[..n - 1] + [v[n - 1]];
        assert v in Extended(Vectors(n - 1), v[n - 1]);
      }
      forall u | u in Vectors(n - 1) ensures |u| == n - 1 {
        VectorsAreAll(n - 1, u);
      }
    }
  }

  lemma OnesOfExtended(v: Signs, b: bool)
    ensures Ones(v + [b]) == Ones(v) + if b then 1 else 0
  {
    assert (v + [b])[..|v|] == v;
  }

  lemma {:induction false} OnesBound(v: Signs)
    ensures Ones(v) <= |v|
  {
    if v != [] {
      OnesBound(v[..|v| - 1]);
    }
  }

  lemma {:induction false} ExtendedSize(s: set<Signs>, b: bool)
    ensures |Extended(s, b)| == |s|
  {
    if s != {} {
      var v :| v in s;
      ExtendedSize(s - {v}, b);
      assert v + [b] !in Extended(s - {v}, b) by {
        if u :| u in s - {v} && u + [b] == v + [b] {
          assert u == (u + [b])[..|u|] && v == (v + [b])[..|v|];
        }
      }
      assert Extended(s, b) == Extended(s - {v}, b) + {v + [b]};
    }
  }

  lemma ExtendedApart(s: set<Signs>, t: set<Signs>)
    ensures |Extended(s, false) + Extended(t, true)| == |s| + |t|
  {
    forall v | v in Extended(s, false) ensures v !in Extended(t, true) {
      assert !v[|v| - 1];
      forall u | u in t ensures u + [true] != v {
        assert (u + [true])[|u|];
      }
    }
    ExtendedSize(s, false);
    ExtendedSize(t, true);
    SizeOfDisjoint(Extended(s, false), Extended(t, true));
  }

  lemma SizeOfDisjoint<T>(a: set<T>, b: set<T>)
    requires a !! b
    ensures |a + b| == |a| + |b|
  {
  }

  /** The last sign splits the vectors of n. */
  lemma SplitByLast(n: nat, k: nat)
    requires n > 0
    ensures WithOnes(n, k) == Extended(WithOnes(n - 1, k), false) + if k == 0 then {} else Extended(WithOnes(n - 1, k - 1), true)
  {
    var split := Extended(WithOnes(n - 1, k), false) + if k == 0 then {} else Extended(WithOnes(n - 1, k - 1), true);
    forall v ensures v in WithOnes(n, k) <==> v in split {
      if v in Vectors(n) {
        VectorsAreAll(n, v);
        var u, b := v[..n - 1], v[n - 1];
        assert v == u + [b];
        VectorsAreAll(n - 1, u);
        OnesOfExtended(u, b);
        forall w, c | w + [c] == v ensures w == u && c == b {
          assert w == (w + [c])[..|w|];
        }
      } else {
        forall u, b | u in Vectors(n - 1) ensures u + [b] in Vectors(n) {
          assert u + [b] in Extended(Vectors(n - 1), b);
        }
      }
    }
  }

  lemma NoSigns(k: nat)
    ensures |WithOnes(0, k)| == Comb(0, k)
  {
    assert Ones([]) == 0;
    assert WithOnes(0, k) == if k == 0 then {[]} else {};
  }

  lemma {:induction false} WithOnesSize(n: nat, k: nat)
    ensures |WithOnes(n, k)| == Comb(n, k)
    decreases n
  {
    hide WithOnes, Extended;
    if n == 0 {
      NoSigns(k);
    } else {
      SplitByLast(n, k);
      WithOnesSize(n - 1, k);
      if k > 0 {
        WithOnesSize(n - 1, k - 1);
        ExtendedApart(WithOnes(n - 1, k), WithOnes(n - 1, k - 1));
      } else {
        ExtendedSize(WithOnes(n - 1, k), false);
        assert WithOnes(n, k) == Extended(WithOnes(n - 1, k), false);
        CombEdge(n - 1);
      }
    }
  }

  lemma CombEdge(n: nat)
    ensures Comb(n, 0) == 1
  {
  }

  lemma {:induction false} WithAtMostSize(n: nat, k: nat)
    ensures |WithAtMost(n, k)| == CombSum(n, k)
  {
    WithOnesSize(n, k);
    if k == 0 {
      assert WithAtMost(n, 0) == WithOnes(n, 0);
    } else {
      WithAtMostSize(n, k - 1);
      assert WithAtMost(n, k) == WithAtMost(n, k - 1) + WithOnes(n, k);
      SizeOfDisjoint(WithAtMost(n, k - 1), WithOnes(n, k));
    }
  }

  lemma {:induction false} VectorsSize(n: nat)
    ensures |Vectors(n)| == Pow2(n)
  {
    if n > 0 {
      VectorsSize(n - 1);
      ExtendedApart(Vectors(n - 1), Vectors(n - 1));
    }
  }

  // ---------------------------------------------------------------- the other tail

  function Opposite(v: Signs): (w: Signs) { seq(|v|, i requires 0 <= i < |v| => !v[i]) }

  lemma {:induction false} OnesOfOpposite(v: Signs)
    ensures Ones(Opposite(v)) == |v| - Ones(v)
  {
    if v != [] {
      var w := Opposite(v);
      assert w[..|w| - 1] == Opposite(v[..|v| - 1]);
      OnesOfOpposite(v[..|v| - 1]);
    }
  }

  lemma OppositeTwice(v: Signs)
    ensures Opposite(Opposite(v)) == v
  {
  }

  function Opposites(s: set<Signs>): set<Signs> { set v | v in s :: Opposite(v) }

  lemma {:induction false} OppositesSize(s: set<Signs>)
    ensures |Opposites(s)| == |s|
  {
    if s != {} {
      var v :| v in s;
      OppositesSize(s - {v});
      forall u | u in s - {v} ensures Opposite(u) != Opposite(v) {
        OppositeTwice(u);
        OppositeTwice(v);
      }
      assert Opposites(s) == Opposites(s - {v}) + {Opposite(v)};
    }
  }

  /** As many outcomes lean one way as the other. */
  lemma TailsAreEqual(n: nat, k: nat)
    requires k <= n
    ensures |WithAtLeast(n, n - k)| == CombSum(n, k)
  {
    forall v ensures v in WithAtLeast(n, n - k) <==> v in Opposites(WithAtMost(n, k)) {
      VectorsAreAll(n, v);
      OnesOfOpposite(v);
      OppositeTwice(v);
      VectorsAreAll(n, Opposite(v));
      forall u | u in WithAtMost(n, k) && Opposite(u) == v ensures v in WithAtLeast(n, n - k) {
        VectorsAreAll(n, u);
        OnesOfOpposite(u);
      }
      if v in WithAtLeast(n, n - k) {
        assert Opposite(v) in WithAtMost(n, k);
      }
    }
    assert WithAtLeast(n, n - k) == Opposites(WithAtMost(n, k));
    OppositesSize(WithAtMost(n, k));
    WithAtMostSize(n, k);
  }

  /** How many outcomes are at least as extreme. */
  lemma AsExtremeSize(n: nat, k: nat)
    requires k <= n
    ensures 2 * k < n ==> |AsExtreme(n, k)| == 2 * CombSum(n, k)
    ensures 2 * k + 1 >= n ==> AsExtreme(n, k) == Vectors(n)
    ensures 2 * CombSum(n, k) >= |AsExtreme(n, k)|
  {
    forall v | v in Vectors(n) ensures |v| == n { VectorsAreAll(n, v); }
    assert AsExtreme(n, k) == WithAtMost(n, k) + WithAtLeast(n, n - k);
    WithAtMostSize(n, k);
    TailsAreEqual(n, k);
    if 2 * k < n {
      SizeOfDisjoint(WithAtMost(n, k), WithAtLeast(n, n - k));
    } else {
      SizeOfUnion(WithAtMost(n, k), WithAtLeast(n, n - k));
    }
  }

  lemma SizeOfUnion<T>(a: set<T>, b: set<T>)
    ensures |a + b| <= |a| + |b|
  {
    assert a + b == a + (b - a);
    assert b == (b - a) + (b * a);
  }

  // ---------------------------------------------------------------- what p is

  lemma Times(x: real, y: real, z: real)
    requires z > 0.0
    ensures x < y <==> x * z < y * z
  {
    var d := y - x;
    assert d * z == y * z - x * z;
    assert d > 0.0 <==> d * z > 0.0;
  }

  lemma FractionOrder(m: nat, k: nat, all: nat)
    requires all > 0
    ensures Fraction(m, all) < Fraction(k, all) <==> m < k
    ensures Fraction(all, all) == 1.0
    ensures 2.0 * Fraction(m, all) == Fraction(2 * m, all)
  {
    Times(Fraction(m, all), Fraction(k, all), all as real);
  }

  lemma DoubledCounts(c: nat, all: nat, m: nat)
    requires all > 0 && (2 * c < all ==> m == 2 * c) && (2 * c >= all ==> m == all)
    ensures Doubled(c, all) == Fraction(m, all)
  {
    FractionOrder(c, c, all);
    FractionOrder(2 * c, all, all);
    hide Fraction;
  }

  /** p is the fraction of the outcomes that are at least as one-sided as the one observed. */
  lemma PIsAFraction(negative: nat, positive: nat)
    requires negative + positive > 0
    ensures var n := negative + positive;
      |Vectors(n)| == Pow2(n) && ExactSignP(negative, positive) == Fraction(|AsExtreme(n, Smaller(negative, positive))|, Pow2(n))
  {
    var n, k := negative + positive, Smaller(negative, positive);
    AsExtremeSize(n, k);
    VectorsSize(n);
    SubsetSize(AsExtreme(n, k), Vectors(n));
    hide CombSum, AsExtreme, Vectors, Pow2, Doubled, Fraction;
    DoubledCounts(CombSum(n, k), Pow2(n), |AsExtreme(n, k)|);
  }

  /** p only grows with the minority, and it does not matter which sign that is. */
  lemma PIsMonotone(a: nat, b: nat, c: nat, d: nat)
    requires a + b == c + d && Smaller(a, b) <= Smaller(c, d)
    ensures ExactSignP(a, b) <= ExactSignP(c, d)
    ensures ExactSignP(a, b) == ExactSignP(b, a)
  {
    hide Fraction, Doubled, Pow2, CombSum, Vectors;
    assert ExactSignP(a, b) == ExactSignP(b, a);
    var n := a + b;
    if n > 0 {
      PIsAFraction(a, b);
      PIsAFraction(c, d);
      var s, t := AsExtreme(n, Smaller(a, b)), AsExtreme(n, Smaller(c, d));
      assert s <= t;
      SubsetSize(s, t);
      FractionOrder(|t|, |s|, Pow2(n));
    }
  }

  lemma {:induction false} SomeSigns(n: nat, k: nat) returns (v: Signs)
    requires k <= n
    ensures |v| == n && Ones(v) == k
  {
    if n == 0 {
      v := [];
    } else {
      v := SomeSigns(n - 1, if k == 0 then 0 else k - 1);
      OnesOfExtended(v, k > 0);
      v := v + [k > 0];
    }
  }

  lemma AllAsExtremeIff(n: nat, k: nat)
    requires 2 * k <= n
    ensures |AsExtreme(n, k)| == Pow2(n) <==> n <= 2 * k + 1
  {
    AsExtremeSize(n, k);
    VectorsSize(n);
    SubsetSize(AsExtreme(n, k), Vectors(n));
    if 2 * k + 1 < n {
      var v := SomeSigns(n, n / 2);
      VectorsAreAll(n, v);
      assert v !in AsExtreme(n, k);
    }
  }

  /** Nothing is learnt, p is 1, exactly when the two signs are as balanced as their number allows. */
  lemma PIsOneIff(negative: nat, positive: nat)
    ensures ExactSignP(negative, positive) == 1.0 <==> -1 <= negative - positive <= 1
  {
    var n, k := negative + positive, Smaller(negative, positive);
    if n > 0 {
      PIsAFraction(negative, positive);
      AllAsExtremeIff(n, k);
      VectorsSize(n);
      var m, all := |AsExtreme(n, k)|, Pow2(n);
      hide *;
      FractionOrder(m, all, all);
      FractionOrder(all, m, all);
    }
  }
}
