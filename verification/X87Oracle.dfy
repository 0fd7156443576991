/**
 * The four rewrites of the guest's x87 dither sequence (harness/dither/x87_oracle.c), on finite
 * float32 inputs, under round-toward-zero.
 *
 * A float32 is its 32-bit word.  Every finite float32 is a whole number of units of 2^-149, so the
 * arithmetic is exact integer arithmetic followed by truncation.
 */
module X87Oracle {
  import opened Truncation

  type Word = w: nat | w < 0x1_0000_0000

  const SIGN := 0x8000_0000
  const INFINITY := 0x7f80_0000      // the exponent field, all ones
  const MAX_FINITE := 0x7f7f_ffff
  const INDEFINITE := -0x8000_0000   // (int32_t)0x80000000

  /** 1.0 in units of 2^-149. */
  function One(): (u: nat)
    ensures u > 0
  {
    Pow2(149)
  }

  /** The integer part of a magnitude. */
  function Whole(n: nat): nat { Quotient(n, One()) }

  /** 2^31 in units of 2^-149. */
  function Limit(): nat { Pow2(180) }

  predicate Negative(w: Word) { w >= SIGN }

  function Bits(w: Word): nat { w % SIGN }

  predicate Finite(w: Word) { Bits(w) < INFINITY }

  /** The magnitude of a word without its sign, in units of 2^-149. */
  function Mag(bits: nat): nat {
    if bits < 0x100_0000 then bits else 2 * Mag(bits - 0x80_0000)
  }

  function Value(w: Word): int {
    var m: int := Mag(Bits(w));
    if Negative(w) then -m else m
  }

  /** The word of a magnitude narrowed to float32 toward zero; an overflow gives the largest float. */
  function Encode(n: nat): nat {
    if n < 0x100_0000 then n else Encode(n / 2) + 0x80_0000
  }

  function Narrow(n: nat): (bits: nat)
    ensures bits <= MAX_FINITE
  {
    if Encode(n) <= MAX_FINITE then Encode(n) else MAX_FINITE
  }

  function Abs(x: int): nat { if x >= 0 then x else -x }

  /** Rounding toward zero acts on the magnitude. */
  function RoundTo(p: nat, x: int): int {
    var r: int := Rz(p, Abs(x));
    if x >= 0 then r else -r
  }

  /** The value of x as a float32. */
  function ToFloat(x: int): int {
    var r: int := Mag(Narrow(Abs(x)));
    if x >= 0 then r else -r
  }

  /** The C conversion to an integer, and FISTP under RC=11: toward zero. */
  function Truncate(x: int): int {
    var q: int := Whole(Abs(x));
    if x >= 0 then q else -q
  }

  // ---------------------------------------------------------------- the rewrites

  /** The two precision-control settings the oracle tries. */
  datatype Precision = PC53 | PC64 {
    function Width(): nat { if PC53? then 53 else 64 }
  }

  /** FISTPL: the integer indefinite is stored when the truncated value does not fit. */
  function Fistp(t: int): int {
    var i := Truncate(t);
    if -0x8000_0000 <= i < 0x8000_0000 then i else INDEFINITE
  }

  /** The guest's sequence: FLDS, FMULS 255, FADDS, FSTPS, FLDS, FISTPL. */
  function Reference(s: Word, d: Word, pc: Precision): int {
    if !Finite(s) || !Finite(d) then INDEFINITE
    else
      var product := RoundTo(pc.Width(), 255 * Value(s));
      var sum := RoundTo(pc.Width(), product + Value(d));
      Fistp(ToFloat(sum))
  }

  /**
   * The range test the C rewrites share.  The literal -2147483649.0f is not a float: it is the
   * nearest one, -2147483648.0f.
   */
  function ToInt(t: int): int {
    if Abs(t) < Limit() then Truncate(t) else INDEFINITE
  }

  function Candidate(s: Word, d: Word): int {
    if !Finite(s) || !Finite(d) then INDEFINITE
    else ToInt(ToFloat(RoundTo(53, RoundTo(53, 255 * Value(s)) + Value(d))))
  }

  /** The sum the float32 rewrites make: the product is narrowed before the addition. */
  function FloatSum(s: Word, d: Word): int {
    ToFloat(ToFloat(255 * Value(s)) + Value(d))
  }

  function CandidateFloat32(s: Word, d: Word): int {
    if !Finite(s) || !Finite(d) then INDEFINITE else ToInt(FloatSum(s, d))
  }

  datatype Fast = Fast(value: int) | Exact

  /** The boundary detector on the word of the float32 sum. */
  predicate NearBoundary(u: nat)
    requires u < SIGN
  {
    var exponent := u / 0x80_0000;
    if exponent < 127 then 0x3f80_0000 - u <= 4
    else if exponent < 150 then
      var unit := Pow2(150 - exponent);
      var fraction := u % unit;
      fraction != 0 && unit - fraction <= 4
    else false
  }

  /** The fast path of the hybrid rewrite; `Exact` is its goto. */
  function HybridFast(s: Word, d: Word): Fast {
    if Negative(s) || Negative(d) || !Finite(s) || !Finite(d) then Exact
    else
      var u := Narrow(Mag(Narrow(255 * Mag(s))) + Mag(d));
      if u / 0x80_0000 * 0x80_0000 >= 0x4f00_0000 || NearBoundary(u) then Exact
      else Fast(Truncate(Mag(u)))
  }

  function Hybrid(s: Word, d: Word): int {
    match HybridFast(s, d) case Fast(v) => v case Exact => Candidate(s, d)
  }

  function DirectFast(s: Word, d: Word): Fast {
    if Negative(s) || Negative(d) || !Finite(s) || !Finite(d) then Exact
    else
      var t := Rz(53, Rz(53, 255 * Mag(s)) + Mag(d));
      if !(t < Limit()) then Exact else Fast(Truncate(t))
  }

  function Direct(s: Word, d: Word): int {
    match DirectFast(s, d) case Fast(v) => v case Exact => Candidate(s, d)
  }

  // ---------------------------------------------------------------- words

  lemma {:induction false} EncodeAtLeast(n: nat)
    requires n >= 0x80_0000
    ensures Encode(n) >= 0x80_0000
  {
    if n >= 0x100_0000 {
      EncodeAtLeast(n / 2);
    }
  }

  /** Encoding truncates to the 24 bits of a float32 significand. */
  lemma {:induction false} MagOfEncode(n: nat)
    ensures Mag(Encode(n)) == Rz(24, n)
  {
    Pow2Values();
    if n >= 0x100_0000 {
      MagOfEncode(n / 2);
      EncodeAtLeast(n / 2);
    }
  }

  lemma {:induction false} MagAtLeast(b: nat)
    ensures Mag(b) >= b
  {
    if b >= 0x100_0000 {
      MagAtLeast(b - 0x80_0000);
    }
  }

  lemma {:induction false} MagMonotone(b: nat, b': nat)
    requires b < b'
    ensures Mag(b) < Mag(b')
  {
    if b >= 0x100_0000 {
      MagMonotone(b - 0x80_0000, b' - 0x80_0000);
    } else {
      MagAtLeast(b');
    }
  }

  /** Every word is the word of its own value. */
  lemma {:induction false} EncodeOfMag(b: nat)
    ensures Encode(Mag(b)) == b
  {
    if b >= 0x100_0000 {
      EncodeOfMag(b - 0x80_0000);
      MagAtLeast(b - 0x80_0000);
    }
  }

  /** The words of one binade, its upper end included, are evenly spaced: the IEEE 754 reading. */
  lemma {:induction false} MagLinear(b: nat, exponent: nat)
    requires exponent > 0 && 0x80_0000 * exponent <= b <= 0x80_0000 * (exponent + 1)
    ensures Mag(b) == (b - 0x80_0000 * (exponent - 1)) * Pow2(exponent - 1)
  {
    if exponent == 1 {
    } else {
      MagLinear(b - 0x80_0000, exponent - 1);
      Associate(2, b - 0x80_0000 * (exponent - 1), Pow2(exponent - 2));
    }
  }

  lemma MagFixed(b: nat)
    ensures Rz(24, Mag(b)) == Mag(b)
  {
    MagOfEncode(Mag(b));
    EncodeOfMag(b);
  }

  /** The next word up is one unit in the last place away. */
  lemma {:induction false} MagNext(b: nat)
    ensures Mag(b + 1) == Mag(b) + Ulp(24, Mag(b))
  {
    Pow2Values();
    if b >= 0x100_0000 {
      MagNext(b - 0x80_0000);
      MagAtLeast(b - 0x80_0000);
    }
  }

  lemma MagOfPower(k: nat)
    ensures Mag(0x80_0000 * (k + 1)) == Pow2(23 + k)
  {
    MagLinear(0x80_0000 * (k + 1), k + 1);
    Pow2Values();
    Pow2Sum(23, k);
  }

  lemma WordOfOne()
    ensures Mag(0x3f80_0000) == One()
  {
    MagOfPower(126);
  }

  lemma WordOfLimit()
    ensures Mag(0x4f00_0000) == Limit()
  {
    MagOfPower(157);
  }

  lemma LimitIsFinite()
    ensures Limit() < Mag(MAX_FINITE)
  {
    WordOfLimit();
    MagMonotone(0x4f00_0000, MAX_FINITE);
  }

  lemma LimitInOnes()
    ensures Limit() == 0x8000_0000 * One()
  {
    Pow2Sum(31, 149);
    Pow2Values();
  }

  /** Narrowing is truncation to 24 bits, up to the largest float. */
  lemma NarrowValue(n: nat)
    ensures Mag(Narrow(n)) == if Rz(24, n) <= Mag(0x7f7f_ffff) then Rz(24, n) else Mag(0x7f7f_ffff)
  {
    MagOfEncode(n);
    if Encode(n) < MAX_FINITE {
      MagMonotone(Encode(n), MAX_FINITE);
    } else if Encode(n) > MAX_FINITE {
      MagMonotone(MAX_FINITE, Encode(n));
    }
  }

  lemma NarrowBelow(n: nat)
    requires Mag(Narrow(n)) < Mag(MAX_FINITE)
    ensures Mag(Narrow(n)) == Rz(24, n)
  {
    NarrowValue(n);
  }

  // ---------------------------------------------------------------- the rewrite is the x87 sequence

  lemma {:induction false} MagTimes(b: nat, c: nat, p: nat)
    requires c > 0 && c * 0x100_0000 <= Pow2(p)
    ensures Representable(p, c * Mag(b))
  {
    if b < 0x100_0000 {
      Distribute(c, b, 0x100_0000 - b);
      AtLeastOnce(c, 0x100_0000 - b);
      assert Float(p, c * b, c * b, 0);
    } else {
      MagTimes(b - 0x80_0000, c, p);
      var m: nat, e: nat :| Float(p, c * Mag(b - 0x80_0000), m, e);
      var _ := HalfOf(m, e + 1);
      assert Float(p, c * Mag(b), m, e + 1);
    }
  }

  /** s * 255 is exact in 53 and in 64 bits. */
  lemma ProductIsExact(s: Word, p: nat)
    requires p >= 53
    ensures RoundTo(p, 255 * Value(s)) == 255 * Value(s)
    ensures Rz(p, 255 * Mag(Bits(s))) == 255 * Mag(Bits(s))
  {
    Pow2Monotone(32, p);
    Pow2Values();
    MagTimes(Bits(s), 255, p);
    RzFixed(p, 255 * Mag(Bits(s)));
  }

  lemma OneFits(p: nat)
    requires p > 0
    ensures Representable(p, 1)
  {
    Pow2Monotone(1, p);
    assert Float(p, 1, 1, 0);
  }

  /** Rounding to 53 or 64 bits before narrowing changes nothing. */
  lemma NarrowNested(x: int, p: nat)
    requires p >= 24
    ensures ToFloat(RoundTo(p, x)) == ToFloat(x)
  {
    hide Pow2, Mag, Narrow;
    RzNested(24, p, Abs(x));
    NarrowValue(Rz(p, Abs(x)));
    NarrowValue(Abs(x));
    if x != 0 {
      OneFits(p);
      RzLargest(p, Abs(x), 1);
    }
  }

  lemma RangeTest(t: int)
    ensures ToInt(t) == Fistp(t)
  {
    hide Pow2;
    LimitInOnes();
    RangeIn(Abs(t), One());
  }

  lemma RangeIn(n: nat, one: nat)
    requires one > 0
    ensures n < 0x8000_0000 * one <==> n / one < 0x8000_0000
  {
    DivBound(n, one, 0x8000_0000);
  }

  lemma DivBound(n: nat, u: nat, k: nat)
    requires u > 0
    ensures n < k * u <==> n / u < k
  {
    assert n == u * (n / u) + n % u;
    if n / u < k {
      Distribute(u, n / u + 1, k - (n / u + 1));
      Distribute(u, n / u, 1);
      if k > n / u + 1 { AtLeastOnce(u, k - (n / u + 1)); }
    } else {
      Distribute(u, k, n / u - k);
      if n / u > k { AtLeastOnce(u, n / u - k); }
    }
  }

  /** The exact sum, narrowed once, is what either precision leads to. */
  lemma SumIsNarrowedOnce(s: Word, d: Word, p: nat)
    requires p >= 53
    ensures ToFloat(RoundTo(p, RoundTo(p, 255 * Value(s)) + Value(d))) == ToFloat(255 * Value(s) + Value(d))
  {
    ProductIsExact(s, p);
    NarrowNested(255 * Value(s) + Value(d), p);
  }

  /**
   * The C rewrite computes what the guest computes: for every pair of words, of either sign,
   * finite or not, at both precision settings, the integer indefinite included.
   */
  lemma CandidateIsReference(s: Word, d: Word, pc: Precision)
    ensures Candidate(s, d) == Reference(s, d, pc)
  {
    hide ToInt, Fistp, Value, RoundTo, ToFloat;
    SumIsNarrowedOnce(s, d, 53);
    SumIsNarrowedOnce(s, d, pc.Width());
    RangeTest(ToFloat(255 * Value(s) + Value(d)));
  }

  // What that value is, on the signs and magnitudes of the words.

  /** The integer part of n units of 2^-149 after truncation to 24 bits, with a sign; out of range it is the indefinite. */
  function Signed(negative: bool, n: nat): int {
    if n >= 0x8000_0000 * Pow2(149) then -0x8000_0000
    else if negative then -(Rz(24, n) / Pow2(149))
    else Rz(24, n) / Pow2(149)
  }

  lemma ConvertSum(x: int)
    ensures ToInt(ToFloat(x)) == Signed(x < 0, Abs(x))
  {
    hide Pow2, Rz, Mag, Narrow;
    var n := Abs(x);
    LimitInOnes();
    LimitIsFinite();
    NarrowValue(n);
    RzError(24, n);
    assert Limit() == Pow2(23 + 157);
    AboveTruncation(n, 157);
  }

  /**
   * Infinities and NaNs give the indefinite; of the other words two of one sign add up, two of
   * different signs cancel, and the larger gives the sign.
   */
  lemma CandidateBySign(s: Word, d: Word)
    ensures s % 0x8000_0000 >= 0x7f80_0000 || d % 0x8000_0000 >= 0x7f80_0000 ==> Candidate(s, d) == -0x8000_0000
    ensures s % 0x8000_0000 < 0x7f80_0000 && d % 0x8000_0000 < 0x7f80_0000 ==>
      var p, m := 255 * Mag(s % 0x8000_0000), Mag(d % 0x8000_0000);
      var minus, minus' := s >= 0x8000_0000, d >= 0x8000_0000;
      && (minus == minus' ==> Candidate(s, d) == Signed(minus, p + m))
      && (minus != minus' && p >= m ==> Candidate(s, d) == Signed(minus, p - m))
      && (minus != minus' && p <= m ==> Candidate(s, d) == Signed(minus', m - p))
  {
    hide Pow2, Rz, Mag, Narrow, ToInt, ToFloat, RoundTo, Signed;
    SumIsNarrowedOnce(s, d, 53);
    ConvertSum(255 * Value(s) + Value(d));
    NoSignOfZero();
  }

  /** The same for the float32 rewrite, which narrows the product first. */
  lemma Float32BySign(s: Word, d: Word)
    ensures s % 0x8000_0000 >= 0x7f80_0000 || d % 0x8000_0000 >= 0x7f80_0000 ==> CandidateFloat32(s, d) == -0x8000_0000
    ensures s % 0x8000_0000 < 0x7f80_0000 && d % 0x8000_0000 < 0x7f80_0000 ==>
      var p, m := Mag(Narrow(255 * Mag(s % 0x8000_0000))), Mag(d % 0x8000_0000);
      var minus, minus' := s >= 0x8000_0000, d >= 0x8000_0000;
      && (minus == minus' ==> CandidateFloat32(s, d) == Signed(minus, p + m))
      && (minus != minus' && p >= m ==> CandidateFloat32(s, d) == Signed(minus, p - m))
      && (minus != minus' && p <= m ==> CandidateFloat32(s, d) == Signed(minus', m - p))
  {
    hide Pow2, Rz, Mag, Narrow, ToInt, Signed;
    ConvertSum(ToFloat(255 * Value(s)) + Value(d));
    assert Mag(Narrow(0)) == 0 by { NarrowZero(); }
    NoSignOfZero();
  }

  lemma NarrowZero()
    ensures Mag(Narrow(0)) == 0
  {
  }

  lemma NoSignOfZero()
    ensures Signed(true, 0) == Signed(false, 0) == 0
  {
    RzError(24, 0);
    OneIsPower();
    hide Pow2, Rz;
    WholeMultiple(Pow2(149), 0);
  }

  function Flip(w: Word): Word { (w + SIGN) % 0x1_0000_0000 }

  lemma FlipKeepsBits(w: Word)
    ensures Bits(Flip(w)) == Bits(w) && Negative(Flip(w)) == !Negative(w)
  {
  }

  lemma SignedMirrors(n: nat)
    ensures Signed(true, n) == -Signed(false, n) <==> n < 0x8000_0000 * Pow2(149)
  {
  }

  /** Flipping both signs negates the result exactly when the sum is below 2^31. */
  lemma CandidateIsOdd(s: Word, d: Word)
    requires Finite(s) && Finite(d)
    ensures var p, m := 255 * Mag(Bits(s)), Mag(Bits(d));
      var sum: nat := if Negative(s) == Negative(d) then p + m else if p >= m then p - m else m - p;
      Candidate(Flip(s), Flip(d)) == -Candidate(s, d) <==> sum < 0x8000_0000 * Pow2(149)
  {
    hide Pow2, Signed, Mag, Candidate;
    FlipKeepsBits(s);
    FlipKeepsBits(d);
    CandidateBySign(s, d);
    CandidateBySign(Flip(s), Flip(d));
    var p, m := 255 * Mag(Bits(s)), Mag(Bits(d));
    SignedMirrors(if Negative(s) == Negative(d) then p + m else if p >= m then p - m else m - p);
  }

  lemma Float32IsOdd(s: Word, d: Word)
    requires Finite(s) && Finite(d)
    ensures var p, m := Mag(Narrow(255 * Mag(Bits(s)))), Mag(Bits(d));
      var sum: nat := if Negative(s) == Negative(d) then p + m else if p >= m then p - m else m - p;
      CandidateFloat32(Flip(s), Flip(d)) == -CandidateFloat32(s, d) <==> sum < 0x8000_0000 * Pow2(149)
  {
    hide Pow2, Signed, Mag, Narrow, CandidateFloat32;
    FlipKeepsBits(s);
    FlipKeepsBits(d);
    Float32BySign(s, d);
    Float32BySign(Flip(s), Flip(d));
    var p, m := Mag(Narrow(255 * Mag(Bits(s)))), Mag(Bits(d));
    SignedMirrors(if Negative(s) == Negative(d) then p + m else if p >= m then p - m else m - p);
  }

  // ---------------------------------------------------------------- the float32 path and its detector

  predicate Plain(w: Word) { !Negative(w) && Finite(w) }

  /** The exact sum, and the float32 path's sum, for inputs without a sign. */
  function ExactSum(s: Word, d: Word): nat { 255 * Mag(Bits(s)) + Mag(Bits(d)) }

  function FastBits(s: Word, d: Word): nat { Narrow(Mag(Narrow(255 * Mag(Bits(s)))) + Mag(Bits(d))) }

  lemma FastSumNarrows(s: Word, d: Word)
    requires Mag(FastBits(s, d)) < Limit()
    ensures Mag(FastBits(s, d)) == Rz(24, Rz(24, 255 * Mag(Bits(s))) + Mag(Bits(d)))
  {
    hide Rz, Pow2, Mag, Narrow;
    var p, m := 255 * Mag(Bits(s)), Mag(Bits(d));
    LimitIsFinite();
    NarrowBelow(Mag(Narrow(p)) + m);
    NarrowValue(p);
    if Rz(24, p) > Mag(MAX_FINITE) {
      MagFixed(MAX_FINITE);
      RzMonotone(24, Mag(MAX_FINITE), Mag(MAX_FINITE) + m);
      assert false;
    }
  }

  /** Each of the two truncations drops less than one unit of the result. */
  lemma FastSumBounds(s: Word, d: Word)
    requires Mag(FastBits(s, d)) < Limit()
    ensures var n, t := ExactSum(s, d), Mag(FastBits(s, d));
            t <= Rz(24, n) <= n < t + 2 * Ulp(24, t)
  {
    hide Rz, Ulp, Pow2, Mag;
    FastSumNarrows(s, d);
    TwoTruncations(24, 255 * Mag(Bits(s)), Mag(Bits(d)));
  }

  /** The value of the exact rewrite on such inputs. */
  lemma CandidateOfSum(s: Word, d: Word)
    requires Plain(s) && Plain(d)
    ensures Candidate(s, d) == ToInt(Mag(Narrow(ExactSum(s, d))))
  {
    hide ToInt, Rz, Mag, Narrow, RoundTo, Pow2;
    SumIsNarrowedOnce(s, d, 53);
  }

  lemma CandidateInRange(s: Word, d: Word)
    requires Plain(s) && Plain(d) && Rz(24, ExactSum(s, d)) < Limit()
    ensures Candidate(s, d) == Whole(Rz(24, ExactSum(s, d)))
  {
    hide Pow2, Rz, Narrow;
    CandidateOfSum(s, d);
    LimitIsFinite();
    NarrowValue(ExactSum(s, d));
  }

  /** Two words further up, the exact sum cannot be. */
  lemma TwoWordsUp(s: Word, d: Word)
    requires Mag(FastBits(s, d)) < Limit()
    ensures ExactSum(s, d) < Mag(FastBits(s, d) + 2)
  {
    hide Rz, Ulp, Pow2, Mag, FastBits, ExactSum, Limit;
    var u := FastBits(s, d);
    FastSumBounds(s, d);
    MagNext(u);
    MagNext(u + 1);
    UlpMonotone(24, Mag(u), Mag(u + 1));
  }

  /** Below 1.0: away from the boundary, the next two words are still below 1.0. */
  lemma BelowOne(u: nat)
    requires u < SIGN && u / 0x80_0000 < 127 && !NearBoundary(u)
    ensures Mag(u + 2) <= One()
  {
    hide Mag, One;
    WordOfOne();
    if u + 2 < 0x3f80_0000 { MagMonotone(u + 2, 0x3f80_0000); }
  }

  /** The low bits of the word are the low bits of the significand. */
  lemma SplitWord(u: nat, e: nat, unit: nat) returns (q: nat, r: nat)
    requires u < SIGN && e == u / 0x80_0000 && 127 <= e < 150 && unit == Pow2(150 - e)
    ensures unit >= 2 && r == u % unit && u - 0x80_0000 * (e - 1) == unit * q + r
    ensures u + unit - r <= 0x80_0000 * (e + 1)
  {
    Pow2Sum(150 - e, e - 127);
    Pow2Values();
    TwoDivides(150 - e);
    hide Pow2;
    q, r := SplitBySpan(u, unit, Pow2(e - 127), e - 1);
  }

  lemma SplitBySpan(u: nat, unit: nat, k: nat, a: nat) returns (q: nat, r: nat)
    requires unit >= 2 && unit * k == 0x80_0000 && 0x80_0000 * a <= u - 0x80_0000 < 0x80_0000 * (a + 1)
    ensures r == u % unit && u - 0x80_0000 * a == unit * q + r
    ensures u + unit - r <= 0x80_0000 * (a + 2)
  {
    var base, top := k * a, k * (a + 2);
    Associate(unit, k, a);
    Associate(unit, k, a + 2);
    var whole := u / unit;
    r := u % unit;
    assert u == unit * whole + r;
    assert unit * base == 0x80_0000 * a && unit * top == 0x80_0000 * (a + 2);
    Between(unit, whole, r, base, top);
    q := whole - base;
    Distribute(unit, base, q);
    Distribute(unit, whole, 1);
  }

  /** From 1.0 up to 2^23 the word stands for q ones and r / unit of one, and q + 1 has a word too. */
  lemma WordParts(u: nat) returns (unit: nat, q: nat, r: nat)
    requires u < SIGN && 127 <= u / 0x80_0000 < 150
    ensures unit == Pow2(150 - u / 0x80_0000) >= 2 && r == u % unit
    ensures Mag(u) / One() == q && (Mag(u) % One() == 0 <==> r == 0)
    ensures Mag(u + unit - r) == (q + 1) * One()
  {
    var e := u / 0x80_0000;
    unit := Pow2(150 - e);
    q, r := SplitWord(u, e, unit);
    var g, w := Pow2(e - 1), u + unit - r;
    Pow2Sum(150 - e, e - 1);
    OneIsPower();
    MagLinear(u, e);
    MagLinear(w, e);
    hide Pow2, Mag, One;
    Distribute(unit, q, 1);
    Fraction(unit, q, r, g, One(), Mag(u), Mag(w), w - 0x80_0000 * (e - 1));
  }

  lemma Fraction(unit: nat, q: nat, r: nat, g: nat, one: nat, t: nat, next: nat, m: nat)
    requires unit > 0 && g > 0 && r < unit && one == unit * g && one > 0
    requires t == (unit * q + r) * g && m == unit * (q + 1) && next == m * g
    ensures t / one == q && (t % one == 0 <==> r == 0) && next == (q + 1) * one
  {
    Regroup(unit, q, g);
    Regroup(unit, q + 1, g);
    Distribute(g, unit * q, r);
    Distribute(g, r, unit - r);
    AtLeastOnce(g, unit - r);
    DivUnique(t, one, q, r * g);
    if r > 0 { AtLeastOnce(g, r); }
  }

  /** Away from the boundary, the next two words stay below the next whole number. */
  lemma BelowNextWhole(u: nat) returns (q: nat)
    requires u < SIGN && 127 <= u / 0x80_0000 < 150 && !NearBoundary(u)
    ensures q * One() <= Mag(u) && Mag(u + 2) <= (q + 1) * One()
  {
    var unit, r;
    unit, q, r := WordParts(u);
    var w := u + unit - r;
    assert r == 0 || unit - r > 4;
    hide NearBoundary, Pow2, Mag, One;
    if u + 2 < w { MagMonotone(u + 2, w); }
    assert Mag(u) == One() * q + Mag(u) % One();
  }

  lemma TwoDivides(n: nat)
    requires n > 0
    ensures Pow2(n) >= 2
  {
  }

  lemma Between(unit: nat, q: nat, r: nat, base: nat, top: nat)
    requires unit > 0 && r < unit && unit * base <= unit * q + r < unit * top
    ensures base <= q < top && unit * (q + 1) <= unit * top
  {
    if q < base { Distribute(unit, q, base - q); AtLeastOnce(unit, base - q); }
    if q >= top { Distribute(unit, top, q - top); if q > top { AtLeastOnce(unit, q - top); } }
    Distribute(unit, q + 1, top - (q + 1));
    if top > q + 1 { AtLeastOnce(unit, top - (q + 1)); }
  }

  lemma Regroup(unit: nat, q: nat, g: nat)
    ensures (unit * q) * g == q * (unit * g)
  {
  }

  lemma SameQuotient(q: nat, one: nat, x: nat)
    requires one > 0 && q * one <= x < (q + 1) * one
    ensures x / one == q
  {
    Distribute(one, q, 1);
    DivUnique(x, one, q, x - one * q);
  }

  /** The words whose value is a float below 2^23: the ones the boundary test looks at. */
  predicate Tested(u: nat) { u < 0x80_0000 * 150 }

  /**
   * Wherever the boundary test looks, it is conservative: when it does not fire, no integer lies
   * between the float32 sum and the exact one, so the fast integer is the exact rewrite's.
   */
  lemma TestedIsSafe(s: Word, d: Word)
    requires Plain(s) && Plain(d) && Tested(FastBits(s, d)) && !NearBoundary(FastBits(s, d))
    ensures Truncate(Mag(FastBits(s, d))) == Candidate(s, d)
  {
    hide Pow2, Rz, Ulp, Mag, FastBits, ExactSum, NearBoundary, Candidate, Limit, One;
    var u, n := FastBits(s, d), ExactSum(s, d);
    WordOfLimit();
    MagMonotone(u, 0x4f00_0000);
    if u + 2 < 0x4f00_0000 { MagMonotone(u + 2, 0x4f00_0000); }
    FastSumBounds(s, d);
    TwoWordsUp(s, d);
    var q: nat := 0;
    if u / 0x80_0000 < 127 { BelowOne(u); } else { q := BelowNextWhole(u); }
    SameQuotient(q, One(), Mag(u));
    SameQuotient(q, One(), Rz(24, n));
    CandidateInRange(s, d);
  }

  /** From 2^23 on, a float32 is an integer and its unit at least 1; there the test looks at nothing. */
  lemma UntestedUnit(u: nat)
    requires !Tested(u)
    ensures Ulp(24, Mag(u)) >= One()
  {
    hide Mag, Ulp;
    MagOfPower(149);
    if u > 0x80_0000 * 150 { MagMonotone(0x80_0000 * 150, u); }
    UlpAtLeast(24, Mag(u), 149);
  }

  lemma UntestedIsExact(s: Word, d: Word)
    requires Plain(s) && Plain(d) && !Tested(FastBits(s, d)) && FastBits(s, d) < 0x4f00_0000
    ensures var t := Mag(FastBits(s, d));
            Truncate(t) == Candidate(s, d) <==> ExactSum(s, d) - t < Ulp(24, t)
  {
    hide Pow2, Rz, Ulp, Mag, FastBits, ExactSum, Candidate, Limit, One, Narrow;
    var u, n := FastBits(s, d), ExactSum(s, d);
    var t := Mag(u);
    WordOfLimit();
    MagMonotone(u, 0x4f00_0000);
    FastSumBounds(s, d);
    MagFixed(u);
    if n - t < Ulp(24, t) {
      RzInterval(24, t, n);
      CandidateInRange(s, d);
    } else {
      NextFloat(24, t);
      RzLargest(24, n, t + Ulp(24, t));
      UntestedUnit(u);
      NextWhole(t, Rz(24, n), One());
      if Rz(24, n) < Limit() {
        CandidateInRange(s, d);
      } else {
        CandidateOutOfRange(s, d);
      }
    }
  }

  lemma NextWhole(t: nat, r: nat, one: nat)
    requires one > 0 && r >= t + one
    ensures r / one > t / one
  {
    DivBound(r, one, t / one + 1);
    assert t == one * (t / one) + t % one;
    Distribute(one, t / one, 1);
  }

  lemma CandidateOutOfRange(s: Word, d: Word)
    requires Plain(s) && Plain(d) && Rz(24, ExactSum(s, d)) >= Limit()
    ensures Candidate(s, d) == INDEFINITE
  {
    hide Pow2, Rz, Narrow, Mag, ExactSum;
    CandidateOfSum(s, d);
    LimitIsFinite();
    NarrowValue(ExactSum(s, d));
  }

  /** In terms of the float32 sum the routine computes. */
  lemma HybridByWord(s: Word, d: Word)
    ensures Hybrid(s, d) == Candidate(s, d)
       <==> !(&& Plain(s) && Plain(d)
              && 0x80_0000 * 150 <= FastBits(s, d) < 0x4f00_0000
              && ExactSum(s, d) - Mag(FastBits(s, d)) >= Ulp(24, Mag(FastBits(s, d))))
  {
    hide Pow2, Rz, Ulp, Mag, Candidate, Truncate;
    if Plain(s) && Plain(d) {
      var u := FastBits(s, d);
      if Tested(u) {
        if !NearBoundary(u) { TestedIsSafe(s, d); }
      } else if u < 0x4f00_0000 {
        UntestedIsExact(s, d);
      }
    }
  }

  /** The product, the sum that is made of its truncation, and what the two truncations cut off. */
  function Product(s: Word): nat { 255 * Mag(Bits(s)) }

  function RoundedSum(s: Word, d: Word): nat { Rz(24, Product(s)) + Mag(Bits(d)) }

  function CutOff(s: Word, d: Word): int {
    (Product(s) - Rz(24, Product(s))) + (RoundedSum(s, d) - Rz(24, RoundedSum(s, d)))
  }

  /** The sum is from 2^23 up to 2^31, and a whole unit of it is cut off. */
  predicate Loses(s: Word, d: Word) {
    && Plain(s) && Plain(d)
    && Pow2(172) <= RoundedSum(s, d) < Limit()
    && CutOff(s, d) >= Ulp(24, RoundedSum(s, d))
  }

  lemma PowerFixed(k: nat)
    ensures Rz(24, Pow2(23 + k)) == Pow2(23 + k)
  {
    MagOfPower(k);
    MagFixed(0x80_0000 * (k + 1));
  }

  lemma AboveTruncation(n: nat, k: nat)
    ensures Rz(24, n) < Pow2(23 + k) <==> n < Pow2(23 + k)
  {
    PowerFixed(k);
    if n >= Pow2(23 + k) {
      RzMonotone(24, Pow2(23 + k), n);
    }
    RzError(24, n);
  }

  /** While the sum stays below 2^31, the float32 path computes it. */
  lemma FastIsRounded(s: Word, d: Word)
    ensures FastBits(s, d) < 0x4f00_0000 <==> RoundedSum(s, d) < Limit()
    ensures RoundedSum(s, d) < Limit() ==> Mag(FastBits(s, d)) == Rz(24, RoundedSum(s, d))
  {
    hide Pow2, Rz, Ulp, Mag, Narrow;
    var u, q := FastBits(s, d), RoundedSum(s, d);
    WordOfLimit();
    LimitIsFinite();
    AboveTruncation(q, 157);
    if u < 0x4f00_0000 {
      MagMonotone(u, 0x4f00_0000);
      FastSumNarrows(s, d);
    } else {
      if u > 0x4f00_0000 { MagMonotone(0x4f00_0000, u); }
    }
    if q < Limit() {
      NarrowValue(Product(s));
      RzError(24, q);
      NarrowValue(q);
    }
  }

  /**
   * The hybrid rewrite agrees with the exact one on all words except where its boundary test is
   * skipped, for a sum from 2^23 up to 2^31, and what the two truncations cut off together reaches a
   * unit of that sum.
   */
  lemma HybridIsCandidate(s: Word, d: Word)
    ensures Hybrid(s, d) == Candidate(s, d) <==> !Loses(s, d)
  {
    hide Pow2, Rz, Ulp, Mag, FastBits, Hybrid, Candidate;
    HybridByWord(s, d);
    FastIsRounded(s, d);
    var u, q := FastBits(s, d), RoundedSum(s, d);
    if q < Limit() {
      AboveTruncation(q, 149);
      MagOfPower(149);
      if u < 0x80_0000 * 150 {
        MagMonotone(u, 0x80_0000 * 150);
      } else if u > 0x80_0000 * 150 {
        MagMonotone(0x80_0000 * 150, u);
      }
      UlpOfRz(24, q);
    }
  }

  /** In particular it agrees whenever the exact sum is below 2^23, as every colour's is. */
  lemma HybridBelow(s: Word, d: Word)
    requires Plain(s) && Plain(d) && ExactSum(s, d) < Pow2(172)
    ensures Hybrid(s, d) == Candidate(s, d)
  {
    hide Rz, Ulp, Hybrid, Candidate, Mag, Limit, Pow2;
    HybridIsCandidate(s, d);
    RzError(24, Product(s));
  }

  /**
   * The plain float32 rewrite is above the exact one exactly when only its own sum stays below 2^31;
   * and below 2^23 it is wrong only just below an integer.
   */
  lemma Float32ErrsAtBoundary(s: Word, d: Word)
    requires Plain(s) && Plain(d)
    ensures CandidateFloat32(s, d) > Candidate(s, d) <==> RoundedSum(s, d) < Limit() <= ExactSum(s, d)
    ensures Tested(FastBits(s, d)) && CandidateFloat32(s, d) != Candidate(s, d) ==> NearBoundary(FastBits(s, d))
  {
    hide Pow2, Rz, Ulp, Mag, FastBits, ExactSum, RoundedSum, Candidate, CandidateFloat32, Limit, One, Narrow, NearBoundary;
    var t, n := Mag(FastBits(s, d)), ExactSum(s, d);
    Float32Value(s, d);
    LimitIsPower();
    AboveTruncation(n, 157);
    if n < Limit() {
      CandidateInRange(s, d);
      if t < Limit() {
        FastSumBounds(s, d);
        QuotientMonotone(t, Rz(24, n), One());
        if Tested(FastBits(s, d)) && !NearBoundary(FastBits(s, d)) { TestedIsSafe(s, d); }
      }
    } else {
      CandidateOutOfRange(s, d);
      if Tested(FastBits(s, d)) && !NearBoundary(FastBits(s, d)) { TestedIsSafe(s, d); }
    }
  }

  lemma LimitIsPower()
    ensures Limit() == Pow2(23 + 157)
  {
  }

  lemma Float32Value(s: Word, d: Word)
    requires Plain(s) && Plain(d)
    ensures var t := Mag(FastBits(s, d));
      && (t < Limit() <==> RoundedSum(s, d) < Limit()) && (Tested(FastBits(s, d)) ==> t < Limit())
      && CandidateFloat32(s, d) == if t < Limit() then Truncate(t) else INDEFINITE
  {
    hide Pow2, Rz, Mag, FastBits, RoundedSum, Limit, One, Narrow;
    FloatSumOfPlain(s, d);
    FastIsRounded(s, d);
    WordOfLimit();
    RzError(24, RoundedSum(s, d));
    if FastBits(s, d) > 0x4f00_0000 { MagMonotone(0x4f00_0000, FastBits(s, d)); }
  }

  lemma FloatSumOfPlain(s: Word, d: Word)
    requires Plain(s) && Plain(d)
    ensures FloatSum(s, d) == Mag(FastBits(s, d))
  {
    hide Mag, Narrow;
  }

  lemma QuotientMonotone(x: nat, y: nat, u: nat)
    requires u > 0 && x <= y
    ensures x / u <= y / u
  {
    DivBound(x, u, y / u + 1);
    DivBound(y, u, y / u + 1);
  }

  // ---------------------------------------------------------------- the direct conversion

  lemma WholeIsFloat(p: nat, i: nat)
    requires i < Pow2(p)
    ensures Representable(p, i * One())
  {
    hide Pow2;
    assert Float(p, i * One(), i, 149);
  }

  /** An integer part that fits the significand survives truncation. */
  lemma WholeSurvives(p: nat, n: nat)
    requires p > 0 && Whole(n) < Pow2(p)
    ensures Whole(Rz(p, n)) == Whole(n)
  {
    hide Rz, Pow2, One;
    var i := Whole(n);
    assert n == One() * i + n % One();
    WholeIsFloat(p, i);
    RzLargest(p, n, i * One());
    RzError(p, n);
    Distribute(One(), i, 1);
    SameQuotient(i, One(), Rz(p, n));
  }

  lemma WholeBelow(n: nat)
    ensures n < Limit() <==> Whole(n) < 0x8000_0000
  {
    hide One, Limit;
    LimitInOnes();
    RangeIn(n, One());
  }

  /** Truncated to 24 bits, the integer part is the integer part truncated to 24 bits. */
  lemma WholeOfFloat(n: nat)
    ensures Whole(Rz(24, n)) == Rz(24, Whole(n))
  {
    hide Rz, Pow2, One;
    Pow2Values();
    var i := Whole(n);
    if i < Pow2(24) {
      WholeSurvives(24, n);
      assert Float(24, i, i, 0) by { PowZero(); }
      RzFixed(24, i);
    } else {
      assert One() == Pow2(149) by { OneIsPower(); }
      RzScales(24, n, 149);
      WholeMultiple(One(), Rz(24, i));
    }
  }

  lemma PowZero()
    ensures Pow2(0) == 1
  {
  }

  lemma OneIsPower()
    ensures One() == Pow2(149) && Limit() == Pow2(180)
  {
    hide Pow2;
  }

  /** The direct conversion's double is the exact sum truncated to 53 bits. */
  lemma DirectSum(s: Word, d: Word)
    requires Plain(s) && Plain(d)
    ensures Rz(53, Rz(53, 255 * Mag(s)) + Mag(d)) == Rz(53, ExactSum(s, d))
    ensures Rz(53, ExactSum(s, d)) < Limit() <==> ExactSum(s, d) < Limit()
  {
    hide Rz, Pow2, Limit, Mag;
    ProductIsExact(s, 53);
    BelowLimit(ExactSum(s, d));
  }

  /** 2^31 is a number of 53 bits. */
  lemma BelowLimit(n: nat)
    ensures Rz(53, n) < Limit() <==> n < Limit()
  {
    hide Rz, Pow2, Limit;
    RzError(53, n);
    OneIsPower();
    Pow2Monotone(1, 53);
    PowOne();
    assert Float(53, Limit(), 1, 180);
    if n >= Limit() {
      RzLargest(53, n, Limit());
    }
  }

  lemma PowOne()
    ensures Pow2(1) == 2
  {
  }

  lemma DirectOfSum(s: Word, d: Word)
    requires Plain(s) && Plain(d) && ExactSum(s, d) < Limit()
    ensures Direct(s, d) == Whole(ExactSum(s, d))
    ensures Candidate(s, d) == Rz(24, Whole(ExactSum(s, d)))
  {
    hide Rz, Pow2, One, Limit, Mag, ExactSum, Candidate;
    var n := ExactSum(s, d);
    DirectSum(s, d);
    WholeBelow(n);
    Pow2Values();
    Pow2Monotone(31, 53);
    WholeSurvives(53, n);
    RzError(24, n);
    CandidateInRange(s, d);
    WholeOfFloat(n);
  }

  /**
   * The direct rewrite agrees with the exact one on all words except where the exact sum is below
   * 2^31 and its integer part needs more than the 24 bits of a float32 significand.
   */
  lemma DirectIsCandidate(s: Word, d: Word)
    ensures Direct(s, d) == Candidate(s, d)
       <==> !(&& Plain(s) && Plain(d) && ExactSum(s, d) < Limit()
              && !Representable(24, Whole(ExactSum(s, d))))
  {
    hide Rz, Pow2, One, Limit, Mag, ExactSum, Candidate;
    if Plain(s) && Plain(d) {
      if ExactSum(s, d) < Limit() {
        DirectOfSum(s, d);
        RzFixed(24, Whole(ExactSum(s, d)));
      } else {
        DirectSum(s, d);
      }
    }
  }

  /** In particular it agrees whenever the exact sum is below 2^24. */
  lemma DirectBelow(s: Word, d: Word)
    requires Plain(s) && Plain(d) && Whole(ExactSum(s, d)) < 0x100_0000
    ensures Direct(s, d) == Candidate(s, d) == Whole(ExactSum(s, d))
  {
    hide Rz, Pow2, One, Limit, Mag, ExactSum, Candidate, Direct;
    var i := Whole(ExactSum(s, d));
    Pow2Values();
    PowZero();
    assert Float(24, i, i, 0);
    RzFixed(24, i);
    WholeBelow(ExactSum(s, d));
    DirectOfSum(s, d);
  }

  // ---------------------------------------------------------------- inputs where they differ

  /** s = 65793, d = 2: an exact sum of 16777217, below 2^31 but not a float32. */
  lemma DirectDiffers()
    ensures Direct(0x4780_8080, 0x4000_0000) == 16777217
    ensures Candidate(0x4780_8080, 0x4000_0000) == 16777216
  {
    hide Rz, Pow2, One, Limit, Mag, Direct, Candidate;
    MagLinear(0x4780_8080, 143);
    MagLinear(0x4000_0000, 128);
    OneIsPower();
    Pow2Values();
    Pow2Sum(7, 142);
    Pow2Sum(8, 142);
    assert Pow2(8) == 2 * Pow2(7) && Pow2(150) == 2 * Pow2(149) by { Doubles(7); Doubles(149); }
    Doubles(127);
    Pow2Sum(23, 127);
    var n := ExactSum(0x4780_8080, 0x4000_0000);
    assert n == 16777217 * One();
    WholeMultiple(One(), 16777217);
    WholeBelow(n);
    DirectOfSum(0x4780_8080, 0x4000_0000);
    Rz24Of16777217();
  }

  lemma Doubles(k: nat)
    ensures Pow2(k + 1) == 2 * Pow2(k)
  {
  }

  lemma Rz24Of16777217()
    ensures Rz(24, 16777217) == 16777216
  {
    Pow2Values();
  }

  /** s = 8388481, d = 8421119: the truncated sum is below 2^31 and the exact one, 2147483774, is not. */
  lemma Float32Exceeds()
    ensures CandidateFloat32(0x4aff_ff02, 0x4b00_7eff) == 2147483520
    ensures Candidate(0x4aff_ff02, 0x4b00_7eff) == INDEFINITE
  {
    var s, d := 0x4aff_ff02, 0x4b00_7eff;
    hide Rz, Pow2, One, Limit, Mag, Narrow, FastBits, Candidate, CandidateFloat32;
    Exceeding(s, d);
    RzOfOnes(2139062655);
    RzOfOnes(2147483647);
    LimitInOnes();
    LimitIsPower();
    assert Product(s) == 2139062655 * One() && ExactSum(s, d) == 2147483774 * One();
    assert RoundedSum(s, d) == 2147483647 * One();
    AboveTruncation(ExactSum(s, d), 157);
    CandidateOutOfRange(s, d);
    FastIsRounded(s, d);
    Float32Value(s, d);
    WholeMultiple(One(), 2147483520);
  }

  lemma Exceeding(s: Word, d: Word)
    requires s == 0x4aff_ff02 && d == 0x4b00_7eff
    ensures Mag(Bits(s)) == 8388481 * One() && Mag(Bits(d)) == 8421119 * One()
  {
    hide Pow2, Mag, One;
    MagLinear(s, 149);
    MagLinear(d, 150);
    OneIsPower();
    Doubles(148);
  }

  /** From 2^30 up to 2^31 the floats are 128 apart. */
  lemma RzOfOnes(k: nat)
    requires 0x4000_0000 <= k < 0x8000_0000
    ensures Rz(24, k * One()) == (k / 128 * 128) * One()
  {
    hide Rz, Pow2, One;
    OneIsPower();
    Pow2Values();
    WholeMultiple(One(), k);
    RzScales(24, k * One(), 149);
    assert Rz(24, k) == k / 128 * 128 by { RzOfInteger(k); }
  }

  lemma RzOfInteger(k: nat)
    requires 0x4000_0000 <= k < 0x8000_0000
    ensures Rz(24, k) == k / 128 * 128
  {
    hide Rz, Pow2;
    Pow2Values();
    Doubles(7);
    RzScales(24, k, 7);
    Small(k / 128);
  }

  lemma Small(n: nat)
    requires n < Pow2(24)
    ensures Rz(24, n) == n
  {
  }

  /** s = 32896.50390625, d = 0.75: the float32 sum is 2^23, where the boundary test is skipped. */
  lemma HybridDiffers()
    ensures Hybrid(0x4700_8081, 0x3f40_0000) == 8388608
    ensures Candidate(0x4700_8081, 0x3f40_0000) == 8388609
  {
    hide Rz, Ulp, Pow2, One, Limit, Mag, Narrow, Candidate;
    var g := Pow2(141);
    MagLinear(0x4700_8081, 142);
    MagLinear(0x3f40_0000, 126);
    Pow2Sum(16, 125);
    Pow2Sum(8, 141);
    Pow2Sum(8, 8);
    Pow2Sum(23, 149);
    Pow2Values();
    OneIsPower();
    var n := ExactSum(0x4700_8081, 0x3f40_0000);
    var base := Pow2(172);
    assert base == 0x8000_0000 * g && One() == 256 * g;
    assert 255 * Mag(0x4700_8081) == base + 127 * g && Mag(0x3f40_0000) == 192 * g;
    UlpOfPower(24, 149);
    RzInterval(24, base, base + 127 * g);
    RzInterval(24, base, base + 192 * g);
    HybridAtPower(0x4700_8081, 0x3f40_0000);
    NextFloat(24, base);
    RzFixed(24, base + One());
    UlpMonotone(24, base, base + One());
    RzInterval(24, base + One(), n);
    LimitInOnes();
    CandidateInRange(0x4700_8081, 0x3f40_0000);
    Distribute(One(), 0x80_0000, 1);
    WholeMultiple(One(), 0x80_0001);
  }

  /** A float32 sum of exactly 2^23 takes the fast path. */
  lemma HybridAtPower(s: Word, d: Word)
    requires Plain(s) && Plain(d)
    requires var a := Rz(24, 255 * Mag(Bits(s)));
             a <= Pow2(172) && Rz(24, a + Mag(Bits(d))) == Pow2(172)
    ensures Hybrid(s, d) == 0x80_0000
  {
    hide Rz, Pow2, One, Limit, Mag, Narrow;
    MagOfPower(149);
    WordOfLimit();
    MagMonotone(0x80_0000 * 150, 0x4f00_0000);
    LimitIsFinite();
    NarrowValue(255 * Mag(Bits(s)));
    NarrowValue(Rz(24, 255 * Mag(Bits(s))) + Mag(Bits(d)));
    var u := FastBits(s, d);
    if u < 0x80_0000 * 150 { MagMonotone(u, 0x80_0000 * 150); }
    if u > 0x80_0000 * 150 { MagMonotone(0x80_0000 * 150, u); }
    Pow2Sum(23, 149);
    Pow2Values();
    OneIsPower();
    WholeMultiple(One(), 0x80_0000);
  }

  // ---------------------------------------------------------------- what the boundary test detects

  /** The word is no integer, and one of the next four words reaches the next integer. */
  predicate IntegerIsNear(u: nat) {
    Tested(u) && Mag(u) % One() != 0 && Whole(Mag(u + 4)) > Whole(Mag(u))
  }

  lemma NearAboveOne(u: nat)
    requires u < SIGN && 127 <= u / 0x80_0000 < 150
    ensures NearBoundary(u) <==> IntegerIsNear(u)
  {
    var unit, q, r := WordParts(u);
    var w := u + unit - r;
    hide Pow2, Mag, One;
    if u + 4 < w {
      MagMonotone(u + 4, w);
    } else if u + 4 > w {
      MagMonotone(w, u + 4);
    }
    DivBound(Mag(u + 4), One(), q + 1);
  }

  /** The four-word test fires exactly where, below 2^23, the next integer is at most four words away. */
  lemma NearBoundaryMeans(u: nat)
    requires u < SIGN
    ensures NearBoundary(u) <==> IntegerIsNear(u)
  {
    var e := u / 0x80_0000;
    if e < 127 {
      NearBelowOne(u);
    } else if e < 150 {
      NearAboveOne(u);
    }
  }

  lemma NearBelowOne(u: nat)
    requires u < 0x3f80_0000
    ensures NearBoundary(u) <==> IntegerIsNear(u)
  {
    hide Mag, One;
    WordOfOne();
    MagMonotone(u, 0x3f80_0000);
    MagAtLeast(u);
    DivBound(Mag(u), One(), 1);
    DivBound(Mag(u + 4), One(), 1);
    DivUnique(Mag(u), One(), 0, Mag(u));
    if u + 4 < 0x3f80_0000 {
      MagMonotone(u + 4, 0x3f80_0000);
    } else if u + 4 > 0x3f80_0000 {
      MagMonotone(0x3f80_0000, u + 4);
    }
  }

  // ---------------------------------------------------------------- counting the slow path

  class SlowCounter {
    var count: nat
  }

  /** The inputs the hybrid rewrite leaves to the exact one: odd ones, large sums, sums just below an integer. */
  predicate LeftToExact(s: Word, d: Word) {
    !Plain(s) || !Plain(d) || RoundedSum(s, d) >= Limit() || IntegerIsNear(FastBits(s, d))
  }

  lemma FallsBackIff(s: Word, d: Word)
    ensures HybridFast(s, d).Exact? <==> LeftToExact(s, d)
  {
    hide Mag, Rz, Pow2, Narrow, NearBoundary, IntegerIsNear, RoundedSum;
    FastIsRounded(s, d);
    NearBoundaryMeans(FastBits(s, d));
  }

  /**
   * The hybrid rewrite as the oracle calls it: the x87 result at both precisions unless a whole unit
   * of a large sum is lost, at the price of one count for each input it leaves to the exact rewrite.
   */
  method CandidateHybrid(s: Word, d: Word, slow: SlowCounter) returns (r: int)
    modifies slow
    ensures forall pc: Precision :: r == Reference(s, d, pc) <==> !Loses(s, d)
    ensures slow.count == old(slow.count) + if LeftToExact(s, d) then 1 else 0
  {
    FallsBackIff(s, d);
    HybridIsCandidate(s, d);
    forall pc ensures Candidate(s, d) == Reference(s, d, pc) { CandidateIsReference(s, d, pc); }
    hide HybridFast, Candidate, Loses, LeftToExact, Reference;
    match HybridFast(s, d)
    case Fast(v) => r := v;
    case Exact =>
      slow.count := slow.count + 1;
      r := Candidate(s, d);
  }
}
