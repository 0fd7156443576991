/** The two array kernels of the dither benchmark (harness/dither/arm_hybrid_bench.c). */
module DitherKernels {
  import opened Bits
  import opened Truncation
  import opened X87Oracle

  datatype Rounding = ToNearest | TowardZero | Upward | Downward

  /** The thread's floating-point environment. */
  class FloatEnv {
    var rounding: Rounding
  }

  // ---------------------------------------------------------------- packing

  function Shift8(x: nat): nat { x * 0x100 % 0x1_0000_0000 }

  function Unsigned(c: int): Word { c % 0x1_0000_0000 }

  function Pack(r: int, g: int, b: int, a: int): nat {
    Or(Shift8(Or(Shift8(Or(Shift8(Unsigned(a)), Unsigned(r))), Unsigned(g))), Unsigned(b))
  }

  /** The four bytes of a pixel, in channel order. */
  function Unpack(pixel: nat): seq<nat> {
    [pixel / 0x1_0000 % 0x100, pixel / 0x100 % 0x100, pixel % 0x100, pixel / 0x100_0000]
  }

  lemma OrByte(x: nat, y: nat)
    requires x < 0x100_0000 && y < 0x100
    ensures Or(Shift8(x), y) == x * 0x100 + y < 0x1_0000_0000
  {
    Pow2Values();
    OrIsSum(Shift8(x), y, 8);
  }

  lemma PackIsSum(r: nat, g: nat, b: nat, a: nat)
    requires r < 0x100 && g < 0x100 && b < 0x100 && a < 0x100
    ensures Pack(r, g, b, a) == a * 0x100_0000 + r * 0x1_0000 + g * 0x100 + b
  {
    hide Or, Shift8;
    OrByte(a, r);
    OrByte(a * 0x100 + r, g);
    OrByte(a * 0x1_0000 + r * 0x100 + g, b);
  }

  /** Four bytes packed are the four bytes unpacked. */
  lemma PackRoundTrip(r: nat, g: nat, b: nat, a: nat)
    requires r < 0x100 && g < 0x100 && b < 0x100 && a < 0x100
    ensures Pack(r, g, b, a) < 0x1_0000_0000
    ensures Unpack(Pack(r, g, b, a)) == [r, g, b, a]
  {
    hide Pack;
    PackIsSum(r, g, b, a);
    SumUnpacks(Pack(r, g, b, a), r, g, b, a);
  }

  lemma SumUnpacks(p: nat, r: nat, g: nat, b: nat, a: nat)
    requires r < 0x100 && g < 0x100 && b < 0x100 && a < 0x100
    requires p == a * 0x100_0000 + r * 0x1_0000 + g * 0x100 + b
    ensures Unpack(p) == [r, g, b, a]
  {
    DivUnique(p, 0x100_0000, a, r * 0x1_0000 + g * 0x100 + b);
    DivUnique(p, 0x1_0000, a * 0x100 + r, g * 0x100 + b);
    DivUnique(a * 0x100 + r, 0x100, a, r);
    DivUnique(p, 0x100, a * 0x1_0000 + r * 0x100 + g, b);
    DivUnique(a * 0x1_0000 + r * 0x100 + g, 0x100, a * 0x100 + r, g);
  }

  lemma PackIsWord(r: int, g: int, b: int, a: int)
    ensures Pack(r, g, b, a) < 0x1_0000_0000
  {
    Pow2Values();
    OrBound(Shift8(Or(Shift8(Or(Shift8(Unsigned(a)), Unsigned(r))), Unsigned(g))), Unsigned(b), 32);
  }

  /** Whatever the channels hold, their words overlap eight bits apart: blue lowest, then green, red and alpha. */
  lemma PackBits(r: int, g: int, b: int, a: int, k: nat)
    requires k < 32
    ensures Bit(Pack(r, g, b, a), k) <==>
              || Bit(b % 0x1_0000_0000, k)
              || (k >= 8 && Bit(g % 0x1_0000_0000, k - 8))
              || (k >= 16 && Bit(r % 0x1_0000_0000, k - 16))
              || (k >= 24 && Bit(a % 0x1_0000_0000, k - 24))
  {
    hide Bit, Shift8, Or;
    var a', r', g', b' := Unsigned(a), Unsigned(r), Unsigned(g), Unsigned(b);
    OrBits(Shift8(Or(Shift8(Or(Shift8(a'), r')), g')), b', k);
    ShiftBits(Or(Shift8(Or(Shift8(a'), r')), g'), k);
    if k >= 8 {
      OrBits(Shift8(Or(Shift8(a'), r')), g', k - 8);
      ShiftBits(Or(Shift8(a'), r'), k - 8);
    }
    if k >= 16 {
      OrBits(Shift8(a'), r', k - 16);
      ShiftBits(a', k - 16);
    }
  }

  lemma ShiftBits(x: nat, k: nat)
    requires k < 32
    ensures Bit(Shift8(x), k) <==> k >= 8 && Bit(x, k - 8)
  {
    Pow2Values();
    BitsBelow(x * 0x100, k, 32);
    BitsAbove(x, k, 8);
  }

  // ---------------------------------------------------------------- the kernels

  predicate Fits(src: seq<Word>, dither: seq<Word>, offset: nat, count: nat) {
    && 4 * count <= |src|
    && offset + (if count < 4 then count else 4) <= |dither|
  }

  /** The pixel a kernel writes at i, for each of the two ways to convert a channel. */
  function ExactPixel(src: seq<Word>, dither: seq<Word>, offset: nat, i: nat): Word
    requires 4 * i + 3 < |src| && offset + i % 4 < |dither|
  {
    var d := dither[offset + i % 4];
    PackIsWord(Candidate(src[4 * i], d), Candidate(src[4 * i + 1], d),
               Candidate(src[4 * i + 2], d), Candidate(src[4 * i + 3], d));
    Pack(Candidate(src[4 * i], d), Candidate(src[4 * i + 1], d),
         Candidate(src[4 * i + 2], d), Candidate(src[4 * i + 3], d))
  }

  function DirectPixel(src: seq<Word>, dither: seq<Word>, offset: nat, i: nat): Word
    requires 4 * i + 3 < |src| && offset + i % 4 < |dither|
  {
    var d := dither[offset + i % 4];
    PackIsWord(Direct(src[4 * i], d), Direct(src[4 * i + 1], d), Direct(src[4 * i + 2], d), Direct(src[4 * i + 3], d));
    Pack(Direct(src[4 * i], d), Direct(src[4 * i + 1], d), Direct(src[4 * i + 2], d), Direct(src[4 * i + 3], d))
  }

  function Falls(s: Word, d: Word): nat { if DirectFast(s, d).Exact? then 1 else 0 }

  /** A channel falls back when an input has a sign or is not finite, or their sum is 2^31 or more. */
  lemma FallsIff(s: Word, d: Word)
    ensures Falls(s, d) == if || s >= 0x8000_0000 || d >= 0x8000_0000 || s >= 0x7f80_0000 || d >= 0x7f80_0000
                              || 255 * Mag(s) + Mag(d) >= 0x8000_0000 * Pow2(149)
                           then 1 else 0
  {
    hide Pow2, Rz, Mag;
    if Plain(s) && Plain(d) {
      DirectSum(s, d);
      LimitInOnes();
    }
  }

  /** How many channels of the first pixels fall back to the exact conversion. */
  function FallBacks(src: seq<Word>, dither: seq<Word>, offset: nat, count: nat): nat
    requires Fits(src, dither, offset, count)
  {
    if count == 0 then 0
    else FallBacks(src, dither, offset, count - 1) + PixelFalls(src, dither[offset + (count - 1) % 4], count - 1, 4)
  }

  function PixelFalls(src: seq<Word>, d: Word, i: nat, channels: nat): nat
    requires channels <= 4 && 4 * i + 3 < |src|
  {
    if channels == 0 then 0 else PixelFalls(src, d, i, channels - 1) + Falls(src[4 * i + channels - 1], d)
  }

  /** That is the size of a set: the channels, numbered through, that fall back. */
  lemma {:induction false} FallBacksAre(src: seq<Word>, dither: seq<Word>, offset: nat, count: nat)
    requires Fits(src, dither, offset, count)
    ensures FallBacks(src, dither, offset, count) == |Falling(src, dither, offset, 4 * count)|
  {
    hide Falls;
    if count == 0 {
      assert Falling(src, dither, offset, 0) == {};
    } else {
      FallBacksAre(src, dither, offset, count - 1);
      PixelFallsAre(src, dither, offset, count - 1, 4);
    }
  }

  predicate FallsAt(src: seq<Word>, dither: seq<Word>, j: nat, c: nat) {
    c < |src| && j < |dither| && Falls(src[c], dither[j]) == 1
  }

  function Falling(src: seq<Word>, dither: seq<Word>, offset: nat, channels: nat): set<nat> {
    set c: nat | c < channels && FallsAt(src, dither, offset + c / 4 % 4, c)
  }

  lemma {:induction false} PixelFallsAre(src: seq<Word>, dither: seq<Word>, offset: nat, i: nat, channels: nat)
    requires channels <= 4 && Fits(src, dither, offset, i + 1)
    ensures |Falling(src, dither, offset, 4 * i + channels)|
         == |Falling(src, dither, offset, 4 * i)| + PixelFalls(src, dither[offset + i % 4], i, channels)
  {
    hide Falls, Falling, FallsAt;
    if channels > 0 {
      PixelFallsAre(src, dither, offset, i, channels - 1);
      var c := 4 * i + channels - 1;
      OneChannel(src, dither, offset, c);
      assert c / 4 == i;
      FallsAtIs(src, dither, offset + i % 4, c);
    }
  }

  lemma FallsAtIs(src: seq<Word>, dither: seq<Word>, j: nat, c: nat)
    requires c < |src| && j < |dither|
    ensures (if FallsAt(src, dither, j, c) then 1 else 0) == Falls(src[c], dither[j])
  {
    FallsOnce(src[c], dither[j]);
    hide Falls;
  }

  lemma OneChannel(src: seq<Word>, dither: seq<Word>, offset: nat, c: nat)
    ensures |Falling(src, dither, offset, c + 1)|
         == |Falling(src, dither, offset, c)| + if FallsAt(src, dither, offset + c / 4 % 4, c) then 1 else 0
  {
    hide FallsAt;
    var before, after := Falling(src, dither, offset, c), Falling(src, dither, offset, c + 1);
    assert after == before + if FallsAt(src, dither, offset + c / 4 % 4, c) then {c} else {};
    assert c !in before;
  }

  lemma FallsOnce(s: Word, d: Word)
    ensures Falls(s, d) <= 1
  {
  }

  /** The conversions rely on the caller having set the rounding mode. */
  method ExactChannel(env: FloatEnv, s: Word, d: Word) returns (r: int)
    requires env.rounding == TowardZero
    ensures r == Candidate(s, d)
  {
    r := Candidate(s, d);
  }

  method HybridChannel(env: FloatEnv, s: Word, d: Word, slow: SlowCounter) returns (r: int)
    requires env.rounding == TowardZero
    modifies slow
    ensures r == Direct(s, d) && slow.count == old(slow.count) + Falls(s, d)
  {
    match DirectFast(s, d)
    case Fast(v) => r := v;
    case Exact =>
      slow.count := slow.count + 1;
      r := ExactChannel(env, s, d);
  }

  method ExactKernel(env: FloatEnv, dst: array<Word>, src: seq<Word>, dither: seq<Word>, offset: nat, count: nat)
    requires count <= dst.Length && Fits(src, dither, offset, count)
    modifies env, dst
    ensures env.rounding == old(env.rounding)
    ensures forall i :: 0 <= i < count ==> dst[i] == ExactPixel(src, dither, offset, i)
    ensures dst[count..] == old(dst[count..])
  {
    hide Candidate, Pack;
    var saved := env.rounding;
    env.rounding := TowardZero;
    for i := 0 to count
      invariant env.rounding == TowardZero
      invariant forall j :: 0 <= j < i ==> dst[j] == ExactPixel(src, dither, offset, j)
      invariant dst[count..] == old(dst[count..])
    {
      var channel := new int[4];
      var d := dither[offset + i % 4];
      for k := 0 to 4
        invariant forall c :: 0 <= c < k ==> channel[c] == Candidate(src[4 * i + c], d)
        modifies channel
      {
        channel[k] := ExactChannel(env, src[4 * i + k], d);
      }
      PackIsWord(channel[0], channel[1], channel[2], channel[3]);
      dst[i] := Pack(channel[0], channel[1], channel[2], channel[3]);
    }
    env.rounding := saved;
  }

  method HybridKernel(env: FloatEnv, dst: array<Word>, src: seq<Word>, dither: seq<Word>, offset: nat, count: nat,
                      slow: SlowCounter)
    requires count <= dst.Length && Fits(src, dither, offset, count)
    modifies env, dst, slow
    ensures env.rounding == old(env.rounding)
    ensures forall i :: 0 <= i < count ==> dst[i] == DirectPixel(src, dither, offset, i)
    ensures dst[count..] == old(dst[count..])
    ensures slow.count == old(slow.count) + FallBacks(src, dither, offset, count)
  {
    hide Direct, Pack, Falls;
    var saved := env.rounding;
    env.rounding := TowardZero;
    for i := 0 to count
      invariant env.rounding == TowardZero
      invariant forall j :: 0 <= j < i ==> dst[j] == DirectPixel(src, dither, offset, j)
      invariant dst[count..] == old(dst[count..])
      invariant slow.count == old(slow.count) + FallBacks(src, dither, offset, i)
    {
      var channel := new int[4];
      var d := dither[offset + i % 4];
      for k := 0 to 4
        invariant forall c :: 0 <= c < k ==> channel[c] == Direct(src[4 * i + c], d)
        invariant slow.count == old(slow.count) + FallBacks(src, dither, offset, i) + PixelFalls(src, d, i, k)
        modifies channel, slow
      {
        channel[k] := HybridChannel(env, src[4 * i + k], d, slow);
      }
      PackIsWord(channel[0], channel[1], channel[2], channel[3]);
      dst[i] := Pack(channel[0], channel[1], channel[2], channel[3]);
    }
    env.rounding := saved;
  }

  // ---------------------------------------------------------------- agreement

  const ONE_WORD := 0x3f80_0000

  /** Colours in [0, 1] and a dither in [0, 1), as words. */
  predicate InUnit(src: seq<Word>, dither: seq<Word>) {
    && (forall i :: 0 <= i < |src| ==> src[i] <= ONE_WORD)
    && (forall i :: 0 <= i < |dither| ==> dither[i] < ONE_WORD)
  }

  /** On such inputs a channel is the integer part of 255 * s + d, by either conversion, and a byte. */
  lemma UnitChannel(s: Word, d: Word)
    requires s <= ONE_WORD && d < ONE_WORD
    ensures Candidate(s, d) == Direct(s, d) == Whole(ExactSum(s, d)) < 0x100
    ensures Falls(s, d) == 0
  {
    hide Mag, One, Candidate, Direct, Rz, Limit;
    WordOfOne();
    if s < ONE_WORD { MagMonotone(s, ONE_WORD); }
    MagMonotone(d, ONE_WORD);
    assert ExactSum(s, d) < 0x100 * One();
    DivBound(ExactSum(s, d), One(), 0x100);
    DirectBelow(s, d);
    WholeBelow(ExactSum(s, d));
    DirectSum(s, d);
  }

  /** Both kernels write the same pixel, and its bytes are the four integer parts. */
  lemma UnitPixel(src: seq<Word>, dither: seq<Word>, offset: nat, i: nat)
    requires InUnit(src, dither) && 4 * i + 3 < |src| && offset + i % 4 < |dither|
    ensures ExactPixel(src, dither, offset, i) == DirectPixel(src, dither, offset, i)
    ensures var d := dither[offset + i % 4];
            Unpack(ExactPixel(src, dither, offset, i))
            == [Whole(ExactSum(src[4 * i], d)), Whole(ExactSum(src[4 * i + 1], d)),
                Whole(ExactSum(src[4 * i + 2], d)), Whole(ExactSum(src[4 * i + 3], d))]
  {
    hide Candidate, Direct, Falls, Pack, Whole, ExactSum, Unpack;
    var d := dither[offset + i % 4];
    UnitChannel(src[4 * i], d);
    UnitChannel(src[4 * i + 1], d);
    UnitChannel(src[4 * i + 2], d);
    UnitChannel(src[4 * i + 3], d);
    PackRoundTrip(Whole(ExactSum(src[4 * i], d)), Whole(ExactSum(src[4 * i + 1], d)),
                  Whole(ExactSum(src[4 * i + 2], d)), Whole(ExactSum(src[4 * i + 3], d)));
  }

  lemma {:induction false} UnitPixelFalls(src: seq<Word>, d: Word, i: nat, channels: nat)
    requires channels <= 4 && 4 * i + 3 < |src| && d < ONE_WORD
    requires forall k :: 0 <= k < |src| ==> src[k] <= ONE_WORD
    ensures PixelFalls(src, d, i, channels) == 0
  {
    hide Falls;
    if channels > 0 {
      UnitPixelFalls(src, d, i, channels - 1);
      UnitChannel(src[4 * i + channels - 1], d);
    }
  }

  lemma {:induction false} UnitFallBacks(src: seq<Word>, dither: seq<Word>, offset: nat, count: nat)
    requires InUnit(src, dither) && Fits(src, dither, offset, count)
    ensures FallBacks(src, dither, offset, count) == 0
  {
    hide PixelFalls;
    if count > 0 {
      UnitFallBacks(src, dither, offset, count - 1);
      UnitPixelFalls(src, dither[offset + (count - 1) % 4], count - 1, 4);
    }
  }

  /** Colours in [0, 1]: the two kernels agree on every pixel and the fast one never falls back. */
  lemma KernelsAgree(src: seq<Word>, dither: seq<Word>, offset: nat, pixels: nat)
    requires InUnit(src, dither) && Fits(src, dither, offset, pixels)
    ensures forall i :: 0 <= i < pixels ==>
              ExactPixel(src, dither, offset, i) == DirectPixel(src, dither, offset, i)
    ensures FallBacks(src, dither, offset, pixels) == 0
  {
    hide ExactPixel, DirectPixel, FallBacks;
    UnitFallBacks(src, dither, offset, pixels);
    forall i | 0 <= i < pixels
      ensures ExactPixel(src, dither, offset, i) == DirectPixel(src, dither, offset, i)
    {
      UnitPixel(src, dither, offset, i);
    }
  }

  /** The positions, of the first n, at which two rows of pixels differ. */
  function Differing(a: seq<Word>, b: seq<Word>, n: nat): set<nat>
    requires n <= |a| && n <= |b|
  {
    set i: nat | i < n && a[i] != b[i]
  }

  lemma OneDifference(a: seq<Word>, b: seq<Word>, n: nat)
    requires n < |a| && n < |b|
    ensures Differing(a, b, 0) == {}
    ensures |Differing(a, b, n + 1)| == |Differing(a, b, n)| + if a[n] != b[n] then 1 else 0
  {
    assert Differing(a, b, n + 1) == Differing(a, b, n) + if a[n] != b[n] then {n} else {};
  }

  lemma NoDifference(a: seq<Word>, b: seq<Word>, n: nat)
    requires n <= |a| && n <= |b|
    ensures |Differing(a, b, n)| == 0 <==> forall i :: 0 <= i < n ==> a[i] == b[i]
  {
    if d: nat :| d < n && a[d] != b[d] {
      assert d in Differing(a, b, n);
    }
    if |Differing(a, b, n)| > 0 {
      var d :| d in Differing(a, b, n);
    }
  }

  /** The benchmark's verification: run both kernels on the same inputs and count the differences. */
  method Verify(env: FloatEnv, src: seq<Word>, dither: seq<Word>, pixels: nat, slow: SlowCounter)
    returns (mismatches: nat, ghost es: seq<Word>, ghost hs: seq<Word>)
    requires Fits(src, dither, 0, pixels)
    modifies env, slow
    ensures env.rounding == old(env.rounding)
    ensures InUnit(src, dither) ==> mismatches == 0 && slow.count == old(slow.count)
    ensures |es| == |hs| == pixels && mismatches == |Differing(es, hs, pixels)|
    ensures forall i :: 0 <= i < pixels ==> es[i] == ExactPixel(src, dither, 0, i) && hs[i] == DirectPixel(src, dither, 0, i)
    ensures mismatches == 0 <==>
              forall i :: 0 <= i < pixels ==> ExactPixel(src, dither, 0, i) == DirectPixel(src, dither, 0, i)
  {
    hide ExactPixel, DirectPixel, FallBacks, InUnit, Differing;
    var exact, hybrid := new Word[pixels], new Word[pixels];
    ExactKernel(env, exact, src, dither, 0, pixels);
    HybridKernel(env, hybrid, src, dither, 0, pixels, slow);
    mismatches := 0;
    es, hs := exact[..], hybrid[..];
    NoDifference(es, hs, 0);
    for i := 0 to pixels
      invariant mismatches == |Differing(es, hs, i)|
      modifies {}
    {
      OneDifference(es, hs, i);
      if exact[i] != hybrid[i] {
        mismatches := mismatches + 1;
      }
    }
    NoDifference(es, hs, pixels);
    if InUnit(src, dither) {
      KernelsAgree(src, dither, 0, pixels);
    }
  }

  /** One benchmark arm: every call starts the seven-entry dither table one place further, modulo 4. */
  method BenchmarkArm(env: FloatEnv, hybrid: bool, dst: array<Word>, src: seq<Word>, dither: seq<Word>,
                      pixels: nat, calls: nat, slow: SlowCounter)
    requires pixels <= dst.Length && 4 * pixels <= |src| && |dither| == 7 && calls > 0
    modifies env, dst, slow
    ensures env.rounding == old(env.rounding)
    ensures forall i :: 0 <= i < pixels ==>
              dst[i] == if hybrid then DirectPixel(src, dither, (calls - 1) % 4, i)
                        else ExactPixel(src, dither, (calls - 1) % 4, i)
  {
    hide ExactPixel, DirectPixel;
    for call := 0 to calls
      invariant env.rounding == old(env.rounding)
      invariant call > 0 ==> forall i :: 0 <= i < pixels ==>
                  dst[i] == if hybrid then DirectPixel(src, dither, (call - 1) % 4, i)
                            else ExactPixel(src, dither, (call - 1) % 4, i)
    {
      if hybrid {
        HybridKernel(env, dst, src, dither, call % 4, pixels, slow);
      } else {
        ExactKernel(env, dst, src, dither, call % 4, pixels);
      }
    }
  }
}
