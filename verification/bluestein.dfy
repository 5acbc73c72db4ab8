/** The chirp-z (Bluestein) transform of Bluestein.kt, used for windows whose length is not a
    power of two: the input is multiplied by a chirp, convolved with the reciprocal chirp
    through radix-2 transforms of length n2 = nextPowerOfTwo(2n − 1), and multiplied by the
    chirp again. */
module ChirpZ {
  import opened Wrappers
  import opened Numerics
  import opened Radix2
  import opened ComplexNumbers
  import opened FourierTransform

  /** The chirp factor w^(k²/2) for w = e^(−2πi/m): a turn of −k²/(2m) on the unit circle. */
  function ChirpAt(tr: Transcendentals, k: int, m: int): Complex
    requires m > 0
  {
    var t := -((k * k) as real) / ((2 * m) as real);
    Complex(tr.cosTurns(t), tr.sinTurns(t))
  }

  /** The `chirp` array: the factors for k = 1 − n, ..., n − 1, so that pair n − 1 + k
      holds the factor of k. */
  function Chirp(tr: Transcendentals, n: int): (c: seq<Complex>)
    requires n > 0
    ensures |c| == 2 * n - 1
  {
    seq(2 * n - 1, p requires 0 <= p < 2 * n - 1 => ChirpAt(tr, p - (n - 1), n))
  }

  /** The factor of k depends on k² only: the chirp is symmetric about its middle pair. */
  lemma ChirpSymmetric(tr: Transcendentals, n: int, k: nat)
    requires 0 < n && k < n
    ensures Chirp(tr, n)[n - 1 + k] == Chirp(tr, n)[n - 1 - k]
  {
    var j: int := k;
    assert Chirp(tr, n)[n - 1 + k] == ChirpAt(tr, j, n);
    assert Chirp(tr, n)[n - 1 - k] == ChirpAt(tr, -j, n);
    assert (-j) * (-j) == j * j;
  }

  /** The reciprocal `1.0 / chirp[i]` of the first 2n − 1 pairs, zero-padded to n2 pairs
      (the `ichirp` array before its in-place transform). */
  function ReciprocalChirp(chirp: seq<Complex>, n2: nat): (r: seq<Complex>)
    requires forall i :: 0 <= i < |chirp| ==> chirp[i].Norm2() != 0.0
    ensures |r| == n2
  {
    seq(n2, i requires 0 <= i < n2 => if i < |chirp| then RealDiv(1.0, chirp[i]).value else Zero)
  }

  /** Each reciprocal undoes its chirp factor; the padding is zero. */
  lemma ReciprocalChirpInverts(chirp: seq<Complex>, n2: nat, i: nat)
    requires forall i :: 0 <= i < |chirp| ==> chirp[i].Norm2() != 0.0
    requires i < n2
    ensures i < |chirp| ==> ReciprocalChirp(chirp, n2)[i].Times(chirp[i]) == One
    ensures i >= |chirp| ==> ReciprocalChirp(chirp, n2)[i] == Zero
  {
    if i < |chirp| {
      RealDivTimes(1.0, chirp[i]);
    }
  }

  lemma ChirpAtOnUnitCircle(tr: Transcendentals, k: int, m: int)
    requires m > 0 && UnitCircle(tr)
    ensures ChirpAt(tr, k, m).Norm2() == 1.0
  {
    var t := -((k * k) as real) / ((2 * m) as real);
    assert tr.cosTurns(t) * tr.cosTurns(t) + tr.sinTurns(t) * tr.sinTurns(t) == 1.0;
  }

  lemma ChirpOnUnitCircle(tr: Transcendentals, n: int)
    requires n > 0 && UnitCircle(tr)
    ensures forall i :: 0 <= i < |Chirp(tr, n)| ==> Chirp(tr, n)[i].Norm2() == 1.0
  {
    forall i | 0 <= i < |Chirp(tr, n)|
      ensures Chirp(tr, n)[i].Norm2() == 1.0
    {
      ChirpAtOnUnitCircle(tr, i - (n - 1), n);
    }
  }

  /** A constructed transform: its window length, the chirp, the convolution length n2 and
      the transformed reciprocal chirp (n2 pairs). */
  datatype Bluestein = Bluestein(windowLength: Int32, chirp: seq<Complex>, n2: Int32, ichirp: seq<Complex>)

  /** What every constructed transform satisfies: the sizes the `fft` method relies on. */
  predicate Valid(b: Bluestein) {
    && 0 < b.windowLength <= 0x1000_0000
    && |b.chirp| == 2 * b.windowLength - 1
    && IsPowerOfTwo(b.n2) && b.n2 >= |b.chirp| && 2 * b.n2 <= INT_MAX
    && |b.ichirp| == b.n2
  }

  /** The convolution length for 2n − 1 pairs: a power of two up to 2^29 for n <= 2^28,
      and 2^30 above, whose doubled size no longer fits an `Int`. */
  lemma ConvolutionLength(len: Int32)
    requires 0 < len < 0x4000_0000
    ensures len < 0x2000_0000 ==>
      IsPowerOfTwo(NextPowerOfTwo(len)) && len <= NextPowerOfTwo(len) <= 0x2000_0000
    ensures len > 0x2000_0000 ==> NextPowerOfTwo(len) == 0x4000_0000
  {
    NextPowerOfTwoSpec(len);
    Pow2Of30();
    var r := NextPowerOfTwo(len);
    assert IsPow2(0x2000_0000) by {
      assert IsPow2(0x4000_0000);
    }
    if len < 0x2000_0000 {
      IsPowerOfTwoIsPow2(r);
    } else if len > 0x2000_0000 {
      Pow2Gap(r, 0x4000_0000);
    }
  }

  /** The chirp array of 2·(2n − 1) doubles is allocated with its exact size up to
      n = 2^29; beyond, the `Int` product wraps to a size that is negative or too small. */
  lemma ChirpSize(n: Int32)
    requires n > 0
    ensures var size := Wrap32(Wrap32(2 * n - 1) * 2);
      (size >= 0 && size >= 2 * (2 * n - 1)) <==> n <= 0x2000_0000
  {
  }

  /** For n <= 2^29 the `ichirp` array of 2·n2 doubles fits exactly when n <= 2^28. */
  lemma ReciprocalSize(n: Int32)
    requires 0 < n <= 0x2000_0000
    ensures 2 * n - 1 < 0x2000_0000 <==> n <= 0x1000_0000
    ensures Wrap32(NextPowerOfTwo(2 * n - 1) * 2) >= 0 <==> n <= 0x1000_0000
    ensures n <= 0x1000_0000 ==> Wrap32(NextPowerOfTwo(2 * n - 1) * 2) == NextPowerOfTwo(2 * n - 1) * 2
  {
    ConvolutionLength(2 * n - 1);
    if n > 0x1000_0000 {
      assert Wrap32(0x8000_0000) == INT_MIN;
    }
  }

  /** The constructor. The chirp array holds 2·(2n − 1) doubles and `ichirp` 2·n2; both sizes
      are `Int` products that wrap for large n, which fails with a negative array size, or
      with an index out of bounds when the wrapped size is too small. The sine and cosine
      must lie on the unit circle so that every chirp factor has a reciprocal. */
  function Make(windowLength: Int32, tr: Transcendentals): (r: Result<Bluestein>)
    requires windowLength > 0 && UnitCircle(tr)
    ensures r.Success? <==> windowLength <= 0x1000_0000
    ensures r.Failure? ==> r.error == NegativeArraySize || r.error == IndexOutOfBounds
    ensures r.Success? ==> Valid(r.value) && r.value.windowLength == windowLength
    ensures r.Success? ==> r.value.chirp == Chirp(tr, windowLength)
    ensures r.Success? ==> r.value.n2 == NextPowerOfTwo(2 * windowLength - 1)
  {
    var n := windowLength;
    var chirpSize := Wrap32(Wrap32(2 * n - 1) * 2);
    ChirpSize(n);
    if chirpSize < 0 then Failure(NegativeArraySize)
    else if chirpSize < 2 * (2 * n - 1) then Failure(IndexOutOfBounds)
    else
      var chirp := Chirp(tr, n);
      ReciprocalSize(n);
      ConvolutionLength(2 * n - 1);
      var n2 := NextPowerOfTwo(2 * n - 1);
      if Wrap32(n2 * 2) < 0 then Failure(NegativeArraySize)
      else
        ChirpOnUnitCircle(tr, n);
        var f := Fft(n2, Interleave(ReciprocalChirp(chirp, n2)), tr, false).value;
        Success(Bluestein(n, chirp, n2, ToPairs(f, n2)))
  }

  /** The `fft` method: the transform of n interleaved complex samples, n = windowLength.
      An input of any other size is rejected by its `require`. */
  function Transform(b: Bluestein, x: seq<real>, tr: Transcendentals): (r: Result<seq<real>>)
    requires Valid(b)
    ensures r.Failure? <==> |x| != 2 * b.windowLength
    ensures r.Failure? ==> r.error == IllegalArgument
    ensures r.Success? ==> |r.value| == 2 * b.windowLength
  {
    if |x| != 2 * b.windowLength then Failure(IllegalArgument)
    else Success(Interleave(Convolved(b, PreChirp(b, x), tr)))
  }

  /** The steps after the pre-chirp: `xp` through `fft`, multiplied pair by pair with the
      transformed reciprocal chirp, back through `iFFT`, and pairs n − 1 .. 2n − 2 multiplied
      by the chirp again. */
  function Convolved(b: Bluestein, xp: seq<Complex>, tr: Transcendentals): (y: seq<Complex>)
    requires Valid(b) && |xp| == b.n2
    ensures |y| == b.windowLength
  {
    var n2 := b.n2;
    var f := Fft(n2, Interleave(xp), tr, false).value;
    var r := PointwiseProduct(ToPairs(f, n2), b.ichirp);
    var g := Fft(n2, Interleave(r), tr, true).value;
    PostChirp(b, ToPairs(g, n2))
  }

  /** `xp`: the input pairs multiplied by the chirp factors of k = 0..n−1, then zeros up to n2. */
  function PreChirp(b: Bluestein, x: seq<real>): (xp: seq<Complex>)
    requires Valid(b) && |x| == 2 * b.windowLength
    ensures |xp| == b.n2
  {
    var n := b.windowLength;
    var z := ToPairs(x, n);
    seq(b.n2, i requires 0 <= i < b.n2 => if i < n then z[i].Times(b.chirp[n - 1 + i]) else Zero)
  }

  /** `r`: the pointwise product of two spectra. */
  function PointwiseProduct(f: seq<Complex>, g: seq<Complex>): (r: seq<Complex>)
    requires |f| == |g|
    ensures |r| == |f|
  {
    seq(|f|, i requires 0 <= i < |f| => f[i].Times(g[i]))
  }

  /** The result: pair n − 1 + k of the convolution times the chirp factor of k. */
  function PostChirp(b: Bluestein, g: seq<Complex>): (y: seq<Complex>)
    requires Valid(b) && |g| == b.n2
    ensures |y| == b.windowLength
  {
    var n := b.windowLength;
    seq(n, k requires 0 <= k < n => g[n - 1 + k].Times(b.chirp[n - 1 + k]))
  }

  /** All-zero pairs. */
  predicate Silent(z: seq<Complex>) {
    forall c :: 0 <= c < |z| ==> z[c] == Zero
  }

  lemma ButterflyAtSilent(b: seq<Complex>, l2: nat, u: Complex, inverse: bool, p: nat)
    requires |b| == 2 * l2 && p < 2 * l2
    requires p < l2 ==> b[p] == Zero && b[p + l2] == Zero
    requires p >= l2 ==> b[p - l2] == Zero && b[p] == Zero
    ensures ButterflyAt(b, l2, u, inverse, p) == Zero
  {
    if p < l2 {
      var s := b[p].Plus(b[p + l2]);
      assert s == Zero;
      assert Halve(inverse, s) == Zero;
    } else {
      var w := Twiddle(u, p - l2);
      var d := b[p - l2].Minus(b[p]);
      assert d == Zero;
      assert Halve(inverse, d) == Zero;
      assert Zero.Times(w) == Zero;
    }
  }

  lemma ButterflySilent(b: seq<Complex>, l2: nat, u: Complex, inverse: bool)
    requires |b| == 2 * l2 && Silent(b)
    ensures Silent(Butterfly(b, l2, u, inverse))
  {
    var r := Butterfly(b, l2, u, inverse);
    forall p | 0 <= p < |r|
      ensures r[p] == Zero
    {
      ButterflyAtSilent(b, l2, u, inverse, p);
    }
  }

  lemma SilentConcat(a: seq<Complex>, b: seq<Complex>)
    requires Silent(a) && Silent(b)
    ensures Silent(a + b)
  {
    forall c | 0 <= c < |a + b|
      ensures (a + b)[c] == Zero
    {
      if c >= |a| {
        assert (a + b)[c] == b[c - |a|];
      }
    }
  }

  lemma {:induction false} StageSilent(z: seq<Complex>, bits: nat, s: nat, u: Complex, inverse: bool)
    requires 1 <= s <= bits && |z| == Pow2(bits) && Silent(z)
    ensures Silent(Stage(z, bits, s, u, inverse))
    decreases bits
  {
    if s == bits {
      ButterflySilent(z, Pow2(s - 1), u, inverse);
    } else {
      var h := Pow2(bits - 1);
      assert Silent(z[..h]);
      assert Silent(z[h..]) by {
        forall c | 0 <= c < |z[h..]|
          ensures z[h..][c] == Zero
        {
          assert z[h..][c] == z[h + c];
        }
      }
      StageSilent(z[..h], bits - 1, s, u, inverse);
      StageSilent(z[h..], bits - 1, s, u, inverse);
      SilentConcat(Stage(z[..h], bits - 1, s, u, inverse), Stage(z[h..], bits - 1, s, u, inverse));
    }
  }

  lemma {:induction false} StagesSilent(z: seq<Complex>, bits: nat, s: nat, m: Transcendentals, inverse: bool)
    requires s <= bits && |z| == Pow2(bits) && Silent(z)
    ensures Silent(Stages(z, bits, s, m, inverse))
    decreases s
  {
    if s > 0 {
      var u := StageRotation(m, Pow2(s), inverse);
      StageSilent(z, bits, s, u, inverse);
      StagesSilent(Stage(z, bits, s, u, inverse), bits, s - 1, m, inverse);
    }
  }

  /** The radix-2 transforms map silence to silence. */
  lemma FftSilent(n: Int32, z: seq<Complex>, m: Transcendentals, inverse: bool)
    requires IsPowerOfTwo(n) && |z| == n && Silent(z)
    ensures Fft(n, Interleave(z), m, inverse).Success?
    ensures Silent(ToPairs(Fft(n, Interleave(z), m, inverse).value, n))
  {
    InterleaveToPairs(Interleave(z), n);
    var ri := Interleave(z);
    assert ToPairs(ri, n) == z by {
      forall c | 0 <= c < n
        ensures ToPairs(ri, n)[c] == z[c]
      {
        InterleavePair(z, c);
      }
    }
    if n >= 2 {
      IsPowerOfTwoIsPow2(n);
      var bits := Log2(n);
      StagesSilent(z, bits, bits, m, inverse);
      var t := RadixTransform(z, bits, m, inverse);
      assert Fft(n, ri, m, inverse).value == Interleave(t) + ri[2 * n..];
      assert Interleave(t) + ri[2 * n..] == Interleave(t);
      forall c | 0 <= c < n
        ensures ToPairs(Interleave(t), n)[c] == Zero
      {
        InterleavePair(t, c);
      }
    }
  }

  lemma PreChirpSilent(b: Bluestein, x: seq<real>)
    requires Valid(b) && |x| == 2 * b.windowLength
    requires forall p :: 0 <= p < |x| ==> x[p] == 0.0
    ensures Silent(PreChirp(b, x))
  {
    var xp := PreChirp(b, x);
    forall i | 0 <= i < |xp|
      ensures xp[i] == Zero
    {
      if i < b.windowLength {
        assert ToPairs(x, b.windowLength)[i] == Zero;
      }
    }
  }

  lemma InterleaveSilent(y: seq<Complex>)
    requires Silent(y)
    ensures forall p :: 0 <= p < |Interleave(y)| ==> Interleave(y)[p] == 0.0
  {
    forall p | 0 <= p < |Interleave(y)|
      ensures Interleave(y)[p] == 0.0
    {
      assert Interleave(y)[p] == Entry(y, p);
    }
  }

  /** The chirp-z transform of silence is silence. */
  lemma TransformSilent(b: Bluestein, x: seq<real>, tr: Transcendentals)
    requires Valid(b) && |x| == 2 * b.windowLength
    requires forall p :: 0 <= p < |x| ==> x[p] == 0.0
    ensures Transform(b, x, tr).Success?
    ensures forall p :: 0 <= p < |x| ==> Transform(b, x, tr).value[p] == 0.0
  {
    var n2 := b.n2;
    var xp := PreChirp(b, x);
    PreChirpSilent(b, x);
    FftSilent(n2, xp, tr, false);
    var f := Fft(n2, Interleave(xp), tr, false).value;
    var r := PointwiseProduct(ToPairs(f, n2), b.ichirp);
    assert Silent(r) by {
      forall i | 0 <= i < |r|
        ensures r[i] == Zero
      {
        assert ToPairs(f, n2)[i] == Zero;
        assert Zero.Times(b.ichirp[i]) == Zero;
      }
    }
    FftSilent(n2, r, tr, true);
    var g := Fft(n2, Interleave(r), tr, true).value;
    var y := PostChirp(b, ToPairs(g, n2));
    assert Silent(y) by {
      forall k | 0 <= k < |y|
        ensures y[k] == Zero
      {
        var gp := ToPairs(g, n2);
        assert gp[b.windowLength - 1 + k] == Zero;
        assert y[k] == gp[b.windowLength - 1 + k].Times(b.chirp[b.windowLength - 1 + k]);
        assert Zero.Times(b.chirp[b.windowLength - 1 + k]) == Zero;
      }
    }
    InterleaveSilent(y);
  }

  /** A one-sample transform is the identity when the chirp of 0 is exactly 1. */
  lemma TransformOfOne(tr: Transcendentals, x: seq<real>)
    requires UnitCircle(tr) && tr.cosTurns(0.0) == 1.0 && tr.sinTurns(0.0) == 0.0 && |x| == 2
    ensures Make(1, tr).Success?
    ensures Transform(Make(1, tr).value, x, tr) == Success(x)
  {
    var b := Make(1, tr).value;
    assert Chirp(tr, 1)[0] == One;
    NextPowerOfTwoSpec(1);
    assert b.n2 == 1;
    assert ReciprocalChirp(b.chirp, 1)[0] == One;
    var z := [Complex(x[0], x[1])];
    assert ToPairs(x, 1) == z;
    assert Interleave(z) == x;
    var xp := PreChirp(b, x);
    assert xp == z;
    var ichirpRaw := Interleave(ReciprocalChirp(b.chirp, 1));
    assert b.ichirp == ToPairs(ichirpRaw, 1);
    assert b.ichirp == [One];
    var r := PointwiseProduct(z, b.ichirp);
    assert r == z;
    assert PostChirp(b, z) == z;
  }

  // ---------------------------------------------------------------------------------------
  // Linearity: each step of the transform is additive, so the whole transform is.
  // ---------------------------------------------------------------------------------------

  lemma PointwiseProductAdditive(f: seq<Complex>, f': seq<Complex>, g: seq<Complex>)
    requires |f| == |f'| == |g|
    ensures PointwiseProduct(AddPairs(f, f'), g) == AddPairs(PointwiseProduct(f, g), PointwiseProduct(f', g))
  {
    forall i | 0 <= i < |f|
      ensures PointwiseProduct(AddPairs(f, f'), g)[i] == AddPairs(PointwiseProduct(f, g), PointwiseProduct(f', g))[i]
    {
      TimesDistributes(f[i], f'[i], g[i]);
    }
  }

  lemma PostChirpAdditive(b: Bluestein, g: seq<Complex>, g': seq<Complex>)
    requires Valid(b) && |g| == |g'| == b.n2
    ensures PostChirp(b, AddPairs(g, g')) == AddPairs(PostChirp(b, g), PostChirp(b, g'))
  {
    var n := b.windowLength;
    forall k | 0 <= k < n
      ensures PostChirp(b, AddPairs(g, g'))[k] == AddPairs(PostChirp(b, g), PostChirp(b, g'))[k]
    {
      TimesDistributes(g[n - 1 + k], g'[n - 1 + k], b.chirp[n - 1 + k]);
    }
  }

  lemma PreChirpAdditive(b: Bluestein, x: seq<real>, x': seq<real>)
    requires Valid(b) && |x| == |x'| == 2 * b.windowLength
    ensures PreChirp(b, AddReals(x, x')) == AddPairs(PreChirp(b, x), PreChirp(b, x'))
  {
    var n := b.windowLength;
    var z, z' := ToPairs(x, n), ToPairs(x', n);
    assert ToPairs(AddReals(x, x'), n) == AddPairs(z, z');
    forall i | 0 <= i < b.n2
      ensures PreChirp(b, AddReals(x, x'))[i] == AddPairs(PreChirp(b, x), PreChirp(b, x'))[i]
    {
      if i < n {
        TimesDistributes(z[i], z'[i], b.chirp[n - 1 + i]);
      }
    }
  }

  lemma ConvolvedAdditive(b: Bluestein, xp: seq<Complex>, xp': seq<Complex>, tr: Transcendentals)
    requires Valid(b) && |xp| == |xp'| == b.n2
    ensures Convolved(b, AddPairs(xp, xp'), tr) == AddPairs(Convolved(b, xp, tr), Convolved(b, xp', tr))
  {
    var n2 := b.n2;
    var f, f' := PairTransform(n2, xp, tr, false), PairTransform(n2, xp', tr, false);
    PairTransformAdditive(n2, xp, xp', tr, false);
    PointwiseProductAdditive(f, f', b.ichirp);
    var r, r' := PointwiseProduct(f, b.ichirp), PointwiseProduct(f', b.ichirp);
    PairTransformAdditive(n2, r, r', tr, true);
    PostChirpAdditive(b, PairTransform(n2, r, tr, true), PairTransform(n2, r', tr, true));
  }

  lemma InterleaveAdditive(y: seq<Complex>, y': seq<Complex>)
    requires |y| == |y'|
    ensures Interleave(AddPairs(y, y')) == AddReals(Interleave(y), Interleave(y'))
  {
  }

  /** The chirp-z transform is additive: the transform of the sum of two inputs of n pairs is
      the sum of their transforms, whatever the trigonometric values. */
  lemma TransformAdditive(b: Bluestein, x: seq<real>, x': seq<real>, tr: Transcendentals)
    requires Valid(b) && |x| == |x'| == 2 * b.windowLength
    ensures Transform(b, AddReals(x, x'), tr).Success?
    ensures Transform(b, AddReals(x, x'), tr).value == AddReals(Transform(b, x, tr).value, Transform(b, x', tr).value)
  {
    PreChirpAdditive(b, x, x');
    ConvolvedAdditive(b, PreChirp(b, x), PreChirp(b, x'), tr);
    InterleaveAdditive(Convolved(b, PreChirp(b, x), tr), Convolved(b, PreChirp(b, x'), tr));
  }

  // BluesteinFloat.kt: the same transform in single precision, which also accepts n real
  // samples. Precision is not modelled; `a.pow(-i)` is 1 for a = 1 and leaves the product
  // unchanged.

  /** The real parts of complex pairs. */
  function RealParts(y: seq<Complex>): (r: seq<real>)
    ensures |r| == |y| && forall k :: 0 <= k < |y| ==> r[k] == y[k].re
  {
    seq(|y|, k requires 0 <= k < |y| => y[k].re)
  }

  /** Real samples as complex pairs with a zero imaginary part, interleaved. */
  function Embed(x: seq<real>): (z: seq<real>)
    ensures |z| == 2 * |x|
    ensures forall i :: 0 <= i < |x| ==> z[2 * i] == x[i] && z[2 * i + 1] == 0.0
  {
    var pairs := seq(|x|, i requires 0 <= i < |x| => OfReal(x[i]));
    forall i | 0 <= i < |x|
      ensures Interleave(pairs)[2 * i] == x[i] && Interleave(pairs)[2 * i + 1] == 0.0
    {
      InterleavePair(pairs, i);
    }
    Interleave(pairs)
  }

  /** The chirp factor `BluesteinFloat.fft` applies to real sample i, as written: the real
      part is read at `chirpOffset + realIndex` with `realIndex = index` for a real input,
      i.e. at double 2(n − 1) + i of the interleaved chirp, while the imaginary part is read
      at 2(n − 1) + 2i + 1. Only for i = 0 is this the factor of pair n − 1 + i. */
  function RealChirpAsWritten(b: Bluestein, i: nat): Complex
    requires Valid(b) && i < b.windowLength
  {
    var offset := 2 * (b.windowLength - 1);
    Complex(Entry(b.chirp, offset + i), Entry(b.chirp, offset + 2 * i + 1))
  }

  /** `xp` of `BluesteinFloat.fft` for a real input as written: sample i times the chirp
      factor read as above, then zeros up to n2. */
  function RealPreChirpAsWritten(b: Bluestein, x: seq<real>): (xp: seq<Complex>)
    requires Valid(b) && |x| >= b.windowLength
    ensures |xp| == b.n2
  {
    var n := b.windowLength;
    seq(b.n2, i requires 0 <= i < b.n2 => if i < n then OfReal(x[i]).Times(RealChirpAsWritten(b, i)) else Zero)
  }

  /** `BluesteinFloat.fft`: an input of 2n values is n complex pairs and goes through the
      transform above; any other input is taken as real samples, of which the first n are
      read, and only the real part of each result is returned. An input shorter than n fails
      on its first missing sample. */
  function FloatTransform(b: Bluestein, x: seq<real>, tr: Transcendentals): (r: Result<seq<real>>)
    requires Valid(b)
    ensures |x| == 2 * b.windowLength ==> r == Transform(b, x, tr) && r.Success?
    ensures |x| < b.windowLength ==> r == Failure(IndexOutOfBounds)
    ensures r.Success? <==> |x| >= b.windowLength
    ensures r.Success? && |x| != 2 * b.windowLength ==> |r.value| == b.windowLength
  {
    var n := b.windowLength;
    if |x| == 2 * n then Transform(b, x, tr)
    else if |x| < n then Failure(IndexOutOfBounds)
    else Success(RealParts(Convolved(b, RealPreChirpAsWritten(b, x), tr)))
  }

  /** The pre-chirp of a real input as the code evidently intends it: sample i times the
      chirp factor of pair n − 1 + i, the factor `Transform` uses. */
  function RealPreChirp(b: Bluestein, x: seq<real>): (xp: seq<Complex>)
    requires Valid(b) && |x| >= b.windowLength
    ensures |xp| == b.n2
  {
    var n := b.windowLength;
    seq(b.n2, i requires 0 <= i < b.n2 => if i < n then OfReal(x[i]).Times(b.chirp[n - 1 + i]) else Zero)
  }

  /** With the intended factor, chirping real samples is chirping their complex embedding. */
  lemma RealPreChirpEmbeds(b: Bluestein, x: seq<real>)
    requires Valid(b) && |x| == b.windowLength
    ensures RealPreChirp(b, x) == PreChirp(b, Embed(x))
  {
    var n := b.windowLength;
    var e := Embed(x);
    var z := ToPairs(e, n);
    var u := RealPreChirp(b, x);
    var v := PreChirp(b, e);
    forall i | 0 <= i < b.n2
      ensures u[i] == v[i]
    {
      if i < n {
        assert z[i] == Complex(e[2 * i], e[2 * i + 1]);
        assert z[i] == OfReal(x[i]);
      }
    }
  }

  /** The real-input transform as the code evidently intends it: the real part of the
      transform of the samples' complex embedding, bin by bin. */
  function RealTransform(b: Bluestein, x: seq<real>, tr: Transcendentals): (r: seq<real>)
    requires Valid(b) && |x| == b.windowLength
    ensures Transform(b, Embed(x), tr).Success?
    ensures |r| == b.windowLength
    ensures forall k :: 0 <= k < |r| ==> r[k] == Transform(b, Embed(x), tr).value[2 * k]
  {
    RealPreChirpEmbeds(b, x);
    var y := Convolved(b, PreChirp(b, Embed(x)), tr);
    forall k | 0 <= k < |y|
      ensures Interleave(y)[2 * k] == y[k].re
    {
      InterleavePair(y, k);
    }
    RealParts(Convolved(b, RealPreChirp(b, x), tr))
  }

  /** As written, sample 1 of a real input is chirped with (sin 0, sin t), t = −1/(2n) turn:
      the imaginary parts of the factors of 0 and 1. The intended factor of 1 is (cos t,
      sin t). */
  lemma RealChirpAsWrittenMisreads(tr: Transcendentals, b: Bluestein, x: seq<real>)
    requires Valid(b) && b.windowLength >= 2 && b.chirp == Chirp(tr, b.windowLength) && |x| == b.windowLength
    ensures var t := -1.0 / ((2 * b.windowLength) as real);
      && RealPreChirpAsWritten(b, x)[1] == OfReal(x[1]).Times(Complex(tr.sinTurns(0.0), tr.sinTurns(t)))
      && RealPreChirp(b, x)[1] == OfReal(x[1]).Times(Complex(tr.cosTurns(t), tr.sinTurns(t)))
  {
    FirstChirps(tr, b);
    AsWrittenFactorOfOne(b);
  }

  /** The chirp factors of indices 0 and 1: (cos 0, sin 0) and (cos t, sin t). */
  lemma FirstChirps(tr: Transcendentals, b: Bluestein)
    requires Valid(b) && b.windowLength >= 2 && b.chirp == Chirp(tr, b.windowLength)
    ensures b.chirp[b.windowLength - 1].im == tr.sinTurns(0.0)
    ensures var t := -1.0 / ((2 * b.windowLength) as real);
      b.chirp[b.windowLength] == Complex(tr.cosTurns(t), tr.sinTurns(t))
  {
    var n := b.windowLength;
    assert b.chirp[n - 1] == ChirpAt(tr, 0, n);
    assert -((0 * 0) as real) / ((2 * n) as real) == 0.0;
    assert b.chirp[n] == ChirpAt(tr, 1, n);
  }

  /** The factor the real-input path uses for sample 1: the imaginary parts of the chirp
      factors of 0 and 1. */
  lemma AsWrittenFactorOfOne(b: Bluestein)
    requires Valid(b) && b.windowLength >= 2
    ensures RealChirpAsWritten(b, 1) == Complex(b.chirp[b.windowLength - 1].im, b.chirp[b.windowLength].im)
  {
    var n := b.windowLength;
    assert Entry(b.chirp, 2 * (n - 1) + 1) == b.chirp[n - 1].im;
    assert Entry(b.chirp, 2 * (n - 1) + 3) == b.chirp[n].im;
  }

  /** With the true sine and cosine, three samples 0, 1, 0: the sample 1 is chirped with
      (0, sin t) instead of (1/2, sin t), so the real input path does not compute the
      transform of its samples. */
  lemma RealChirpAsWrittenExample(tr: Transcendentals)
    requires UnitCircle(tr) && tr.sinTurns(0.0) == 0.0 && tr.cosTurns(-1.0 / 6.0) == 0.5
    ensures Make(3, tr).Success?
    ensures var b := Make(3, tr).value;
      RealPreChirpAsWritten(b, [0.0, 1.0, 0.0])[1] != RealPreChirp(b, [0.0, 1.0, 0.0])[1]
  {
    var b := Make(3, tr).value;
    RealChirpAsWrittenMisreads(tr, b, [0.0, 1.0, 0.0]);
    assert -1.0 / ((2 * 3) as real) == -1.0 / 6.0;
  }
}
