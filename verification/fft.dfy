/** The radix-2 transforms of fft.kt: `fft`, `iFFT`, `realFFT` and `realIFFT`.

    The arrays are interleaved: pair c holds its real part at 2c and its imaginary part at
    2c + 1. The butterflies are modelled with the trigonometric values supplied by the caller
    (`Transcendentals`); what is proved does not depend on those values: sizes, guards, the
    bit-reversal order, and the DC (sum) and Nyquist (alternating sum) bins, which no
    twiddle factor ever touches. */
module FourierTransform {
  import opened Wrappers
  import opened Numerics
  import opened Radix2
  import opened ComplexNumbers

  /** The first n complex pairs of an interleaved array. */
  function ToPairs(ri: seq<real>, n: nat): (z: seq<Complex>)
    requires 2 * n <= |ri|
    ensures |z| == n
  {
    seq(n, c requires 0 <= c < n => Complex(ri[2 * c], ri[2 * c + 1]))
  }

  function Entry(z: seq<Complex>, p: nat): real
    requires p < 2 * |z|
  {
    if p % 2 == 0 then z[p / 2].re else z[p / 2].im
  }

  /** Complex pairs written back as an interleaved array. */
  function Interleave(z: seq<Complex>): (ri: seq<real>)
    ensures |ri| == 2 * |z|
  {
    seq(2 * |z|, p requires 0 <= p < 2 * |z| => Entry(z, p))
  }

  lemma InterleavePair(z: seq<Complex>, c: nat)
    requires c < |z|
    ensures Interleave(z)[2 * c] == z[c].re && Interleave(z)[2 * c + 1] == z[c].im
  {
    assert Interleave(z)[2 * c] == Entry(z, 2 * c);
    assert Interleave(z)[2 * c + 1] == Entry(z, 2 * c + 1);
  }

  /** Reading pairs out of an interleaved array and writing them back loses nothing. */
  lemma InterleaveToPairs(ri: seq<real>, n: nat)
    requires 2 * n <= |ri|
    ensures Interleave(ToPairs(ri, n)) + ri[2 * n..] == ri
    ensures ToPairs(Interleave(ToPairs(ri, n)), n) == ToPairs(ri, n)
  {
    var z := ToPairs(ri, n);
    var r := Interleave(z) + ri[2 * n..];
    forall p | 0 <= p < |ri|
      ensures r[p] == ri[p]
    {
      if p < 2 * n {
        assert r[p] == Entry(z, p);
        if p % 2 == 0 {
          assert 2 * (p / 2) == p;
        } else {
          assert 2 * (p / 2) + 1 == p;
        }
      }
    }
    forall c | 0 <= c < n
      ensures ToPairs(Interleave(z), n)[c] == z[c]
    {
      InterleavePair(z, c);
    }
  }

  /** Exponent of a power of two. */
  function Log2(n: int): (k: nat)
    requires IsPow2(n)
    ensures Pow2(k) == n
    decreases if n > 0 then n else 0
  {
    if n == 1 then 0 else 1 + Log2(n / 2)
  }

  /** The twiddle factor of butterfly j of a block: u^j, by the source's recurrence
      (w starts at 1 and is multiplied by u after each j). */
  function Twiddle(u: Complex, j: nat): Complex {
    if j == 0 then One else Twiddle(u, j - 1).Times(u)
  }

  /** The rotation u of the stage whose blocks hold l1 pairs: cos(π/l2) ∓ i·sin(π/l2)
      with l2 = l1/2, i.e. a turn of 1/l1. `fft` takes the minus sign, `iFFT` the plus. */
  function StageRotation(m: Transcendentals, l1: nat, inverse: bool): Complex
    requires l1 >= 1
  {
    var t := 1.0 / (l1 as real);
    Complex(m.cosTurns(t), if inverse then m.sinTurns(t) else -m.sinTurns(t))
  }

  /** `iFFT` halves sums and differences; `fft` does not. */
  function Halve(inverse: bool, c: Complex): Complex {
    if inverse then c.Scale(0.5) else c
  }

  /** Pair p of a block of 2·l2 pairs after its butterflies: the top half receives the sums
      of pairs j and j + l2, the bottom half their differences rotated by the twiddle u^j. */
  function ButterflyAt(b: seq<Complex>, l2: nat, u: Complex, inverse: bool, p: nat): Complex
    requires |b| == 2 * l2 && p < 2 * l2
  {
    if p < l2 then Halve(inverse, b[p].Plus(b[p + l2]))
    else Halve(inverse, b[p - l2].Minus(b[p])).Times(Twiddle(u, p - l2))
  }

  /** The butterflies of one block of 2·l2 pairs. */
  function Butterfly(b: seq<Complex>, l2: nat, u: Complex, inverse: bool): (r: seq<Complex>)
    requires |b| == 2 * l2
    ensures |r| == |b|
  {
    seq(2 * l2, p requires 0 <= p < 2 * l2 => ButterflyAt(b, l2, u, inverse, p))
  }

  /** One pass of the `repeat(m)` loop over 2^bits pairs, with blocks of 2^s pairs
      (l1 = 2^s). The butterflies of one pass touch disjoint pairs, so the source's order
      (j outer, i inner) yields the same array as handling the blocks one after another. */
  function Stage(z: seq<Complex>, bits: nat, s: nat, u: Complex, inverse: bool): (r: seq<Complex>)
    requires 1 <= s <= bits && |z| == Pow2(bits)
    ensures |r| == |z|
    decreases bits
  {
    if s == bits then Butterfly(z, Pow2(s - 1), u, inverse)
    else
      var h := Pow2(bits - 1);
      Stage(z[..h], bits - 1, s, u, inverse) + Stage(z[h..], bits - 1, s, u, inverse)
  }

  /** The passes with blocks of 2^s, 2^(s-1), ..., 2 pairs. */
  function Stages(z: seq<Complex>, bits: nat, s: nat, m: Transcendentals, inverse: bool): (r: seq<Complex>)
    requires s <= bits && |z| == Pow2(bits)
    ensures |r| == |z|
    decreases s
  {
    if s == 0 then z
    else Stages(Stage(z, bits, s, StageRotation(m, Pow2(s), inverse), inverse), bits, s - 1, m, inverse)
  }

  /** The whole in-place transform of 2^bits pairs: all butterfly passes, then the
      bit-reversal reordering (computed by `Radix2.BitReversePass`). */
  function RadixTransform(z: seq<Complex>, bits: nat, m: Transcendentals, inverse: bool): (r: seq<Complex>)
    requires |z| == Pow2(bits)
    ensures |r| == |z|
  {
    BitReversed(Stages(z, bits, bits, m, inverse), bits)
  }

  /** `fft` (inverse == false) and `iFFT` (inverse == true) as written. The guard
      `n <= riArray.size` compares a count of pairs with a count of doubles, so an array of
      n to 2n - 1 doubles passes it and a butterfly of the first pass then indexes past its
      end.
      A single pair is left untouched: there are no passes and no swaps. */
  function Fft(length: Int32, ri: seq<real>, m: Transcendentals, inverse: bool): (r: Result<seq<real>>)
    ensures r.Failure? <==>
      !IsPowerOfTwo(length) || length > |ri| || (length >= 2 && 2 * length > |ri|)
    ensures r.Failure? ==>
      (r.error == IllegalArgument <==> !IsPowerOfTwo(length) || length > |ri|) &&
      (r.error == IllegalArgument || r.error == IndexOutOfBounds)
    ensures r.Success? ==> |r.value| == |ri|
    ensures r.Success? ==> forall p :: 2 * length <= p < |ri| ==> r.value[p] == ri[p]
  {
    if !IsPowerOfTwo(length) || length > |ri| then Failure(IllegalArgument)
    else if length == 1 then Success(ri)
    else if 2 * length > |ri| then Failure(IndexOutOfBounds)
    else
      IsPowerOfTwoIsPow2(length);
      var bits := Log2(length);
      Success(Interleave(RadixTransform(ToPairs(ri, length), bits, m, inverse)) + ri[2 * length..])
  }

  /** The guard `fft` evidently intends: the array must hold 2n doubles for n pairs.
      With it the transform never indexes out of bounds. */
  function FftChecked(length: Int32, ri: seq<real>, m: Transcendentals, inverse: bool): (r: Result<seq<real>>)
    ensures r.Failure? <==> !IsPowerOfTwo(length) || 2 * length > |ri|
    ensures r.Failure? ==> r.error == IllegalArgument
    ensures r.Success? ==> |r.value| == |ri|
    ensures r.Success? ==> forall p :: 2 * length <= p < |ri| ==> r.value[p] == ri[p]
  {
    if !IsPowerOfTwo(length) || 2 * length > |ri| then Failure(IllegalArgument)
    else Fft(length, ri, m, inverse)
  }

  /** On every array the corrected guard accepts, the two agree. */
  lemma FftCheckedAgrees(length: Int32, ri: seq<real>, m: Transcendentals, inverse: bool)
    requires 2 * length <= |ri|
    ensures FftChecked(length, ri, m, inverse) == Fft(length, ri, m, inverse)
  {
  }

  /** The guard as written lets `fft(2, DoubleArray(2))` through, and the first butterfly
      then reads index 2. */
  lemma FftGuardAdmitsShortArray(m: Transcendentals)
    ensures IsPowerOfTwo(2) && 2 <= |[0.0, 0.0]|
    ensures Fft(2, [0.0, 0.0], m, false) == Failure(IndexOutOfBounds)
    ensures FftChecked(2, [0.0, 0.0], m, false) == Failure(IllegalArgument)
  {
    assert BitAnd(2, 1) == 0;
  }

  /** Halving a power of two gives a power of two, except below 2. */
  lemma HalfPowerOfTwo(n: Int32)
    requires IsPowerOfTwo(n)
    ensures IsPowerOfTwo(n / 2) <==> n >= 2
  {
    IsPowerOfTwoIsPow2(n);
    IsPowerOfTwoIsPow2(n / 2);
  }

  /** Sum of the pairs c, c + L, c + 2L, ... of z. */
  function StrideSum(z: seq<Complex>, c: nat, L: nat): Complex
    requires L >= 1
    decreases |z| - c
  {
    if c >= |z| then Zero else z[c].Plus(StrideSum(z, c + L, L))
  }

  /** A stride-L sum splits into the two interleaved stride-2L sums. */
  lemma {:induction false} StrideSplit(z: seq<Complex>, c: nat, L: nat)
    requires L >= 1
    ensures StrideSum(z, c, L) == StrideSum(z, c, 2 * L).Plus(StrideSum(z, c + L, 2 * L))
    decreases |z| - c
  {
    if c < |z| && c + L < |z| {
      StrideSplit(z, c + 2 * L, L);
      PlusInterleave(z[c], z[c + L], StrideSum(z, c + 2 * L, 2 * L), StrideSum(z, c + 3 * L, 2 * L));
    }
  }

  lemma PlusInterleave(a: Complex, b: Complex, x: Complex, y: Complex)
    ensures a.Plus(b.Plus(x.Plus(y))) == a.Plus(x).Plus(b.Plus(y))
  {
  }

  /** The first block of a pass: pair c < l2 receives the (halved) sum of pairs c and c + l2. */
  lemma {:induction false} StageFirstBlock(z: seq<Complex>, bits: nat, s: nat, u: Complex, inverse: bool, c: nat)
    requires 1 <= s <= bits && |z| == Pow2(bits) && c < Pow2(s - 1)
    ensures Pow2(s) == 2 * Pow2(s - 1) && c + Pow2(s - 1) < |z|
    ensures Stage(z, bits, s, u, inverse)[c] == Halve(inverse, z[c].Plus(z[c + Pow2(s - 1)]))
    decreases bits
  {
    Pow2Monotone(s, bits);
    if s < bits {
      Pow2Monotone(s, bits - 1);
      StageFirstBlock(z[..Pow2(bits - 1)], bits - 1, s, u, inverse, c);
    }
  }

  lemma Pow2Monotone(a: nat, b: nat)
    requires a <= b
    ensures Pow2(a) <= Pow2(b)
  {
  }

  /** The scale the DC bin carries after the passes down to blocks of 2^s pairs: `iFFT`
      halves once per pass, `fft` never. */
  function DcScale(inverse: bool, s: nat, bits: nat): real {
    if inverse then (Pow2(s) as real) / (Pow2(bits) as real) else 1.0
  }

  /** One halving pass keeps the DC scale in step: the (halved) sum of two scaled
      stride sums is the merged stride sum at the next scale. */
  lemma DcStep(p: Complex, q: Complex, inverse: bool, s: nat, bits: nat)
    requires s >= 1
    ensures Halve(inverse, p.Scale(DcScale(inverse, s, bits)).Plus(q.Scale(DcScale(inverse, s, bits))))
         == p.Plus(q).Scale(DcScale(inverse, s - 1, bits))
  {
    if inverse {
      var k := DcScale(inverse, s, bits);
      var k' := DcScale(inverse, s - 1, bits);
      var d := Pow2(bits) as real;
      assert Pow2(s) as real == 2.0 * (Pow2(s - 1) as real);
      assert k == 2.0 * k' by {
        assert k == (2.0 * (Pow2(s - 1) as real)) / d;
      }
      var x := p.Plus(q);
      assert (p.re * k + q.re * k) * 0.5 == x.re * k';
      assert (p.im * k + q.im * k) * 0.5 == x.im * k';
    }
  }

  /** One pair of the DC induction: pair c < 2^(s-1) after the pass with blocks of 2^s. */
  lemma StageDcPair(a: seq<Complex>, x: seq<Complex>, bits: nat, s: nat, u: Complex, inverse: bool, c: nat)
    requires |a| == |x| == Pow2(bits) && 1 <= s <= bits && c < Pow2(s - 1)
    requires Pow2(s) <= |x|
    requires x[c] == StrideSum(a, c, Pow2(s)).Scale(DcScale(inverse, s, bits))
    requires c + Pow2(s - 1) < |x|
    requires x[c + Pow2(s - 1)] == StrideSum(a, c + Pow2(s - 1), Pow2(s)).Scale(DcScale(inverse, s, bits))
    ensures Stage(x, bits, s, u, inverse)[c] == StrideSum(a, c, Pow2(s - 1)).Scale(DcScale(inverse, s - 1, bits))
  {
    var L := Pow2(s - 1);
    StageFirstBlock(x, bits, s, u, inverse, c);
    StrideSplit(a, c, L);
    DcStep(StrideSum(a, c, 2 * L), StrideSum(a, c + L, 2 * L), inverse, s, bits);
  }

  /** After the passes down to blocks of 2^s pairs, pair c < 2^s holds the (scaled)
      stride-2^s sum of the input; the remaining passes leave the total in pair 0. */
  lemma {:induction false} StagesDc(a: seq<Complex>, x: seq<Complex>, bits: nat, s: nat, m: Transcendentals, inverse: bool)
    requires |a| == |x| == Pow2(bits) && s <= bits
    requires forall c :: 0 <= c < Pow2(s) && c < |x| ==> x[c] == StrideSum(a, c, Pow2(s)).Scale(DcScale(inverse, s, bits))
    ensures Stages(x, bits, s, m, inverse)[0] == StrideSum(a, 0, 1).Scale(DcScale(inverse, 0, bits))
    decreases s
  {
    if s > 0 {
      var L := Pow2(s - 1);
      Pow2Monotone(s, bits);
      var u := StageRotation(m, Pow2(s), inverse);
      var x' := Stage(x, bits, s, u, inverse);
      forall c | 0 <= c < L && c < |x'|
        ensures x'[c] == StrideSum(a, c, L).Scale(DcScale(inverse, s - 1, bits))
      {
        StageDcPair(a, x, bits, s, u, inverse, c);
      }
      StagesDc(a, x', bits, s - 1, m, inverse);
    }
  }

  /** Sum of the first n pairs of an interleaved array. */
  function PairSum(ri: seq<real>, n: nat): Complex
    requires 2 * n <= |ri|
  {
    StrideSum(ToPairs(ri, n), 0, 1)
  }

  /** The transform of 2^bits pairs leaves the (scaled) sum of all pairs in pair 0. */
  lemma TransformDc(z: seq<Complex>, bits: nat, m: Transcendentals, inverse: bool)
    requires |z| == Pow2(bits)
    ensures RadixTransform(z, bits, m, inverse)[0] == StrideSum(z, 0, 1).Scale(DcScale(inverse, 0, bits))
  {
    forall c | 0 <= c < Pow2(bits) && c < |z|
      ensures z[c] == StrideSum(z, c, Pow2(bits)).Scale(DcScale(inverse, bits, bits))
    {
      assert StrideSum(z, c + Pow2(bits), Pow2(bits)) == Zero;
    }
    StagesDc(z, z, bits, bits, m, inverse);
    RevZero(bits);
  }

  /** DC bin: pair 0 of `fft` is the sum of the input pairs, pair 0 of `iFFT` their mean,
      whatever the trigonometric values. */
  lemma FftDc(length: Int32, ri: seq<real>, m: Transcendentals, inverse: bool)
    requires IsPowerOfTwo(length) && 2 * length <= |ri|
    ensures Fft(length, ri, m, inverse).Success?
    ensures var f := Fft(length, ri, m, inverse).value;
      var dc := PairSum(ri, length).Scale(if inverse then 1.0 / (length as real) else 1.0);
      f[0] == dc.re && f[1] == dc.im
  {
    var z := ToPairs(ri, length);
    if length == 1 {
      assert StrideSum(z, 1, 1) == Zero;
    } else {
      IsPowerOfTwoIsPow2(length);
      var bits := Log2(length);
      var t := RadixTransform(z, bits, m, inverse);
      TransformDc(z, bits, m, inverse);
      InterleavePair(t, 0);
      assert Fft(length, ri, m, inverse).value == Interleave(t) + ri[2 * length..];
    }
  }

  /** Alternating sum s0 − s1 + s2 − …, the Nyquist bin of a real signal. */
  function AlternatingSum(s: seq<real>): real {
    if |s| == 0 then 0.0 else s[0] - AlternatingSum(s[1..])
  }

  /** Packing a real signal into pairs: the pair sum from pair c on holds the even-indexed
      samples in its real part and the odd-indexed ones in its imaginary part. */
  lemma {:induction false} PairSumOfReal(x: seq<real>, ri: seq<real>, n: nat, c: nat)
    requires |x| == 2 * n && 2 * n <= |ri| && ri[..2 * n] == x && c <= n
    ensures var s := StrideSum(ToPairs(ri, n), c, 1);
      s.re + s.im == Sum(x[2 * c..]) && s.re - s.im == AlternatingSum(x[2 * c..])
    decreases n - c
  {
    if c < n {
      PairSumOfReal(x, ri, n, c + 1);
      var t := x[2 * c..];
      assert t[1..][1..] == x[2 * (c + 1)..];
      assert t[0] == ri[2 * c] && t[1] == ri[2 * c + 1];
    }
  }

  /** The twiddle table `a` of `realFFT` / `realIFFT`: for i < n/2, 0.5·(1 − sin(2πi/n)) at 2i
      and −0.5·cos(2πi/n) at 2i + 1; zero beyond. */
  function TableA(m: Transcendentals, n: nat): (a: seq<real>)
    ensures |a| == n
  {
    seq(n, p requires 0 <= p < n =>
      if p >= 2 * (n / 2) then 0.0
      else if p % 2 == 0 then 0.5 * (1.0 - m.sinTurns((p / 2) as real / n as real))
      else -0.5 * m.cosTurns((p / 2) as real / n as real))
  }

  /** The twiddle table `b`: 0.5·(1 + sin(2πi/n)) at 2i and 0.5·cos(2πi/n) at 2i + 1. */
  function TableB(m: Transcendentals, n: nat): (b: seq<real>)
    ensures |b| == n
  {
    seq(n, p requires 0 <= p < n =>
      if p >= 2 * (n / 2) then 0.0
      else if p % 2 == 0 then 0.5 * (1.0 + m.sinTurns((p / 2) as real / n as real))
      else 0.5 * m.cosTurns((p / 2) as real / n as real))
  }

  /** Iteration k of the post-processing loop of `realFFT` (inverse == false) or the
      pre-processing loop of `realIFFT` (inverse == true): bins k and n/2 − k are recombined
      from the half-length transform. The four stores happen in the source's order; for
      k = n/4 both halves name the same bin and the second store wins. */
  function Recombine(o: seq<real>, a: seq<real>, b: seq<real>, n: nat, k: nat, inverse: bool): (r: seq<real>)
    requires |o| == n + 2 && |a| == n && |b| == n && 1 <= k <= n / 4
    ensures |r| == |o|
    ensures forall p :: 0 <= p < |o| && (p < 2 || p >= n) ==> r[p] == o[p]
  {
    var k2 := 2 * k;
    var nk := n - k2;
    if !inverse then
      var xr := o[k2] * a[k2] - o[k2 + 1] * a[k2 + 1] + o[nk] * b[k2] + o[nk + 1] * b[k2 + 1];
      var xi := o[k2] * a[k2 + 1] + o[k2 + 1] * a[k2] + o[nk] * b[k2 + 1] - o[nk + 1] * b[k2];
      var xrN := o[nk] * a[nk] - o[nk + 1] * a[nk + 1] + o[k2] * b[nk] + o[k2 + 1] * b[nk + 1];
      var xiN := o[nk] * a[nk + 1] + o[nk + 1] * a[nk] + o[k2] * b[nk + 1] - o[k2 + 1] * b[nk];
      o[k2 := xr][k2 + 1 := xi][nk := xrN][nk + 1 := xiN]
    else
      var xr := o[k2] * a[k2] + o[k2 + 1] * a[k2 + 1] + o[nk] * b[k2] - o[nk + 1] * b[k2 + 1];
      var xi := -o[k2] * a[k2 + 1] + o[k2 + 1] * a[k2] - o[nk] * b[k2 + 1] - o[nk + 1] * b[k2];
      var xrN := o[nk] * a[nk] + o[nk + 1] * a[nk + 1] + o[k2] * b[nk] - o[k2 + 1] * b[nk + 1];
      var xiN := -o[nk] * a[nk + 1] + o[nk + 1] * a[nk] - o[k2] * b[nk + 1] - o[k2 + 1] * b[nk];
      o[k2 := xr][k2 + 1 := xi][nk := xrN][nk + 1 := xiN]
  }

  /** The loop `for (k in 1 until n / 4 + 1)`, from iteration k on. */
  function RecombineFrom(o: seq<real>, a: seq<real>, b: seq<real>, n: nat, k: nat, inverse: bool): (r: seq<real>)
    requires |o| == n + 2 && |a| == n && |b| == n && k >= 1
    ensures |r| == |o|
    ensures forall p :: 0 <= p < |o| && (p < 2 || p >= n) ==> r[p] == o[p]
    decreases n / 4 + 1 - k
  {
    if k > n / 4 then o else RecombineFrom(Recombine(o, a, b, n, k, inverse), a, b, n, k + 1, inverse)
  }

  /** `realFFT`: the spectrum of a real signal of power-of-two length n, as n/2 + 1 complex
      bins (n + 2 doubles). A signal of one sample fails: the half-length `fft(0, ...)`
      rejects its length. */
  function RealFft(x: seq<real>, m: Transcendentals): (r: Result<seq<real>>)
    requires |x| <= INT_MAX
    ensures r.Failure? <==> !IsPowerOfTwo(|x|) || |x| == 1
    ensures r.Failure? ==> r.error == IllegalArgument
    ensures r.Success? ==> |r.value| == |x| + 2 && r.value[1] == 0.0 && r.value[|x| + 1] == 0.0
  {
    if !IsPowerOfTwo(|x|) then Failure(IllegalArgument)
    else
      HalfPowerOfTwo(|x|);
      var n := |x|;
      var f :- Fft(n / 2, x + [0.0, 0.0], m, false);
      Success(Unpack(f, m, n))
  }

  /** The loop over the bins and the final writes of `realFFT`, from the half-length
      transform `f`: bins 0 and n/2 get the sum and the difference of pair 0, and their
      imaginary parts are zeroed. */
  function Unpack(f: seq<real>, m: Transcendentals, n: nat): (r: seq<real>)
    requires |f| == n + 2 && n >= 2
    ensures |r| == n + 2 && r[1] == 0.0 && r[n + 1] == 0.0
    ensures r[0] == f[0] + f[1] && r[n] == f[0] - f[1]
  {
    var g := RecombineFrom(f, TableA(m, n), TableB(m, n), n, 1, false);
    var tmp := g[0];
    g[n := g[0] - g[1]][0 := tmp + g[1]][1 := 0.0][n + 1 := 0.0]
  }

  /** DC and Nyquist bins of `realFFT`: bin 0 is the sum of the samples and bin n/2 their
      alternating sum, whatever the trigonometric values. */
  lemma RealFftDcNyquist(x: seq<real>, m: Transcendentals)
    requires |x| <= INT_MAX && IsPowerOfTwo(|x|) && |x| >= 2
    ensures RealFft(x, m).Success?
    ensures RealFft(x, m).value[0] == Sum(x)
    ensures RealFft(x, m).value[|x|] == AlternatingSum(x)
  {
    var f := HalfFftOfReal(x, m);
    RealFftEnds(x, m, f);
  }

  /** Pair 0 of the half-length transform of a real signal holds the sums of its even- and
      odd-indexed samples. */
  lemma HalfFftOfReal(x: seq<real>, m: Transcendentals) returns (f: seq<real>)
    requires |x| <= INT_MAX && |x| >= 2 && IsPowerOfTwo(|x|)
    ensures Fft(|x| / 2, x + [0.0, 0.0], m, false) == Success(f)
    ensures f[0] + f[1] == Sum(x) && f[0] - f[1] == AlternatingSum(x)
  {
    var h := |x| / 2;
    var ri := x + [0.0, 0.0];
    IsPowerOfTwoIsPow2(|x|);
    HalfPowerOfTwo(|x|);
    FftDc(h, ri, m, false);
    f := Fft(h, ri, m, false).value;
    var p := PairSum(ri, h);
    assert f[0] == p.re && f[1] == p.im by {
      assert p.Scale(1.0) == p;
    }
    assert ri[..2 * h] == x;
    PairSumOfReal(x, ri, h, 0);
    assert x[0..] == x;
  }

  /** The last step of `realFFT`: bins 0 and n/2 are the sum and the difference of the
      real and imaginary parts of pair 0 of the half-length transform. */
  lemma RealFftEnds(x: seq<real>, m: Transcendentals, f: seq<real>)
    requires |x| <= INT_MAX && RealFft(x, m).Success?
    requires |x| >= 2 && Fft(|x| / 2, x + [0.0, 0.0], m, false) == Success(f)
    ensures RealFft(x, m).value[0] == f[0] + f[1]
    ensures RealFft(x, m).value[|x|] == f[0] - f[1]
  {
    HalfPowerOfTwo(|x|);
    assert RealFft(x, m).value == Unpack(f, m, |x|);
  }

  /** `realFFT([0, 1, …, 7])` starts with 28 and has −4 in bin 4, as its unit test expects. */
  lemma RealFftOfRamp(m: Transcendentals)
    ensures var r := RealFft([0.0, 1.0, 2.0, 3.0, 4.0, 5.0, 6.0, 7.0], m);
      r.Success? && |r.value| == 10 &&
      r.value[0] == 28.0 && r.value[1] == 0.0 && r.value[8] == -4.0 && r.value[9] == 0.0
  {
    var x := [0.0, 1.0, 2.0, 3.0, 4.0, 5.0, 6.0, 7.0];
    assert BitAnd(8, 7) == 0;
    RealFftDcNyquist(x, m);
  }

  /** `realIFFT`: n + 2 doubles of spectrum back to n real samples; n must be a power of two
      and at least 2 (n = 1 makes the half-length `iFFT(0, ...)` fail). */
  function RealIfft(y: seq<real>, m: Transcendentals): (r: Result<seq<real>>)
    requires |y| <= INT_MAX
    ensures r.Failure? <==> |y| < 4 || !IsPowerOfTwo(|y| - 2)
    ensures r.Failure? ==> r.error == IllegalArgument
    ensures r.Success? ==> |r.value| == |y| - 2
  {
    if !IsPowerOfTwo(|y| - 2) then Failure(IllegalArgument)
    else
      HalfPowerOfTwo(|y| - 2);
      var n := |y| - 2;
      var g := RecombineFrom(y, TableA(m, n), TableB(m, n), n, 1, true);
      var temp := g[0];
      var h := g[0 := 0.5 * g[0] + 0.5 * g[n]][1 := 0.5 * temp - 0.5 * g[n]];
      var f :- Fft(n / 2, h, m, true);
      Success(f[..|f| - 2])
  }

  /** For two samples the round trip is exact: `realIFFT(realFFT(x)) == x`. */
  lemma RealRoundTripTwo(x: seq<real>, m: Transcendentals)
    requires |x| == 2
    ensures RealFft(x, m).Success?
    ensures |RealFft(x, m).value| == 4 && RealIfft(RealFft(x, m).value, m) == Success(x)
  {
    assert BitAnd(2, 1) == 0;
    assert IsPowerOfTwo(2);
    var ri := x + [0.0, 0.0];
    assert Fft(1, ri, m, false) == Success(ri);
    assert RecombineFrom(ri, TableA(m, 2), TableB(m, 2), 2, 1, false) == ri;
    var y := [x[0] + x[1], 0.0, x[0] - x[1], 0.0];
    var g := ri[2 := ri[0] - ri[1]][0 := ri[0] + ri[1]][1 := 0.0][3 := 0.0];
    assert RealFft(x, m) == Success(g);
    assert g == y;
    assert RecombineFrom(y, TableA(m, 2), TableB(m, 2), 2, 1, true) == y;
    var h := y[0 := 0.5 * y[0] + 0.5 * y[2]][1 := 0.5 * y[0] - 0.5 * y[2]];
    assert Fft(1, h, m, true) == Success(h);
    assert RealIfft(y, m) == Success(h[..|h| - 2]);
    assert h[..|h| - 2] == x;
  }

  // ---------------------------------------------------------------------------------------
  // Linearity: every butterfly is a sum, difference or product by a fixed twiddle, so the
  // transform of a sum of signals is the sum of their transforms, whatever the twiddles.
  // ---------------------------------------------------------------------------------------

  /** Pair-by-pair sum of two signals of pairs. */
  function AddPairs(a: seq<Complex>, b: seq<Complex>): (r: seq<Complex>)
    requires |a| == |b|
    ensures |r| == |a|
  {
    seq(|a|, i requires 0 <= i < |a| => a[i].Plus(b[i]))
  }

  /** Element-by-element sum of two interleaved arrays. */
  function AddReals(a: seq<real>, b: seq<real>): (r: seq<real>)
    requires |a| == |b|
    ensures |r| == |a|
  {
    seq(|a|, i requires 0 <= i < |a| => a[i] + b[i])
  }

  lemma TimesDistributes(a: Complex, b: Complex, w: Complex)
    ensures a.Plus(b).Times(w) == a.Times(w).Plus(b.Times(w))
  {
    assert (a.re + b.re) * w.re == a.re * w.re + b.re * w.re;
    assert (a.im + b.im) * w.im == a.im * w.im + b.im * w.im;
    assert (a.re + b.re) * w.im == a.re * w.im + b.re * w.im;
    assert (a.im + b.im) * w.re == a.im * w.re + b.im * w.re;
  }

  lemma ButterflyAtAdditive(a: seq<Complex>, b: seq<Complex>, l2: nat, u: Complex, inverse: bool, p: nat)
    requires |a| == |b| == 2 * l2 && p < 2 * l2
    ensures ButterflyAt(AddPairs(a, b), l2, u, inverse, p)
      == ButterflyAt(a, l2, u, inverse, p).Plus(ButterflyAt(b, l2, u, inverse, p))
  {
    if p >= l2 {
      TimesDistributes(Halve(inverse, a[p - l2].Minus(a[p])), Halve(inverse, b[p - l2].Minus(b[p])), Twiddle(u, p - l2));
    }
  }

  lemma ButterflyAdditive(a: seq<Complex>, b: seq<Complex>, l2: nat, u: Complex, inverse: bool)
    requires |a| == |b| == 2 * l2
    ensures Butterfly(AddPairs(a, b), l2, u, inverse) == AddPairs(Butterfly(a, l2, u, inverse), Butterfly(b, l2, u, inverse))
  {
    forall p | 0 <= p < 2 * l2
      ensures Butterfly(AddPairs(a, b), l2, u, inverse)[p]
        == AddPairs(Butterfly(a, l2, u, inverse), Butterfly(b, l2, u, inverse))[p]
    {
      ButterflyAtAdditive(a, b, l2, u, inverse, p);
    }
  }

  lemma AddPairsSplit(a: seq<Complex>, b: seq<Complex>, h: nat)
    requires |a| == |b| && h <= |a|
    ensures AddPairs(a, b)[..h] == AddPairs(a[..h], b[..h])
    ensures AddPairs(a, b)[h..] == AddPairs(a[h..], b[h..])
    ensures AddPairs(a, b) == AddPairs(a[..h], b[..h]) + AddPairs(a[h..], b[h..])
  {
  }

  lemma {:induction false} StageAdditive(a: seq<Complex>, b: seq<Complex>, bits: nat, s: nat, u: Complex, inverse: bool)
    requires 1 <= s <= bits && |a| == |b| == Pow2(bits)
    ensures Stage(AddPairs(a, b), bits, s, u, inverse) == AddPairs(Stage(a, bits, s, u, inverse), Stage(b, bits, s, u, inverse))
    decreases bits
  {
    if s == bits {
      ButterflyAdditive(a, b, Pow2(s - 1), u, inverse);
    } else {
      var h := Pow2(bits - 1);
      assert Pow2(bits) == 2 * h;
      AddPairsSplit(a, b, h);
      var ab := AddPairs(a, b);
      assert Stage(ab, bits, s, u, inverse)
        == Stage(ab[..h], bits - 1, s, u, inverse) + Stage(ab[h..], bits - 1, s, u, inverse);
      StageAdditive(a[..h], b[..h], bits - 1, s, u, inverse);
      StageAdditive(a[h..], b[h..], bits - 1, s, u, inverse);
      AddPairsConcat(Stage(a[..h], bits - 1, s, u, inverse), Stage(a[h..], bits - 1, s, u, inverse),
        Stage(b[..h], bits - 1, s, u, inverse), Stage(b[h..], bits - 1, s, u, inverse));
    }
  }

  lemma AddPairsConcat(a0: seq<Complex>, a1: seq<Complex>, b0: seq<Complex>, b1: seq<Complex>)
    requires |a0| == |b0| && |a1| == |b1|
    ensures AddPairs(a0 + a1, b0 + b1) == AddPairs(a0, b0) + AddPairs(a1, b1)
  {
    AddPairsSplit(a0 + a1, b0 + b1, |a0|);
    assert (a0 + a1)[..|a0|] == a0 && (a0 + a1)[|a0|..] == a1;
    assert (b0 + b1)[..|a0|] == b0 && (b0 + b1)[|a0|..] == b1;
  }

  lemma {:induction false} StagesAdditive(a: seq<Complex>, b: seq<Complex>, bits: nat, s: nat, m: Transcendentals, inverse: bool)
    requires s <= bits && |a| == |b| == Pow2(bits)
    ensures Stages(AddPairs(a, b), bits, s, m, inverse) == AddPairs(Stages(a, bits, s, m, inverse), Stages(b, bits, s, m, inverse))
    decreases s
  {
    if s > 0 {
      var u := StageRotation(m, Pow2(s), inverse);
      StageAdditive(a, b, bits, s, u, inverse);
      StagesAdditive(Stage(a, bits, s, u, inverse), Stage(b, bits, s, u, inverse), bits, s - 1, m, inverse);
    }
  }

  /** The in-place transform of a sum of signals is the sum of their transforms. */
  lemma RadixTransformAdditive(a: seq<Complex>, b: seq<Complex>, bits: nat, m: Transcendentals, inverse: bool)
    requires |a| == |b| == Pow2(bits)
    ensures RadixTransform(AddPairs(a, b), bits, m, inverse)
      == AddPairs(RadixTransform(a, bits, m, inverse), RadixTransform(b, bits, m, inverse))
  {
    StagesAdditive(a, b, bits, bits, m, inverse);
  }

  lemma PairsOfInterleave(z: seq<Complex>)
    ensures ToPairs(Interleave(z), |z|) == z
  {
    forall c | 0 <= c < |z|
      ensures ToPairs(Interleave(z), |z|)[c] == z[c]
    {
      InterleavePair(z, c);
    }
  }

  /** `fft` or `iFFT` of n pairs, read back as pairs. */
  function PairTransform(n: Int32, z: seq<Complex>, m: Transcendentals, inverse: bool): (r: seq<Complex>)
    requires IsPowerOfTwo(n) && |z| == n
    ensures |r| == n
  {
    var f := Fft(n, Interleave(z), m, inverse);
    assert f.Success?;
    ToPairs(f.value, n)
  }

  lemma PairTransformRadix(n: Int32, z: seq<Complex>, m: Transcendentals, inverse: bool)
    requires IsPowerOfTwo(n) && |z| == n
    ensures n == 1 ==> PairTransform(n, z, m, inverse) == z
    ensures n >= 2 ==> IsPow2(n) && PairTransform(n, z, m, inverse) == RadixTransform(z, Log2(n), m, inverse)
  {
    PairsOfInterleave(z);
    if n >= 2 {
      IsPowerOfTwoIsPow2(n);
      var bits := Log2(n);
      var t := RadixTransform(ToPairs(Interleave(z), n), bits, m, inverse);
      assert Interleave(z)[2 * n..] == [];
      PairsOfInterleave(t);
      assert Interleave(t) + [] == Interleave(t);
    }
  }

  /** `fft` and `iFFT` are additive: the transform of the sum of two signals of n pairs is the
      sum of their transforms, for any trigonometric values. */
  lemma PairTransformAdditive(n: Int32, a: seq<Complex>, b: seq<Complex>, m: Transcendentals, inverse: bool)
    requires IsPowerOfTwo(n) && |a| == |b| == n
    ensures PairTransform(n, AddPairs(a, b), m, inverse)
      == AddPairs(PairTransform(n, a, m, inverse), PairTransform(n, b, m, inverse))
  {
    PairTransformRadix(n, a, m, inverse);
    PairTransformRadix(n, b, m, inverse);
    PairTransformRadix(n, AddPairs(a, b), m, inverse);
    if n >= 2 {
      RadixTransformAdditive(a, b, Log2(n), m, inverse);
    }
  }
}
