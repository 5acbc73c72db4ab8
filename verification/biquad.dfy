/** BiquadFilter.kt: a cascade of second-order sections. Section j keeps two delays; a sample
    goes through the sections in order, each feeding its output to the next. */
module Biquads {
  import opened Wrappers
  import opened Numerics
  import opened Radix2

  /** The coefficients of every section, one array per coefficient, and the two delays of
      every section. */
  datatype Biquad = Biquad(
    b0: seq<real>, b1: seq<real>, b2: seq<real>, a1: seq<real>, a2: seq<real>,
    delay1: seq<real>, delay2: seq<real>)

  /** All seven arrays have one entry per section. */
  predicate Valid(f: Biquad) {
    && |f.b1| == |f.b0| && |f.b2| == |f.b0| && |f.a1| == |f.b0| && |f.a2| == |f.b0|
    && |f.delay1| == |f.b0| && |f.delay2| == |f.b0|
  }

  /** The constructor: the delays start at zero; coefficient arrays of different lengths are
      rejected. */
  function Make(b0: seq<real>, b1: seq<real>, b2: seq<real>, a1: seq<real>, a2: seq<real>): (r: Result<Biquad>)
    ensures r.Success? <==> |b0| == |b1| == |b2| == |a1| == |a2|
    ensures r.Failure? ==> r.error == IllegalArgument
    ensures r.Success? ==> Valid(r.value) && r.value == Biquad(b0, b1, b2, a1, a2, Silence(|b0|), Silence(|b0|))
  {
    var delay1 := Silence(|b0|);
    var delay2 := Silence(|b0|);
    if |b0| != |b1| || |b1| != |b2| || |b2| != |a1| || |a1| != |a2| then Failure(IllegalArgument)
    else Success(Biquad(b0, b1, b2, a1, a2, delay1, delay2))
  }

  /** `reset`: both delays back to zero, the coefficients kept. */
  function Reset(f: Biquad): (r: Biquad)
    requires Valid(f)
    ensures Valid(r) && r.b0 == f.b0 && r.b1 == f.b1 && r.b2 == f.b2 && r.a1 == f.a1 && r.a2 == f.a2
    ensures forall j :: 0 <= j < |r.b0| ==> r.delay1[j] == 0.0 && r.delay2[j] == 0.0
  {
    f.(delay1 := Silence(|f.b0|), delay2 := Silence(|f.b0|))
  }

  // ---------------------------------------------------------------------------------------
  // The signal flow of one sample

  /** The intermediate value of section j on input x: x − d1·a1 − d2·a2. */
  function Intermediate(f: Biquad, j: nat, x: real): real
    requires Valid(f) && j < |f.b0|
  {
    x - f.delay1[j] * f.a1[j] - f.delay2[j] * f.a2[j]
  }

  /** The output of section j on input x: w·b0 + d1·b1 + d2·b2 with w the intermediate value. */
  function SectionOutput(f: Biquad, j: nat, x: real): real
    requires Valid(f) && j < |f.b0|
  {
    Intermediate(f, j, x) * f.b0[j] + f.delay1[j] * f.b1[j] + f.delay2[j] * f.b2[j]
  }

  /** What enters section j when x enters the cascade: x itself for the first section, the
      previous section's output for the others. */
  function SectionInput(f: Biquad, x: real, j: nat): real
    requires Valid(f) && j <= |f.b0|
  {
    if j == 0 then x else SectionOutput(f, j - 1, SectionInput(f, x, j - 1))
  }

  /** One sample through the whole cascade: the output, and the filter after every section has
      moved its first delay into its second and kept its intermediate value as first delay. */
  function Step(f: Biquad, x: real): (r: (Biquad, real))
    requires Valid(f)
    ensures Valid(r.0)
  {
    var n := |f.b0|;
    (f.(delay1 := seq(n, j requires 0 <= j < n => Intermediate(f, j, SectionInput(f, x, j))), delay2 := f.delay1),
     SectionInput(f, x, n))
  }

  /** g is f after x went through: same coefficients, every section's first delay moved into
      its second and its intermediate value kept as its first. */
  ghost predicate Moved(f: Biquad, x: real, g: Biquad)
    requires Valid(f)
  {
    && g.b0 == f.b0 && g.b1 == f.b1 && g.b2 == f.b2 && g.a1 == f.a1 && g.a2 == f.a2
    && |g.delay1| == |f.b0| && g.delay2 == f.delay1
    && forall k :: 0 <= k < |f.b0| ==> g.delay1[k] == Intermediate(f, k, SectionInput(f, x, k))
  }

  /** `Step` is the one filter that `Moved` describes. */
  lemma StepMoved(f: Biquad, x: real, g: Biquad)
    requires Valid(f)
    ensures Moved(f, x, g) <==> g == Step(f, x).0
  {
    if Moved(f, x, g) {
      assert g.delay1 == Step(f, x).0.delay1;
    }
  }

  /** The body of the inner loop: section j, with delays d1 and d2, on input x. */
  method RunSection(f: Biquad, j: nat, d1: real, d2: real, x: real) returns (intermediate: real, output: real)
    requires Valid(f) && j < |f.b0| && d1 == f.delay1[j] && d2 == f.delay2[j]
    ensures intermediate == Intermediate(f, j, x) && output == SectionOutput(f, j, x)
  {
    var inputAcc := x;
    inputAcc := inputAcc - d1 * f.a1[j];
    inputAcc := inputAcc - d2 * f.a2[j];
    var outputAcc := inputAcc * f.b0[j];
    outputAcc := outputAcc + d1 * f.b1[j];
    outputAcc := outputAcc + d2 * f.b2[j];
    return inputAcc, outputAcc;
  }

  /** The inner loop over the sections, as written: the running value passes from section to
      section while each section's delays are updated in place. */
  method Cascade(f: Biquad, x: real) returns (g: Biquad, y: real)
    requires Valid(f)
    ensures Moved(f, x, g) && y == SectionInput(f, x, |f.b0|)
  {
    var n := |f.b0|;
    var delay1, delay2 := f.delay1, f.delay2;
    var inputAcc := x;
    var j := 0;
    while j < n
      invariant 0 <= j <= n && |delay1| == n && |delay2| == n
      invariant inputAcc == SectionInput(f, x, j)
      invariant forall k :: 0 <= k < j ==> delay1[k] == Intermediate(f, k, SectionInput(f, x, k))
      invariant forall k :: 0 <= k < j ==> delay2[k] == f.delay1[k]
      invariant forall k :: j <= k < n ==> delay1[k] == f.delay1[k] && delay2[k] == f.delay2[k]
    {
      var intermediate, outputAcc := RunSection(f, j, delay1[j], delay2[j], inputAcc);
      delay2 := delay2[j := delay1[j]];
      delay1 := delay1[j := intermediate];
      inputAcc := outputAcc;
      j := j + 1;
    }
    g := f.(delay1 := delay1, delay2 := delay2);
    y := inputAcc;
  }

  /** One sample through the cascade, with the result stated as `Step`. */
  method Advance(f: Biquad, x: real) returns (g: Biquad, y: real)
    requires Valid(f)
    ensures (g, y) == Step(f, x)
  {
    g, y := Cascade(f, x);
    StepMoved(f, x, g);
  }

  /** A cascade at rest stays at rest: silence in, silence out, delays still zero. */
  lemma {:induction false} SilenceAtRest(f: Biquad, j: nat)
    requires Valid(f) && j <= |f.b0|
    requires forall k :: 0 <= k < |f.b0| ==> f.delay1[k] == 0.0 && f.delay2[k] == 0.0
    ensures SectionInput(f, 0.0, j) == 0.0
  {
    if j > 0 {
      SilenceAtRest(f, j - 1);
    }
  }

  /** Silence through a filter at rest leaves every delay at zero. */
  lemma SilenceKeepsRest(f: Biquad)
    requires Valid(f)
    requires forall k :: 0 <= k < |f.b0| ==> f.delay1[k] == 0.0 && f.delay2[k] == 0.0
    ensures Step(f, 0.0).1 == 0.0
    ensures forall k :: 0 <= k < |f.b0| ==> Step(f, 0.0).0.delay1[k] == 0.0 && Step(f, 0.0).0.delay2[k] == 0.0
  {
    SilenceAtRest(f, |f.b0|);
    forall k | 0 <= k < |f.b0|
      ensures Step(f, 0.0).0.delay1[k] == 0.0
    {
      SilenceAtRest(f, k);
    }
  }

  // ---------------------------------------------------------------------------------------
  // Whole blocks

  /** The filter after a block of samples, and the cascade's output for each of them. */
  function Run(f: Biquad, xs: seq<real>): (r: (Biquad, seq<real>))
    requires Valid(f)
    ensures Valid(r.0) && |r.1| == |xs|
    decreases |xs|
  {
    if |xs| == 0 then (f, [])
    else
      var before := Run(f, xs[..|xs| - 1]);
      var last := Step(before.0, xs[|xs| - 1]);
      (last.0, before.1 + [last.1])
  }

  /** Running one more sample extends the block by one step. */
  lemma RunNext(f: Biquad, xs: seq<real>, i: nat)
    requires Valid(f) && i < |xs|
    ensures Run(f, xs[..i + 1]).0 == Step(Run(f, xs[..i]).0, xs[i]).0
    ensures Run(f, xs[..i + 1]).1 == Run(f, xs[..i]).1 + [Step(Run(f, xs[..i]).0, xs[i]).1]
  {
    var xs' := xs[..i + 1];
    assert xs'[..|xs'| - 1] == xs[..i];
  }

  /** `filterThenLeq`: the level 10·log10(Σy² / n) of the filtered block. An empty block divides
      zero by zero, a NaN in IEEE arithmetic, which the model reports as `None`. */
  method FilterThenLeq(f: Biquad, samples: seq<real>, m: Transcendentals) returns (g: Biquad, leq: Option<real>)
    requires Valid(f)
    ensures g == Run(f, samples).0
    ensures leq.None? <==> |samples| == 0
    ensures leq.Some? ==> leq.value == 10.0 * m.log10(SumOfSquares(Run(f, samples).1) / |samples| as real)
  {
    var squareSum := 0.0;
    g := f;
    ghost var ys: seq<real> := [];
    var i := 0;
    while i < |samples|
      invariant 0 <= i <= |samples| && Valid(g)
      invariant g == Run(f, samples[..i]).0 && ys == Run(f, samples[..i]).1
      invariant squareSum == SumOfSquares(ys)
    {
      RunNext(f, samples, i);
      var y;
      g, y := Advance(g, samples[i]);
      squareSum := squareSum + Square(y);
      ys := ys + [y];
      assert ys[..|ys| - 1] == ys[..i];
      i := i + 1;
    }
    assert samples[..i] == samples;
    if |samples| == 0 {
      leq := None;
    } else {
      leq := Some(10.0 * m.log10(squareSum / |samples| as real));
    }
  }

  /** The number of multiples of F below n: ⌈n / F⌉. */
  function Multiples(n: nat, factor: nat): nat
    requires factor > 0
  {
    (n + factor - 1) / factor
  }

  /** The position of the k-th selected sample. */
  function Selected(k: nat, factor: nat): nat {
    k * factor
  }

  /** Going from n to n + 1 adds a multiple exactly when n is one; n is then the last one. */
  lemma MultiplesStep(n: nat, factor: nat)
    requires factor > 0
    ensures Multiples(n + 1, factor) == Multiples(n, factor) + (if n % factor == 0 then 1 else 0)
    ensures n % factor == 0 ==> n == Selected(Multiples(n, factor), factor)
  {
    var q, r := n / factor, n % factor;
    assert n == q * factor + r;
    if r == 0 {
      DivModUnique(n + factor - 1, factor, q, factor - 1);
      DivModUnique(n + factor, factor, q + 1, 0);
    } else {
      DivModUnique(n + factor - 1, factor, q + 1, r - 1);
      DivModUnique(n + factor, factor, q + 1, r);
    }
  }

  /** `i % subsamplingFactor` for i ≥ 0: Kotlin's remainder takes the sign of the dividend, so a
      negative factor selects the same samples as its absolute value. */
  function Abs(x: int): nat {
    if x < 0 then -x else x
  }

  /** `filterSlice`: every sample goes through the cascade, and the output of every
      `subsamplingFactor`-th sample (starting with the first) is written to the next slot of
      `samplesOut`. A zero factor fails on the first remainder; too small an output array fails
      on the first slot past its end. */
  method FilterSlice(f: Biquad, samplesIn: seq<real>, samplesOut: seq<real>, subsamplingFactor: Int32)
    returns (r: Result<(Biquad, seq<real>)>)
    requires Valid(f)
    ensures subsamplingFactor == 0 ==> (r.Failure? <==> |samplesIn| > 0)
    ensures subsamplingFactor == 0 && r.Failure? ==> r.error == ArithmeticError
    ensures subsamplingFactor != 0 ==>
              (r.Failure? <==> Multiples(|samplesIn|, Abs(subsamplingFactor)) > |samplesOut|)
    ensures subsamplingFactor != 0 && r.Failure? ==> r.error == IndexOutOfBounds
    ensures r.Success? ==> r.value.0 == Run(f, samplesIn).0 && |r.value.1| == |samplesOut|
    ensures r.Success? && subsamplingFactor != 0 ==>
              var count := Multiples(|samplesIn|, Abs(subsamplingFactor));
              && (forall k :: 0 <= k < count ==>
                    Selected(k, Abs(subsamplingFactor)) < |samplesIn|
                    && r.value.1[k] == Run(f, samplesIn).1[Selected(k, Abs(subsamplingFactor))])
              && (forall k :: count <= k < |samplesOut| ==> r.value.1[k] == samplesOut[k])
  {
    if subsamplingFactor == 0 {
      if |samplesIn| > 0 {
        return Failure(ArithmeticError);
      }
      return Success((f, samplesOut));
    }
    r := Subsample(f, samplesIn, samplesOut, Abs(subsamplingFactor));
  }

  /** The loop of `filterSlice` for a non-zero factor. */
  method Subsample(f: Biquad, samplesIn: seq<real>, samplesOut: seq<real>, factor: nat)
    returns (r: Result<(Biquad, seq<real>)>)
    requires Valid(f) && factor > 0
    ensures r.Failure? <==> Multiples(|samplesIn|, factor) > |samplesOut|
    ensures r.Failure? ==> r.error == IndexOutOfBounds
    ensures r.Success? ==> r.value.0 == Run(f, samplesIn).0 && |r.value.1| == |samplesOut|
    ensures r.Success? ==>
              && (forall k :: 0 <= k < Multiples(|samplesIn|, factor) ==>
                    Selected(k, factor) < |samplesIn| && r.value.1[k] == Run(f, samplesIn).1[Selected(k, factor)])
              && (forall k :: Multiples(|samplesIn|, factor) <= k < |samplesOut| ==> r.value.1[k] == samplesOut[k])
  {
    var out := samplesOut;
    var g := f;
    var samplesOutIndex: nat := 0;
    var i := 0;
    while i < |samplesIn|
      invariant 0 <= i <= |samplesIn|
      invariant Sliced(f, samplesIn, samplesOut, factor, i, g, out, samplesOutIndex)
    {
      if i % factor == 0 && samplesOutIndex >= |out| {
        MultiplesStep(i, factor);
        MultiplesGrow(i + 1, |samplesIn|, factor);
        return Failure(IndexOutOfBounds);
      }
      g, out, samplesOutIndex := SliceSample(f, samplesIn, samplesOut, factor, i, g, out, samplesOutIndex);
      i := i + 1;
    }
    assert samplesIn[..i] == samplesIn;
    r := Success((g, out));
  }

  /** The state of `filterSlice` after the first i samples: the filter has run over them, and
      the output array holds the selected outputs so far followed by its original contents. */
  ghost predicate Sliced(f: Biquad, xs: seq<real>, out0: seq<real>, factor: nat, i: nat,
                         g: Biquad, out: seq<real>, index: nat)
    requires Valid(f) && factor > 0 && i <= |xs|
  {
    && g == Run(f, xs[..i]).0 && |out| == |out0|
    && index == Multiples(i, factor) <= |out0|
    && (forall k :: 0 <= k < index ==> Selected(k, factor) < i && out[k] == Run(f, xs[..i]).1[Selected(k, factor)])
    && (forall k :: index <= k < |out| ==> out[k] == out0[k])
  }

  /** One iteration of the `filterSlice` loop, on sample i. */
  method SliceSample(f: Biquad, xs: seq<real>, out0: seq<real>, factor: nat, i: nat,
                     g: Biquad, out: seq<real>, index: nat)
    returns (g': Biquad, out': seq<real>, index': nat)
    requires Valid(f) && factor > 0 && i < |xs| && Sliced(f, xs, out0, factor, i, g, out, index)
    requires i % factor == 0 ==> index < |out|
    ensures Sliced(f, xs, out0, factor, i + 1, g', out', index')
  {
    RunNext(f, xs, i);
    ghost var before := Run(f, xs[..i]).1;
    ghost var ys := Run(f, xs[..i + 1]).1;
    assert forall k :: 0 <= k < index ==> ys[Selected(k, factor)] == before[Selected(k, factor)];
    var y;
    g', y := Advance(g, xs[i]);
    MultiplesStep(i, factor);
    out', index' := out, index;
    if i % factor == 0 {
      assert Selected(index, factor) == i && ys[i] == y;
      out' := out[index := y];
      index' := index + 1;
    }
  }

  /** More samples never select fewer outputs. */
  lemma {:induction false} MultiplesGrow(a: nat, b: nat, factor: nat)
    requires factor > 0 && a <= b
    ensures Multiples(a, factor) <= Multiples(b, factor)
    decreases b - a
  {
    if a < b {
      MultiplesGrow(a, b - 1, factor);
      MultiplesStep(b - 1, factor);
    }
  }
}
