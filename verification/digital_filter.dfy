/** DigitalFilter.kt: a recursive filter given by numerator and denominator coefficients. The
    last inputs and outputs are kept in two circular buffers whose current slot is
    `circularIndex`; each sample is stored, weighed against the buffers, and its output stored. */
module DigitalFilters {
  import opened Wrappers
  import opened Numerics
  import opened Radix2

  datatype DigitalFilter = DigitalFilter(
    numerator: seq<real>, denominator: seq<real>,
    delay1: seq<real>,     // past outputs
    delay2: seq<real>,     // past inputs
    circularIndex: int)

  /** The order is fixed by the numerator's length at construction. */
  function Order(f: DigitalFilter): nat {
    |f.numerator|
  }

  /** Both buffers hold one value per coefficient and the current slot is one of them. */
  predicate Valid(f: DigitalFilter) {
    && |f.delay1| == Order(f) && |f.delay2| == Order(f)
    && (if Order(f) == 0 then f.circularIndex == 0 else 0 <= f.circularIndex < Order(f))
  }

  /** The filter can process a sample without an out-of-bounds access, and the division by the
      leading denominator coefficient is a real division. */
  predicate Realisable(f: DigitalFilter) {
    Valid(f) && Order(f) > 0 && |f.denominator| >= Order(f) && f.denominator[0] != 0.0
  }

  /** The constructor: buffers of the numerator's length, all zero, current slot 0. */
  function Make(numerator: seq<real>, denominator: seq<real>): (f: DigitalFilter)
    ensures Valid(f) && Order(f) == |numerator| && f.circularIndex == 0
    ensures f.numerator == numerator && f.denominator == denominator
    ensures forall k :: 0 <= k < Order(f) ==> f.delay1[k] == 0.0 && f.delay2[k] == 0.0
  {
    var order := |numerator|;
    DigitalFilter(numerator, denominator, Silence(order), Silence(order), 0)
  }

  /** `clearDelay`: the filter as freshly constructed from the same coefficients. */
  function ClearDelay(f: DigitalFilter): (g: DigitalFilter)
    ensures g == Make(f.numerator, f.denominator)
  {
    f.(circularIndex := 0, delay1 := Silence(Order(f)), delay2 := Silence(Order(f)))
  }

  // ---------------------------------------------------------------------------------------
  // Circular indices

  /** The slot holding the value from k samples ago, when the current slot is c. */
  function Slot(c: nat, k: nat, order: nat): (s: nat)
    requires c < order && k < order
    ensures s < order
  {
    if k <= c then c - k else c - k + order
  }

  /** The index into the input buffer for coefficient j, as written: a remainder that may be
      negative, then shifted by the buffer size. */
  function InputIndex(c: int, j: int, order: int): int
    requires order > 0
  {
    var index := Rem(c - j, order);
    if index < 0 then index + order else index
  }

  /** The index into the output buffer for coefficient j, as written. */
  function OutputIndex(c: int, j: int, order: int): int
    requires order > 0
  {
    var index := Rem(order - j + c, order);
    if index < 0 then index + order else index
  }

  /** Both index computations find the slot j samples back; the output one only for j ≥ 1,
      the only coefficients it is used with. */
  lemma IndicesAreSlots(c: nat, j: nat, order: nat)
    requires c < order && j < order
    ensures InputIndex(c, j, order) == Slot(c, j, order)
    ensures j >= 1 ==> OutputIndex(c, j, order) == Slot(c, j, order)
  {
    if j <= c {
      DivModUnique(c - j, order, 0, c - j);
    } else {
      DivModUnique(j - c, order, 0, j - c);
    }
    if j >= 1 {
      if j <= c {
        DivModUnique(order - j + c, order, 1, c - j);
      } else {
        DivModUnique(order - j + c, order, 0, order - j + c);
      }
    }
  }

  /** The slot after c, wrapping to 0 at the order. */
  function Next(c: nat, order: nat): (n: nat)
    requires c < order
    ensures n < order
  {
    if c + 1 == order then 0 else c + 1
  }

  /** Moving on one slot puts the value from k − 1 samples ago k samples back. */
  lemma SlotNext(c: nat, k: nat, order: nat)
    requires c < order && 1 <= k < order
    ensures Slot(Next(c, order), k, order) == Slot(c, k - 1, order)
    ensures Slot(c, k, order) != c
  {
  }

  /** `Next` advances the slot by one modulo the order. */
  lemma NextIsModular(start: nat, n: nat, order: nat)
    requires order > 0
    ensures Next((start + n) % order, order) == (start + n + 1) % order
  {
    var q, r := (start + n) / order, (start + n) % order;
    assert start + n == q * order + r;
    if r + 1 == order {
      DivModUnique(start + n + 1, order, q + 1, 0);
    } else {
      DivModUnique(start + n + 1, order, q, r + 1);
    }
  }

  // ---------------------------------------------------------------------------------------
  // The weighed sum of one sample

  /** The contribution of coefficient j when the current slot is c: the input j samples back
      times numerator j, less (for j ≥ 1) the output j samples back times denominator j. */
  function Tap(f: DigitalFilter, outputs: seq<real>, inputs: seq<real>, c: nat, j: nat): real
    requires Realisable(f) && |outputs| == Order(f) && |inputs| == Order(f) && c < Order(f) && j < Order(f)
  {
    var order := Order(f);
    f.numerator[j] * inputs[Slot(c, j, order)]
      - (if j == 0 then 0.0 else f.denominator[j] * outputs[Slot(c, j, order)])
  }

  /** The taps of coefficients 0 … j − 1. */
  function Weighed(f: DigitalFilter, outputs: seq<real>, inputs: seq<real>, c: nat, j: nat): real
    requires Realisable(f) && |outputs| == Order(f) && |inputs| == Order(f) && c < Order(f) && j <= Order(f)
  {
    if j == 0 then 0.0 else Weighed(f, outputs, inputs, c, j - 1) + Tap(f, outputs, inputs, c, j - 1)
  }

  /** The inner loop over the coefficients, as written. */
  method Accumulate(f: DigitalFilter, outputs: seq<real>, inputs: seq<real>, c: nat) returns (acc: real)
    requires Realisable(f) && |outputs| == Order(f) && |inputs| == Order(f) && c < Order(f)
    ensures acc == Weighed(f, outputs, inputs, c, Order(f))
  {
    var order := Order(f);
    acc := 0.0;
    var j := 0;
    while j < order
      invariant 0 <= j <= order && acc == Weighed(f, outputs, inputs, c, j)
    {
      IndicesAreSlots(c, j, order);
      var indexDelay2 := InputIndex(c, j, order);
      acc := acc + f.numerator[j] * inputs[indexDelay2];
      if j != 0 {
        var indexDelay1 := OutputIndex(c, j, order);
        acc := acc - f.denominator[j] * outputs[indexDelay1];
      }
      j := j + 1;
    }
  }

  // ---------------------------------------------------------------------------------------
  // The difference equation

  /** Input t of a block, counting from 0; a negative t reaches into the input buffer of the
      filter the block starts from. */
  function PastInput(f: DigitalFilter, xs: seq<real>, t: int): real
    requires Realisable(f) && 0 < t + Order(f) && t < |xs|
  {
    if t >= 0 then xs[t] else f.delay2[Slot(f.circularIndex, -t, Order(f))]
  }

  /** Output t of a block, the same way for the output buffer. */
  function PastOutput(f: DigitalFilter, ys: seq<real>, t: int): real
    requires Realisable(f) && 0 < t + Order(f) && t < |ys|
  {
    if t >= 0 then ys[t] else f.delay1[Slot(f.circularIndex, -t, Order(f))]
  }

  /** Σ_{i<j} numerator[i]·x[n−i] − Σ_{1≤i<j} denominator[i]·y[n−i]. */
  function Equation(f: DigitalFilter, xs: seq<real>, ys: seq<real>, n: nat, j: nat): real
    requires Realisable(f) && n < |xs| && |ys| == n && j <= Order(f)
  {
    if j == 0 then 0.0 else Equation(f, xs, ys, n, j - 1) + Term(f, xs, ys, n, j - 1)
  }

  /** numerator[k]·x[n−k], less denominator[k]·y[n−k] for k ≥ 1. */
  function Term(f: DigitalFilter, xs: seq<real>, ys: seq<real>, n: nat, k: nat): real
    requires Realisable(f) && n < |xs| && |ys| == n && k < Order(f)
  {
    f.numerator[k] * PastInput(f, xs, n - k)
      - (if k == 0 then 0.0 else f.denominator[k] * PastOutput(f, ys, n - k))
  }

  /** The first n outputs of the filter f on the block xs, by the difference equation
      y[n] = (Σ numerator[i]·x[n−i] − Σ_{i≥1} denominator[i]·y[n−i]) / denominator[0]. */
  function Response(f: DigitalFilter, xs: seq<real>, n: nat): (ys: seq<real>)
    requires Realisable(f) && n <= |xs|
    ensures |ys| == n
  {
    if n == 0 then []
    else
      var ys := Response(f, xs, n - 1);
      ys + [Equation(f, xs, ys, n - 1, Order(f)) / f.denominator[0]]
  }

  /** The buffers after the first |ys| samples of the block xs, whose outputs were ys, starting
      from f: same coefficients, the slot moved on by |ys|, and the k-th slot back holding input
      and output |ys| − k. */
  ghost predicate Tracks(f: DigitalFilter, xs: seq<real>, ys: seq<real>, g: DigitalFilter)
    requires Realisable(f) && |ys| <= |xs|
  {
    var order, n := Order(f), |ys|;
    && Valid(g) && g.numerator == f.numerator && g.denominator == f.denominator
    && g.circularIndex == (f.circularIndex + n) % order
    && (forall k :: 1 <= k < order ==> g.delay2[Slot(g.circularIndex, k, order)] == PastInput(f, xs, n - k))
    && (forall k :: 1 <= k < order ==> g.delay1[Slot(g.circularIndex, k, order)] == PastOutput(f, ys, n - k))
  }

  lemma TracksStart(f: DigitalFilter, xs: seq<real>)
    requires Realisable(f)
    ensures Tracks(f, xs, [], f)
  {
    DivModUnique(f.circularIndex, Order(f), 0, f.circularIndex);
  }

  /** With the current input stored, the buffers weigh exactly as the difference equation. */
  lemma {:induction false} WeighedIsEquation(f: DigitalFilter, xs: seq<real>, ys: seq<real>, g: DigitalFilter,
                                             inputs: seq<real>, j: nat)
    requires Realisable(f) && |ys| < |xs| && Tracks(f, xs, ys, g) && j <= Order(f)
    requires |inputs| == Order(f) && inputs == g.delay2[g.circularIndex := xs[|ys|]]
    ensures Realisable(g)
    ensures Weighed(g, g.delay1, inputs, g.circularIndex, j) == Equation(f, xs, ys, |ys|, j)
  {
    if j > 0 {
      WeighedIsEquation(f, xs, ys, g, inputs, j - 1);
      TapIsTerm(f, xs, ys, g, inputs, j - 1);
    }
  }

  /** Coefficient k weighs the buffers as term k of the difference equation. */
  lemma TapIsTerm(f: DigitalFilter, xs: seq<real>, ys: seq<real>, g: DigitalFilter, inputs: seq<real>, k: nat)
    requires Realisable(f) && |ys| < |xs| && Tracks(f, xs, ys, g) && k < Order(f)
    requires |inputs| == Order(f) && inputs == g.delay2[g.circularIndex := xs[|ys|]]
    ensures Realisable(g)
    ensures Tap(g, g.delay1, inputs, g.circularIndex, k) == Term(f, xs, ys, |ys|, k)
  {
    var order, c, n := Order(f), g.circularIndex, |ys|;
    if k == 0 {
      assert inputs[Slot(c, 0, order)] == PastInput(f, xs, n);
    } else {
      SlotNext(c, k, order);
      assert inputs[Slot(c, k, order)] == PastInput(f, xs, n - k);
    }
  }

  /** The next output of the difference equation after outputs ys. */
  function NextOutput(f: DigitalFilter, xs: seq<real>, ys: seq<real>): real
    requires Realisable(f) && |ys| < |xs|
  {
    Equation(f, xs, ys, |ys|, Order(f)) / f.denominator[0]
  }

  /** The response grows one equation at a time. */
  lemma ResponseNext(f: DigitalFilter, xs: seq<real>, n: nat)
    requires Realisable(f) && n < |xs|
    ensures Response(f, xs, n + 1) == Response(f, xs, n) + [NextOutput(f, xs, Response(f, xs, n))]
  {
  }

  /** One sample through the filter, as the body of the outer loop does it. */
  method FilterSample(f: DigitalFilter, xs: seq<real>, n: nat, ghost ys: seq<real>, g: DigitalFilter)
    returns (g': DigitalFilter, y: real)
    requires Realisable(f) && n < |xs| && |ys| == n && Tracks(f, xs, ys, g)
    ensures y == NextOutput(f, xs, ys) && Tracks(f, xs, ys + [y], g')
  {
    var order, c := Order(f), g.circularIndex;
    var inputs := g.delay2[c := xs[n]];
    WeighedIsEquation(f, xs, ys, g, inputs, order);
    var acc := Accumulate(g, g.delay1, inputs, c);
    acc := acc / g.denominator[0];
    var outputs := g.delay1[c := acc];
    var next := c + 1;
    if next == order {
      next := 0;
    }
    g' := g.(delay1 := outputs, delay2 := inputs, circularIndex := next);
    y := acc;
    NextIsModular(f.circularIndex, n, order);
    ghost var ys' := ys + [y];
    forall k | 1 <= k < order
      ensures g'.delay2[Slot(next, k, order)] == PastInput(f, xs, n + 1 - k)
      ensures g'.delay1[Slot(next, k, order)] == PastOutput(f, ys', n + 1 - k)
    {
      SlotNext(c, k, order);
      if k > 1 {
        SlotNext(c, k - 1, order);
      }
    }
  }

  lemma SumOfSquaresNext(ys: seq<real>, y: real)
    ensures SumOfSquares(ys + [y]) == SumOfSquares(ys) + Square(y)
  {
    assert (ys + [y])[..|ys|] == ys;
  }

  /** Writing output i keeps the outputs before it and the untouched tail. */
  lemma WriteOutput(out: seq<real>, ys: seq<real>, samplesOut: seq<real>, i: nat, y: real)
    requires i < |out| == |samplesOut| && |ys| == i
    requires forall k :: 0 <= k < i ==> out[k] == ys[k]
    requires forall k :: i <= k < |out| ==> out[k] == samplesOut[k]
    ensures forall k :: 0 <= k < i + 1 ==> out[i := y][k] == (ys + [y])[k]
    ensures forall k :: i + 1 <= k < |out| ==> out[i := y][k] == samplesOut[k]
  {
  }

  /** `filter`: every input sample produces the output the difference equation gives, written at
      the same index of `samplesOut`. A filter of order 0, a denominator shorter than the order
      or an output array shorter than the input is an out-of-bounds access. */
  method Filter(f: DigitalFilter, samplesIn: seq<real>, samplesOut: seq<real>)
    returns (r: Result<(DigitalFilter, seq<real>)>)
    requires Valid(f) && (|f.denominator| > 0 ==> f.denominator[0] != 0.0)
    ensures r.Success? <==>
              |samplesIn| == 0 || (Order(f) > 0 && |f.denominator| >= Order(f) && |samplesOut| >= |samplesIn|)
    ensures r.Failure? ==> r.error == IndexOutOfBounds
    ensures r.Success? ==> Valid(r.value.0) && |r.value.1| == |samplesOut|
    ensures r.Success? && |samplesIn| > 0 ==>
              && r.value.0.circularIndex == (f.circularIndex + |samplesIn|) % Order(f)
              && (forall i :: 0 <= i < |samplesIn| ==> r.value.1[i] == Response(f, samplesIn, |samplesIn|)[i])
              && (forall i :: |samplesIn| <= i < |samplesOut| ==> r.value.1[i] == samplesOut[i])
  {
    if |samplesIn| == 0 {
      return Success((f, samplesOut));
    }
    if Order(f) == 0 || |f.denominator| < Order(f) || |samplesOut| < |samplesIn| {
      return Failure(IndexOutOfBounds);
    }
    TracksStart(f, samplesIn);
    var g := f;
    var out := samplesOut;
    var i := 0;
    while i < |samplesIn|
      invariant 0 <= i <= |samplesIn| && Tracks(f, samplesIn, Response(f, samplesIn, i), g) && |out| == |samplesOut|
      invariant forall k :: 0 <= k < i ==> out[k] == Response(f, samplesIn, i)[k]
      invariant forall k :: i <= k < |out| ==> out[k] == samplesOut[k]
    {
      ghost var ys := Response(f, samplesIn, i);
      ResponseNext(f, samplesIn, i);
      var y;
      g, y := FilterSample(f, samplesIn, i, ys, g);
      WriteOutput(out, ys, samplesOut, i, y);
      out := out[i := y];
      i := i + 1;
    }
    r := Success((g, out));
  }

  /** `filterLeq`: the level 10·log10(Σy² / n) of the filtered block; an empty block is the
      NaN of 0 / 0, reported as `None`. Failures as for `filter`. */
  method FilterLeq(f: DigitalFilter, samplesIn: seq<real>, m: Transcendentals)
    returns (r: Result<(DigitalFilter, Option<real>)>)
    requires Valid(f) && (|f.denominator| > 0 ==> f.denominator[0] != 0.0)
    ensures r.Success? <==> |samplesIn| == 0 || (Order(f) > 0 && |f.denominator| >= Order(f))
    ensures r.Failure? ==> r.error == IndexOutOfBounds
    ensures r.Success? ==> Valid(r.value.0) && (r.value.1.None? <==> |samplesIn| == 0)
    ensures r.Success? && |samplesIn| > 0 ==>
              && r.value.0.circularIndex == (f.circularIndex + |samplesIn|) % Order(f)
              && r.value.1.value
                 == 10.0 * m.log10(SumOfSquares(Response(f, samplesIn, |samplesIn|)) / |samplesIn| as real)
  {
    if |samplesIn| == 0 {
      return Success((f, None));
    }
    if Order(f) == 0 || |f.denominator| < Order(f) {
      return Failure(IndexOutOfBounds);
    }
    var g, squareSum := SquareSumLoop(f, samplesIn);
    r := Success((g, Some(10.0 * m.log10(squareSum / |samplesIn| as real))));
  }

  /** The loop of `filterLeq`: the filter over the whole block and the sum of its squared outputs. */
  method SquareSumLoop(f: DigitalFilter, samplesIn: seq<real>) returns (g: DigitalFilter, squareSum: real)
    requires Realisable(f)
    ensures Tracks(f, samplesIn, Response(f, samplesIn, |samplesIn|), g)
    ensures squareSum == SumOfSquares(Response(f, samplesIn, |samplesIn|))
  {
    TracksStart(f, samplesIn);
    g := f;
    squareSum := 0.0;
    ghost var ys: seq<real> := [];
    var i := 0;
    while i < |samplesIn|
      invariant 0 <= i <= |samplesIn| && ys == Response(f, samplesIn, i) && Tracks(f, samplesIn, ys, g)
      invariant squareSum == SumOfSquares(ys)
    {
      ResponseNext(f, samplesIn, i);
      var y;
      g, y := FilterSample(f, samplesIn, i, ys, g);
      SumOfSquaresNext(ys, y);
      ys := ys + [y];
      squareSum := squareSum + Square(y);
      i := i + 1;
    }
  }
}
