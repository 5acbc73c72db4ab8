/** The complex arithmetic of Bluestein.kt: the `Complex` data class and the operators its
    companion object defines between a `Double` and a `Complex`. */
module ComplexNumbers {
  import opened Wrappers

  datatype Complex = Complex(re: real, im: real) {

    function Plus(other: Complex): Complex {
      Complex(re + other.re, im + other.im)
    }

    function Minus(other: Complex): Complex {
      Complex(re - other.re, im - other.im)
    }

    function Times(other: Complex): Complex {
      Complex(re * other.re - im * other.im, re * other.im + im * other.re)
    }

    /** `times(d: Double)`: both parts scaled by d. */
    function Scale(d: real): Complex {
      Complex(re * d, im * d)
    }

    /** `div(c: Double)`. A zero divisor gives infinite or NaN parts in IEEE arithmetic,
        which the model reports as `None`. */
    function DivReal(d: real): (r: Option<Complex>)
      ensures r.Some? <==> d != 0.0
      ensures r.Some? ==> r.value.Scale(d) == this
    {
      if d == 0.0 then None else Some(Complex(re / d, im / d))
    }

    /** Squared modulus, the denominator of both divisions. */
    function Norm2(): real {
      re * re + im * im
    }

    /** `div(other: Complex)`; `None` when the divisor is zero. */
    function Div(other: Complex): (r: Option<Complex>)
      ensures r.Some? <==> other.Norm2() != 0.0
    {
      var d := other.Norm2();
      if d == 0.0 then None
      else Some(Complex((re * other.re + im * other.im) / d, (im * other.re - re * other.im) / d))
    }

    function Neg(): Complex {
      Complex(-re, -im)
    }
  }

  const Zero := Complex(0.0, 0.0)
  const One := Complex(1.0, 0.0)

  /** A real number seen as a complex one. */
  function OfReal(d: real): Complex {
    Complex(d, 0.0)
  }

  /** `Double.plus(Complex)`. */
  function RealPlus(d: real, c: Complex): Complex {
    Complex(d + c.re, c.im)
  }

  /** `Double.minus(Complex)`. */
  function RealMinus(d: real, c: Complex): Complex {
    Complex(d - c.re, -c.im)
  }

  /** `Double.times(Complex)` as written: (d·re − d·im, d·im + d·re). */
  function RealTimesAsWritten(d: real, c: Complex): Complex {
    Complex(d * c.re - d * c.im, d * c.im + d * c.re)
  }

  /** The scaling `Double.times(Complex)` is evidently meant to be: d·c. */
  function RealTimes(d: real, c: Complex): (r: Complex)
    ensures r == c.Scale(d)
  {
    Complex(d * c.re, d * c.im)
  }

  /** `Double.div(Complex)`: d / c, `None` when c is zero. */
  function RealDiv(d: real, c: Complex): (r: Option<Complex>)
    ensures r.Some? <==> c.Norm2() != 0.0
  {
    var n := c.Norm2();
    if n == 0.0 then None else Some(Complex((d * c.re) / n, (-d * c.im) / n))
  }

  /** The mixed operators agree with the complex ones applied to the real seen as complex. */
  lemma RealOperatorsEmbed(d: real, c: Complex)
    ensures RealPlus(d, c) == OfReal(d).Plus(c)
    ensures RealMinus(d, c) == OfReal(d).Minus(c)
    ensures RealDiv(d, c) == OfReal(d).Div(c)
    ensures RealTimes(d, c) == OfReal(d).Times(c)
  {
    RealDivEmbeds(d, c);
    assert OfReal(d).Times(c) == Complex(d * c.re - 0.0 * c.im, d * c.im + 0.0 * c.re);
  }

  lemma RealDivEmbeds(d: real, c: Complex)
    ensures RealDiv(d, c) == OfReal(d).Div(c)
  {
    var n := c.Norm2();
    if n != 0.0 {
      var z := OfReal(d);
      var dv := z.Div(c);
      assert dv.value.re == (z.re * c.re + z.im * c.im) / n;
      assert dv.value.im == (z.im * c.re - z.re * c.im) / n;
      assert z.re * c.re + z.im * c.im == d * c.re;
      assert z.im * c.re - z.re * c.im == -d * c.im;
      assert dv == Some(Complex((d * c.re) / n, (-d * c.im) / n));
    }
  }

  /** As written, `Double.times(Complex)` multiplies by d(1 + i) instead of by d. */
  lemma RealTimesAsWrittenRotates(d: real, c: Complex)
    ensures RealTimesAsWritten(d, c) == Complex(d, d).Times(c)
    ensures RealTimesAsWritten(d, c) == RealTimes(d, c) <==> d == 0.0 || c == Zero
  {
    if RealTimesAsWritten(d, c) == RealTimes(d, c) {
      assert d * c.im == 0.0 && d * c.re == 0.0;
    }
  }

  /** The smallest witness: 1.0 * (1 + 0i) comes out as 1 + i. */
  lemma RealTimesAsWrittenExample()
    ensures RealTimesAsWritten(1.0, One) == Complex(1.0, 1.0)
    ensures RealTimes(1.0, One) == One
  {
  }

  /** Division undoes multiplication: (a / b) · b == a whenever b is not zero. */
  lemma DivTimes(a: Complex, b: Complex)
    requires b.Norm2() != 0.0
    ensures a.Div(b).value.Times(b) == a
  {
    var d := b.Norm2();
    var q := a.Div(b).value;
    calc {
      q.Times(b).re;
      ((a.re * b.re + a.im * b.im) * b.re - (a.im * b.re - a.re * b.im) * b.im) / d;
      (a.re * (b.re * b.re + b.im * b.im)) / d;
      a.re;
    }
    calc {
      q.Times(b).im;
      ((a.re * b.re + a.im * b.im) * b.im + (a.im * b.re - a.re * b.im) * b.re) / d;
      (a.im * (b.re * b.re + b.im * b.im)) / d;
      a.im;
    }
  }

  /** `Double.div(Complex)` is the reciprocal scaled by d: (d / c) · c == d. */
  lemma RealDivTimes(d: real, c: Complex)
    requires c.Norm2() != 0.0
    ensures RealDiv(d, c).value.Times(c) == OfReal(d)
  {
    RealOperatorsEmbed(d, c);
    DivTimes(OfReal(d), c);
  }
}
