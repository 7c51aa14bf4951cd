/**
 * Complex numbers over exact reals, with the operations the Newton update
 * x - f(x)/df(x) uses on the complex grid points. The modulus needs a square
 * root and is not defined here; the fractal takes it as a parameter.
 */
module Complex {

  datatype Complex = Complex(re: real, im: real)

  const Zero: Complex := Complex(0.0, 0.0)

  function Sub(a: Complex, b: Complex): Complex
  {
    Complex(a.re - b.re, a.im - b.im)
  }

  function Mul(a: Complex, b: Complex): Complex
  {
    Complex(a.re * b.re - a.im * b.im, a.re * b.im + a.im * b.re)
  }

  /** The squared modulus re^2 + im^2. */
  function Norm(a: Complex): real
  {
    a.re * a.re + a.im * a.im
  }

  /**
   * Complex division. The solver never divides by a zero derivative, so the
   * result for a zero divisor is arbitrary; Zero is returned here. (Over the
   * reals a zero squared modulus means a zero divisor.)
   */
  function Div(a: Complex, b: Complex): (q: Complex)
    ensures Norm(b) != 0.0 ==> Mul(q, b) == a
  {
    var d := Norm(b);
    if d == 0.0 then Zero
    else
      var q := Complex((a.re * b.re + a.im * b.im) / d, (a.im * b.re - a.re * b.im) / d);
      DivIsInverse(a, b, d, q);
      q
  }

  /** The quotient times the divisor is the dividend. */
  lemma DivIsInverse(a: Complex, b: Complex, d: real, q: Complex)
    requires d == Norm(b) && d != 0.0
    requires q == Complex((a.re * b.re + a.im * b.im) / d, (a.im * b.re - a.re * b.im) / d)
    ensures Mul(q, b) == a
  {
    var u, v := a.re * b.re + a.im * b.im, a.im * b.re - a.re * b.im;
    assert q.re * d == u && q.im * d == v;
    calc {
      Mul(q, b).re * d;
      (q.re * b.re - q.im * b.im) * d;
      (q.re * d) * b.re - (q.im * d) * b.im;
      u * b.re - v * b.im;
      a.re * d;
    }
    calc {
      Mul(q, b).im * d;
      (q.re * b.im + q.im * b.re) * d;
      (q.re * d) * b.im + (q.im * d) * b.re;
      u * b.im + v * b.re;
      a.im * d;
    }
  }
}
