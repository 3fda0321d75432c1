/**
 The values of the plotting expression evaluator: 32-bit integers and complex numbers.
 Doubles are read as exact reals; machine integers wrap around.
 */
module Values {

  import opened MachineInts

  datatype Complex = Complex(re: real, im: real)

  datatype Value = Int(i: Word) | Cmplx(z: Complex)

  function Promote(v: Value): Complex {
    match v
    case Int(i) => Complex(i as real, 0.0)
    case Cmplx(z) => z
  }

  function FromBool(b: bool): Value {
    Int(if b then 1 else 0)
  }

  // ---------- complex arithmetic ----------

  const ZERO: Complex := Complex(0.0, 0.0)

  function CAdd(a: Complex, b: Complex): Complex {
    Complex(a.re + b.re, a.im + b.im)
  }

  function CNeg(a: Complex): Complex {
    Complex(-a.re, -a.im)
  }

  function CSub(a: Complex, b: Complex): Complex {
    CAdd(a, CNeg(b))
  }

  function CMul(a: Complex, b: Complex): Complex {
    Complex(a.re * b.re - a.im * b.im, a.re * b.im + a.im * b.re)
  }

  /** A complex number divided by a real one. */
  function DivideBy(z: Complex, n: real): Complex
    requires n != 0.0
  {
    Complex(z.re / n, z.im / n)
  }

  function Sq(x: real): real {
    x * x
  }

  /** The square of the absolute value. */
  function Square(b: Complex): real {
    Sq(b.re) + Sq(b.im)
  }

  lemma PositiveProduct(x: real, y: real, p: real)
    requires x > 0.0 && y > 0.0 && p == x * y
    ensures p > 0.0
  {
  }

  lemma PositiveSquare(x: real)
    requires x != 0.0
    ensures Sq(x) > 0.0
  {
    if x > 0.0 { PositiveProduct(x, x, Sq(x)); } else { PositiveProduct(-x, -x, Sq(x)); }
  }

  lemma NonzeroProduct(x: real, y: real)
    requires x != 0.0 && y != 0.0
    ensures x * y != 0.0
  {
  }

  lemma SquareZero(b: Complex)
    ensures Square(b) >= 0.0 && (Square(b) == 0.0 <==> b == ZERO)
  {
    if b.re != 0.0 { PositiveSquare(b.re); }
    if b.im != 0.0 { PositiveSquare(b.im); }
  }

  /** The quotient the evaluator computes for a nonzero divisor. */
  function CDiv(a: Complex, b: Complex): Complex
    requires Square(b) != 0.0
  {
    Complex((a.re * b.re + a.im * b.im) / Square(b), (a.im * b.re - a.re * b.im) / Square(b))
  }

  lemma CancelFactor(x: real, y: real, s: real)
    requires s != 0.0 && x * s == y * s
    ensures x == y
  {
    assert (x - y) * s == 0.0;
    if x != y { NonzeroProduct(x - y, s); }
  }

  lemma QuotientTimes(p: real, s: real)
    requires s != 0.0
    ensures p / s * s == p
  {
  }

  /** A component of a product with a quotient, from the same component before the division. */
  lemma DivideComponent(p: real, q: real, x: real, y: real, s: real, t: real)
    requires s != 0.0 && p * x + q * y == t * s
    ensures p / s * x + q / s * y == t
  {
    var u, v := p / s, q / s;
    QuotientTimes(p, s);
    QuotientTimes(q, s);
    assert (u * x + v * y) * s == (u * s) * x + (v * s) * y;
    CancelFactor(u * x + v * y, t, s);
  }

  lemma DivNumerators(a: Complex, b: Complex)
    ensures (a.re * b.re + a.im * b.im) * b.re - (a.im * b.re - a.re * b.im) * b.im == a.re * Square(b)
    ensures (a.re * b.re + a.im * b.im) * b.im + (a.im * b.re - a.re * b.im) * b.re == a.im * Square(b)
  {
    var x, y, u, v := a.re, a.im, b.re, b.im;
    assert (x * u + y * v) * u == x * (u * u) + y * u * v;
    assert (y * u - x * v) * v == y * u * v - x * (v * v);
    assert (x * u + y * v) * v == x * u * v + y * (v * v);
    assert (y * u - x * v) * u == y * (u * u) - x * u * v;
    assert x * (u * u) + x * (v * v) == x * (u * u + v * v);
    assert y * (u * u) + y * (v * v) == y * (u * u + v * v);
  }

  lemma ComponentTimes(p: real, q: real, x: real, y: real, s: real, u: real, v: real)
    requires s != 0.0 && p * x - q * y == u * s && p * y + q * x == v * s
    ensures p / s * x - q / s * y == u && p / s * y + q / s * x == v
  {
    assert q * -y == -(q * y) && q / s * -y == -(q / s * y);
    DivideComponent(p, q, x, -y, s, u);
    DivideComponent(p, q, y, x, s, v);
  }

  /** Multiplying the quotient by the divisor gives the dividend back. */
  lemma DivInvertsMul(a: Complex, b: Complex)
    requires Square(b) != 0.0
    ensures CMul(CDiv(a, b), b) == a
  {
    DivNumerators(a, b);
    ComponentTimes(a.re * b.re + a.im * b.im, a.im * b.re - a.re * b.im, b.re, b.im, Square(b), a.re, a.im);
  }

  lemma MulAssociates(a: Complex, b: Complex, c: Complex)
    ensures CMul(CMul(a, b), c) == CMul(a, CMul(b, c))
  {
    assert (a.re * b.re - a.im * b.im) * c.re - (a.re * b.im + a.im * b.re) * c.im
        == a.re * (b.re * c.re - b.im * c.im) - a.im * (b.re * c.im + b.im * c.re);
    assert (a.re * b.re - a.im * b.im) * c.im + (a.re * b.im + a.im * b.re) * c.re
        == a.re * (b.re * c.im + b.im * c.re) + a.im * (b.re * c.re - b.im * c.im);
  }

  lemma Distribute(x: real, y: real, f: real)
    ensures (x + y) * f == x * f + y * f
    ensures (-x) * f == -(x * f)
  {
  }

  lemma MulDistributes(a: Complex, b: Complex, c: Complex)
    ensures CMul(CAdd(a, b), c) == CAdd(CMul(a, c), CMul(b, c))
    ensures CMul(CNeg(a), c) == CNeg(CMul(a, c))
    ensures CMul(CSub(a, b), c) == CSub(CMul(a, c), CMul(b, c))
  {
    SumTimes(a, b, c);
    NegTimes(a, c);
    NegTimes(b, c);
    SumTimes(a, CNeg(b), c);
    hide CMul, CAdd, CNeg;
  }

  lemma SumTimes(a: Complex, b: Complex, c: Complex)
    ensures CMul(CAdd(a, b), c) == CAdd(CMul(a, c), CMul(b, c))
  {
    Distribute(a.re, b.re, c.re);
    Distribute(a.im, b.im, c.im);
    Distribute(a.re, b.re, c.im);
    Distribute(a.im, b.im, c.re);
  }

  lemma NegTimes(a: Complex, c: Complex)
    ensures CMul(CNeg(a), c) == CNeg(CMul(a, c))
  {
    Distribute(a.re, 0.0, c.re);
    Distribute(a.im, 0.0, c.im);
    Distribute(a.re, 0.0, c.im);
    Distribute(a.im, 0.0, c.re);
  }

  /** A square is nonzero when its root is. */
  lemma SquareOfSquare(b: Complex)
    ensures Square(CMul(b, b)) == Sq(Square(b))
    ensures Square(b) != 0.0 ==> Square(CMul(b, b)) != 0.0
  {
    var u, v, w, s := b.re * b.re, b.im * b.im, b.re * b.im, Square(b);
    assert w * w == u * v;
    assert CMul(b, b) == Complex(u - v, 2.0 * w);
    SumOfSquares(u, v, w, s);
    var t := Square(CMul(b, b));
    assert t == s * s;
    if s != 0.0 { PositiveSquare(s); }
  }

  lemma SumOfSquares(u: real, v: real, w: real, s: real)
    requires w * w == u * v && s == u + v
    ensures (u - v) * (u - v) + (2.0 * w) * (2.0 * w) == s * s
  {
  }
}
