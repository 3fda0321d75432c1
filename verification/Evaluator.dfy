/**
 The evaluator's stack in memory and the operations that work on it in place.

 Every operation is held against the operation on values it stands for; the stack below its operands
 stays as it was.
 */
module Evaluator {
  import opened Wrappers
  import opened MachineInts
  import opened Values
  import opened Expressions

  /** The C library functions the evaluator calls, and the double 1.0/0, left uninterpreted. */
  datatype Libm = Libm(sin: real -> real, cos: real -> real, sinh: real -> real, cosh: real -> real, overZero: real)

  function CSin(m: Libm, z: Complex): Complex {
    Complex(m.sin(z.re) * m.cosh(z.im), m.cos(z.re) * m.sinh(z.im))
  }

  function CCos(m: Libm, z: Complex): Complex {
    Complex(m.cos(z.re) * m.cosh(z.im), -m.sin(z.re) * m.sinh(z.im))
  }

  function Pow(a: int, n: nat): int {
    if n == 0 then 1 else Pow(a, n - 1) * a
  }

  /** The power of two words: the exact power, wrapped, or one over it; the least word has no absolute value and gives 1. */
  function IntPower(m: Libm, a: Word, b: Word): Value {
    if b >= 0 then Int(Wrap(Pow(a, b)))
    else
      var t := if b == -0x8000_0000 then 1 else Wrap(Pow(a, -b));
      Cmplx(Complex(if t != 0 then 1.0 / t as real else m.overZero, 0.0))
  }

  function Factorial(n: int): int {
    if n > 1 then Factorial(n - 1) * n else 1
  }

  /** The library functions satisfy their two identities on the reals. */
  ghost predicate Trigonometric(m: Libm) {
    forall x: real :: Sq(m.sin(x)) + Sq(m.cos(x)) == 1.0 && Sq(m.cosh(x)) - Sq(m.sinh(x)) == 1.0
  }

  /** Then the complex sine and cosine satisfy sin^2 + cos^2 = 1. */
  lemma ComplexPythagoras(m: Libm, z: Complex)
    requires Trigonometric(m)
    ensures CAdd(CMul(CSin(m, z), CSin(m, z)), CMul(CCos(m, z), CCos(m, z))) == Complex(1.0, 0.0)
  {
    assert Sq(m.sin(z.re)) + Sq(m.cos(z.re)) == 1.0;
    assert Sq(m.cosh(z.im)) - Sq(m.sinh(z.im)) == 1.0;
    SquaresOfProducts(m.sin(z.re), m.cos(z.re), m.sinh(z.im), m.cosh(z.im));
  }

  lemma SquareOfProduct(x: real, y: real)
    ensures x * y * (x * y) == Sq(x) * Sq(y)
  {
    assert x * y * (x * y) == x * x * (y * y);
  }

  lemma CrossTerms(s: real, c: real, sh: real, ch: real)
    ensures s * ch * (c * sh) == -(c * ch * (-s * sh))
  {
  }

  lemma SumOverFactor(x: real, y: real, f: real)
    requires x + y == 1.0
    ensures x * f + y * f == f
  {
    assert x * f + y * f == (x + y) * f;
  }

  lemma SquaresOfProducts(s: real, c: real, sh: real, ch: real)
    requires Sq(s) + Sq(c) == 1.0 && Sq(ch) - Sq(sh) == 1.0
    ensures var p, q := Complex(s * ch, c * sh), Complex(c * ch, -s * sh);
      CAdd(CMul(p, p), CMul(q, q)) == Complex(1.0, 0.0)
  {
    SquareOfProduct(s, ch);
    SquareOfProduct(c, ch);
    SquareOfProduct(c, sh);
    SquareOfProduct(-s, sh);
    assert Sq(-s) == Sq(s);
    hide Sq;
    CrossTerms(s, c, sh, ch);
    SumOverFactor(Sq(s), Sq(c), Sq(ch));
    SumOverFactor(Sq(s), Sq(c), Sq(sh));
    SquaresAdded(s * ch, c * sh, c * ch, -s * sh);
  }

  lemma SquaresAdded(a: real, b: real, c: real, d: real)
    requires a * a - b * b + (c * c - d * d) == 1.0 && a * b == -(c * d)
    ensures CAdd(CMul(Complex(a, b), Complex(a, b)), CMul(Complex(c, d), Complex(c, d))) == Complex(1.0, 0.0)
  {
  }

  /**
   Euler's identities for a complex argument: cos z + i sin z = e^-y (cos x + i sin x), and with the other sign,
   where e^-y and e^y are the difference and the sum of cosh y and sinh y. They determine both functions.
   */
  lemma Euler(m: Libm, z: Complex)
    ensures var i, down, up := Complex(0.0, 1.0), m.cosh(z.im) - m.sinh(z.im), m.cosh(z.im) + m.sinh(z.im);
      && CAdd(CCos(m, z), CMul(i, CSin(m, z))) == Complex(down * m.cos(z.re), down * m.sin(z.re))
      && CSub(CCos(m, z), CMul(i, CSin(m, z))) == Complex(up * m.cos(z.re), -(up * m.sin(z.re)))
  {
    var s, c, sh, ch := m.sin(z.re), m.cos(z.re), m.sinh(z.im), m.cosh(z.im);
    TimesI(CSin(m, z));
    Distribute(ch, sh, c);
    Distribute(ch, -sh, c);
    Distribute(ch, sh, s);
    Distribute(ch, -sh, s);
    Distribute(sh, 0.0, c);
    Distribute(sh, 0.0, s);
    assert -s * sh == -(s * sh);
  }

  lemma TimesI(z: Complex)
    ensures CMul(Complex(0.0, 1.0), z) == Complex(-z.im, z.re)
  {
  }

  // ---------- powers and factorials ----------

  lemma {:induction false} PowSum(a: int, j: nat, k: nat)
    ensures Pow(a, j + k) == Pow(a, j) * Pow(a, k)
    decreases k
  {
    if k > 0 {
      PowSum(a, j, k - 1);
      assert Pow(a, j) * Pow(a, k - 1) * a == Pow(a, j) * (Pow(a, k - 1) * a);
    }
  }

  lemma PowEnds(a: int)
    ensures Pow(a, 0) == 1 && Pow(a, 1) == a
  {
    assert Pow(a, 1) == Pow(a, 0) * a;
  }

  /** Powers of words multiply as f_mult multiplies, from 1 and the base on. */
  lemma IntPowerSum(m: Libm, a: Word, j: Word, k: Word)
    requires j >= 0 && k >= 0 && InWord(j + k)
    ensures IntPower(m, a, 0) == Int(1) && IntPower(m, a, 1) == Int(a)
    ensures IntPower(m, a, j + k) == Arithmetic(Mult, IntPower(m, a, j), IntPower(m, a, k))
  {
    hide Pow, Wrap;
    PowEnds(a);
    PowSum(a, j, k);
    var p, q := Pow(a, j), Pow(a, k);
    WrapTimes(p, q);
    WrapTimes(q, Wrap(p));
    assert Wrap(p) * q == q * Wrap(p) && Wrap(q) * Wrap(p) == Wrap(p) * Wrap(q);
  }

  /** A negative power times the positive one is 1, unless that is 0 as a word; the least exponent gives 1. */
  lemma IntPowerInverse(m: Libm, a: Word, b: Word)
    requires b < 0
    ensures IntPower(m, a, b).Cmplx? && IntPower(m, a, b).z.im == 0.0
    ensures b == -0x8000_0000 ==> IntPower(m, a, b).z.re == 1.0
    ensures b > -0x8000_0000 ==>
              && IntPower(m, a, -b).Int?
              && var t := IntPower(m, a, -b).i;
                if t != 0 then IntPower(m, a, b).z.re * t as real == 1.0 else IntPower(m, a, b).z.re == m.overZero
  {
    hide Pow, Wrap;
    if b > -0x8000_0000 {
      var t := Wrap(Pow(a, -b));
      if t != 0 { QuotientTimes(1.0, t as real); }
    }
  }

  /** The numbers from k to n multiplied. */
  function ProductOf(k: int, n: int): int
    decreases n - k
  {
    if k > n then 1 else k * ProductOf(k + 1, n)
  }

  lemma {:induction false} ProductUpTo(k: int, n: int)
    requires k <= n + 1
    ensures ProductOf(k, n + 1) == ProductOf(k, n) * (n + 1)
    decreases n - k
  {
    if k <= n {
      ProductUpTo(k + 1, n);
      assert k * (ProductOf(k + 1, n) * (n + 1)) == k * ProductOf(k + 1, n) * (n + 1);
    } else {
      assert ProductOf(k + 1, n + 1) == 1;
    }
  }

  /** The factorial is the product of the numbers from 1 on, and 1 below that. */
  lemma {:induction false} FactorialIsProduct(n: int)
    ensures Factorial(n) == ProductOf(1, n)
    ensures n <= 1 ==> Factorial(n) == 1
  {
    if n > 1 {
      FactorialIsProduct(n - 1);
      ProductUpTo(1, n - 1);
    } else {
      assert n == 1 ==> ProductOf(2, 1) == 1;
    }
  }

  // ---------- the spherical Bessel functions as compositions ----------

  function BesJ0(m: Libm, a: Value): Outcome {
    Divide(Cmplx(CSin(m, Promote(a))), a)
  }

  function BesJ1(m: Libm, a: Value): Outcome {
    var p := Divide(Cmplx(CSin(m, Promote(a))), Arithmetic(Mult, a, a));
    var q := Divide(Cmplx(CCos(m, Promote(a))), a);
    Val(Arithmetic(Minus, p.v, q.v), p.undef || q.undef)
  }

  function BesY0(m: Libm, a: Value): Outcome {
    var p := Divide(Cmplx(CCos(m, Promote(a))), a);
    Raise(Apply1(Uminus, p.v), p.undef)
  }

  function BesY1(m: Libm, a: Value): Outcome {
    var p := Divide(Cmplx(CCos(m, Promote(a))), Arithmetic(Mult, a, a));
    var q := Divide(Cmplx(CSin(m, Promote(a))), a);
    Raise(Apply1(Uminus, Arithmetic(Plus, p.v, q.v)), p.undef || q.undef)
  }

  /** For every complex a other than 0 the flag stays down and the results satisfy their formulas, cleared of fractions. */
  lemma BesselFormulas(m: Libm, a: Complex)
    requires a != ZERO
    ensures BesJ0(m, Cmplx(a)).v.Cmplx? && !BesJ0(m, Cmplx(a)).undef
    ensures CMul(BesJ0(m, Cmplx(a)).v.z, a) == CSin(m, a)
    ensures BesY0(m, Cmplx(a)).v.Cmplx? && !BesY0(m, Cmplx(a)).undef
    ensures CMul(BesY0(m, Cmplx(a)).v.z, a) == CNeg(CCos(m, a))
    ensures BesJ1(m, Cmplx(a)).v.Cmplx? && !BesJ1(m, Cmplx(a)).undef
    ensures CMul(BesJ1(m, Cmplx(a)).v.z, CMul(a, a)) == CSub(CSin(m, a), CMul(CCos(m, a), a))
    ensures BesY1(m, Cmplx(a)).v.Cmplx? && !BesY1(m, Cmplx(a)).undef
    ensures CMul(BesY1(m, Cmplx(a)).v.z, CMul(a, a)) == CNeg(CAdd(CCos(m, a), CMul(CSin(m, a), a)))
  {
    hide CMul, CDiv, CAdd, CNeg, Square, CSin, CCos;
    var s, c := CSin(m, a), CCos(m, a);
    SquareZero(a);
    SquareOfSquare(a);
    DivInvertsMul(s, a);
    DivInvertsMul(c, a);
    MulDistributes(CDiv(c, a), c, a);
    OverSquare(s, c, a);
    OverSquare(c, s, a);
    MulDistributes(CAdd(CDiv(c, CMul(a, a)), CDiv(s, a)), c, CMul(a, a));
  }

  /** Clearing the fractions of p/a^2 +- q/a. */
  lemma OverSquare(p: Complex, q: Complex, a: Complex)
    requires Square(a) != 0.0 && Square(CMul(a, a)) != 0.0
    ensures CMul(CSub(CDiv(p, CMul(a, a)), CDiv(q, a)), CMul(a, a)) == CSub(p, CMul(q, a))
    ensures CMul(CAdd(CDiv(p, CMul(a, a)), CDiv(q, a)), CMul(a, a)) == CAdd(p, CMul(q, a))
  {
    hide CMul, CDiv, CAdd, CNeg, CSub, Square;
    MulDistributes(CDiv(p, CMul(a, a)), CDiv(q, a), CMul(a, a));
    DivInvertsMul(p, CMul(a, a));
    DivInvertsMul(q, a);
    MulAssociates(CDiv(q, a), a, a);
  }

  // ---------- integer arguments of the Bessel functions ----------

  /** The square of a machine word is exact up to 46340 and never after. */
  lemma SquareFits(n: Word)
    ensures WordProduct(n, n) == n * n <==> -46340 <= n <= 46340
  {
    if -46340 <= n <= 46340 {
      ProductBound(n, n, 46340);
    } else {
      var a := if n > 0 then n as int else 0 - n;
      NonNegativeProduct(a - 46341, a + 46341);
      assert (a - 46341) * (a + 46341) == a * a - 46341 * 46341;
      assert a * a == n * n;
    }
  }

  lemma RealSquares(n: int)
    ensures CMul(Complex(n as real, 0.0), Complex(n as real, 0.0)) == Complex((n * n) as real, 0.0)
  {
    assert n as real * n as real == (n * n) as real;
  }

  /** Quotients by different divisors are equal only for 0. */
  lemma QuotientsDiffer(x: real, a: real, b: real)
    requires a != 0.0 && b != 0.0 && a != b
    ensures x / a == x / b <==> x == 0.0
  {
    if x / a == x / b {
      var q := x / a;
      QuotientTimes(x, a);
      QuotientTimes(x, b);
      assert q * (a - b) == 0.0;
      if q != 0.0 { NonzeroProduct(q, a - b); }
    }
  }

  lemma ComplexQuotientsDiffer(z: Complex, a: real, b: real)
    requires a != 0.0 && b != 0.0 && a != b
    ensures DivideBy(z, a) == DivideBy(z, b) <==> z == ZERO
  {
    QuotientsDiffer(z.re, a, b);
    QuotientsDiffer(z.im, a, b);
  }

  /** A quotient by a real number, and by the same number as a complex one. */
  function Over(s: Complex, r: real): Outcome {
    if r != 0.0 then Val(Cmplx(DivideBy(s, r)), false) else Val(Cmplx(ZERO), true)
  }

  lemma OverWord(s: Complex, w: Word)
    ensures Divide(Cmplx(s), Int(w)) == Over(s, w as real)
  {
    hide Divide, DivideBy;
    DivCases(Cmplx(s), Int(w));
  }

  lemma OverReal(s: Complex, r: real)
    ensures Divide(Cmplx(s), Cmplx(Complex(r, 0.0))) == Over(s, r)
  {
    hide Divide, DivideBy, CDiv, Square;
    var y := Complex(r, 0.0);
    DivCases(Cmplx(s), Cmplx(y));
    SquareZero(y);
    if r != 0.0 { RealDivisor(s, r); }
  }

  /** Dividing by the square in either way is the same exactly when the square fits a word, or there is nothing to divide. */
  lemma OverSquareExactly(s: Complex, n: Word)
    ensures Over(s, WordProduct(n, n) as real) == Over(s, (n * n) as real) <==>
            -46340 <= n <= 46340 || (WordProduct(n, n) != 0 && s == ZERO)
  {
    hide WordProduct, DivideBy;
    SquareFits(n);
    var w := WordProduct(n, n);
    if !(-46340 <= n <= 46340) && w != 0 {
      assert n * n != 0;
      ComplexQuotientsDiffer(s, w as real, (n * n) as real);
    }
  }

  lemma CancelTerm(p: Complex, q: Complex, r: Complex)
    ensures CSub(p, r) == CSub(q, r) <==> p == q
    ensures CNeg(CAdd(p, r)) == CNeg(CAdd(q, r)) <==> p == q
  {
    assert CSub(p, r) == CSub(q, r) ==> p.re - r.re == q.re - r.re && p.im - r.im == q.im - r.im;
    assert CNeg(CAdd(p, r)) == CNeg(CAdd(q, r)) ==> p.re + r.re == q.re + r.re && p.im + r.im == q.im + r.im;
  }

  /** j1 and -y1 from their two quotients. */
  function Minuend(p: Outcome, q: Outcome): Outcome
    requires p.Val? && p.v.Cmplx? && q.Val? && q.v.Cmplx?
  {
    Val(Cmplx(CSub(p.v.z, q.v.z)), p.undef || q.undef)
  }

  function NegatedSum(p: Outcome, q: Outcome): Outcome
    requires p.Val? && p.v.Cmplx? && q.Val? && q.v.Cmplx?
  {
    Val(Cmplx(CNeg(CAdd(p.v.z, q.v.z))), p.undef || q.undef)
  }

  lemma BesselOfQuotients(m: Libm, n: Word)
    ensures var z, w := Complex(n as real, 0.0), WordProduct(n, n);
      && BesJ1(m, Int(n)) == Minuend(Over(CSin(m, z), w as real), Over(CCos(m, z), n as real))
      && BesY1(m, Int(n)) == NegatedSum(Over(CCos(m, z), w as real), Over(CSin(m, z), n as real))
  {
    hide Divide, CSin, CCos, WordProduct, CSub, CAdd, CNeg, DivideBy;
    var z := Complex(n as real, 0.0);
    OverWord(CSin(m, z), n);
    OverWord(CCos(m, z), n);
    OverWord(CSin(m, z), WordProduct(n, n));
    OverWord(CCos(m, z), WordProduct(n, n));
  }

  lemma BesselOfReal(m: Libm, n: int)
    ensures var z := Complex(n as real, 0.0);
      && BesJ1(m, Cmplx(z)) == Minuend(Over(CSin(m, z), (n * n) as real), Over(CCos(m, z), n as real))
      && BesY1(m, Cmplx(z)) == NegatedSum(Over(CCos(m, z), (n * n) as real), Over(CSin(m, z), n as real))
  {
    hide Divide, CSin, CCos, CSub, CAdd, CNeg, CMul, DivideBy;
    var z := Complex(n as real, 0.0);
    RealSquares(n);
    OverReal(CSin(m, z), n as real);
    OverReal(CCos(m, z), n as real);
    OverReal(CSin(m, z), (n * n) as real);
    OverReal(CCos(m, z), (n * n) as real);
  }

  /** Only the quotients by the square can differ. */
  lemma FirstQuotientDecides(p: Outcome, p': Outcome, q: Outcome)
    requires p.Val? && p.v.Cmplx? && p'.Val? && p'.v.Cmplx? && q.Val? && q.v.Cmplx?
    requires q.undef ==> p.undef && p'.undef
    ensures Minuend(p, q) == Minuend(p', q) <==> p == p'
    ensures NegatedSum(p, q) == NegatedSum(p', q) <==> p == p'
  {
    hide CSub, CAdd, CNeg;
    CancelTerm(p.v.z, p'.v.z, q.v.z);
  }

  lemma SimpleBesselOfInteger(m: Libm, n: Word)
    ensures var z := Complex(n as real, 0.0);
      BesJ0(m, Int(n)) == BesJ0(m, Cmplx(z)) && BesY0(m, Int(n)) == BesY0(m, Cmplx(z))
  {
    hide Divide, CSin, CCos, DivideBy;
    var z := Complex(n as real, 0.0);
    OverWord(CSin(m, z), n);
    OverWord(CCos(m, z), n);
    OverReal(CSin(m, z), n as real);
    OverReal(CCos(m, z), n as real);
  }

  /**
   f_besj0 and f_besy0 give for an integer what they give for the complex value.
   f_besj1 and f_besy1 square their argument where it is an integer in machine words. They give what they give
   for the complex value exactly when the square fits a word, or does not become 0 and is divided into 0.
   */
  lemma BesselOfInteger(m: Libm, n: Word)
    ensures var z := Complex(n as real, 0.0);
      BesJ1(m, Int(n)) == BesJ1(m, Cmplx(z)) <==>
      -46340 <= n <= 46340 || (WordProduct(n, n) != 0 && CSin(m, z) == ZERO)
    ensures var z := Complex(n as real, 0.0);
      BesY1(m, Int(n)) == BesY1(m, Cmplx(z)) <==>
      -46340 <= n <= 46340 || (WordProduct(n, n) != 0 && CCos(m, z) == ZERO)
    ensures var z := Complex(n as real, 0.0);
      BesJ0(m, Int(n)) == BesJ0(m, Cmplx(z)) && BesY0(m, Int(n)) == BesY0(m, Cmplx(z))
  {
    SimpleBesselOfInteger(m, n);
    hide BesJ0, BesY0, BesJ1, BesY1, CSin, CCos, WordProduct, Minuend, NegatedSum, DivideBy;
    var z, w := Complex(n as real, 0.0), WordProduct(n, n);
    var s, c := CSin(m, z), CCos(m, z);
    BesselOfQuotients(m, n);
    BesselOfReal(m, n);
    OverSquareExactly(s, n);
    OverSquareExactly(c, n);
    if n == 0 { SquareFits(n); }
    FirstQuotientDecides(Over(s, w as real), Over(s, (n * n) as real), Over(c, n as real));
    FirstQuotientDecides(Over(c, w as real), Over(c, (n * n) as real), Over(s, n as real));
  }

  /** An integer argument counts as undefined exactly when it is a multiple of 65536, as its square in machine words is 0. */
  lemma BesselUndefined(m: Libm, n: Word)
    ensures BesJ1(m, Int(n)).undef <==> n % 0x1_0000 == 0
    ensures BesY1(m, Int(n)).undef <==> n % 0x1_0000 == 0
  {
    hide BesJ1, BesY1, CSin, CCos, WordProduct, DivideBy, CSub, CAdd, CNeg;
    BesselOfQuotients(m, n);
    ZeroSquare(n);
  }

  lemma MultipleSquared(n: int, k: int)
    requires n == k * 0x1_0000
    ensures Wrap(n * n) == 0
  {
    SquareOfMultiple(n, k, 0x1_0000);
    WrapShift(0, k * k);
  }

  lemma SquareOfMultiple(n: int, k: int, b: int)
    requires n == k * b
    ensures n * n == k * k * (b * b)
  {
  }

  lemma WrapsToZero(m: int) returns (c: int)
    requires Wrap(m) == 0
    ensures m == WORDS * c
  {
    c := m / WORDS;
  }

  lemma RootOfWrapped(n: int) returns (d: int)
    requires Wrap(n * n) == 0
    ensures n == 0x1_0000 * d
  {
    hide Wrap, Pow;
    PowersOf16();
    var c := WrapsToZero(n * n);
    d := RootOfPower(n, 16, c);
  }

  lemma ZeroSquare(n: Word)
    ensures WordProduct(n, n) == 0 <==> n % 0x1_0000 == 0
  {
    hide Wrap;
    if n % 0x1_0000 == 0 {
      MultipleSquared(n, n / 0x1_0000);
    } else if WordProduct(n, n) == 0 {
      var d := RootOfWrapped(n);
    }
  }

  lemma PowersOf16()
    ensures Pow(2, 16) == 0x1_0000 && Pow(4, 16) == WORDS
  {
    assert Pow(2, 8) == 256 && Pow(4, 8) == 0x1_0000;
  }

  /** A number is a multiple of 2^j if its square is one of 4^j. */
  lemma {:induction false} RootOfPower(n: int, j: nat, c: int) returns (d: int)
    requires n * n == Pow(4, j) * c
    ensures n == Pow(2, j) * d
    decreases j
  {
    if j == 0 {
      d := n;
    } else {
      var p, k := Pow(4, j - 1), n / 2;
      assert n * n == 4 * (p * c) by { assert p * 4 * c == 4 * (p * c); }
      EvenRoot(n, p * c);
      assert k * k == p * c;
      d := RootOfPower(k, j - 1, c);
      assert Pow(2, j - 1) * 2 * d == 2 * (Pow(2, j - 1) * d);
    }
  }

  lemma EvenRoot(n: int, q: int)
    requires n * n == 4 * q
    ensures n == 2 * (n / 2) && (n / 2) * (n / 2) == q
  {
    var k := n / 2;
    assert (2 * k) * (2 * k) == 4 * (k * k);
    assert (2 * k + 1) * (2 * k + 1) == 4 * (k * k + k) + 1;
  }

  // ---------- the switches over the types of both operands ----------

  lemma PlusCases(a: Value, b: Value)
    ensures Arithmetic(Plus, a, b) ==
            match (a, b)
            case (Int(i), Int(j)) => Int(Wrap(i + j))
            case (Int(i), Cmplx(w)) => Cmplx(Complex(i as real + w.re, w.im))
            case (Cmplx(z), Int(j)) => Cmplx(Complex(j as real + z.re, z.im))
            case (Cmplx(z), Cmplx(w)) => Cmplx(Complex(z.re + w.re, z.im + w.im))
  {
  }

  lemma MinusCases(a: Value, b: Value)
    ensures Arithmetic(Minus, a, b) ==
            match (a, b)
            case (Int(i), Int(j)) => Int(Wrap(i - j))
            case (Int(i), Cmplx(w)) => Cmplx(Complex(i as real - w.re, -w.im))
            case (Cmplx(z), Int(j)) => Cmplx(Complex(z.re - j as real, z.im))
            case (Cmplx(z), Cmplx(w)) => Cmplx(Complex(z.re - w.re, z.im - w.im))
  {
  }

  lemma MultCases(a: Value, b: Value)
    ensures Arithmetic(Mult, a, b) ==
            match (a, b)
            case (Int(i), Int(j)) => Int(Wrap(i * j))
            case (Int(i), Cmplx(w)) => Cmplx(Complex(i as real * w.re, i as real * w.im))
            case (Cmplx(z), Int(j)) => Cmplx(Complex(j as real * z.re, j as real * z.im))
            case (Cmplx(z), Cmplx(w)) => Cmplx(Complex(z.re * w.re - z.im * w.im, z.re * w.im + z.im * w.re))
  {
    hide Wrap, CMul, Arithmetic;
    ProductOfValues(a, b);
    if a.Cmplx? && b.Int? {
      TimesReal(a.z, b.i as real);
    } else if a.Int? && b.Cmplx? {
      RealTimes(a.i as real, b.z);
    } else if a.Cmplx? && b.Cmplx? {
      TimesComplex(a.z, b.z);
    }
  }

  lemma ProductOfValues(a: Value, b: Value)
    ensures Arithmetic(Mult, a, b) ==
            if a.Int? && b.Int? then Int(Wrap(a.i * b.i)) else Cmplx(CMul(Promote(a), Promote(b)))
  {
    hide Wrap, CMul;
  }

  lemma TimesComplex(z: Complex, w: Complex)
    ensures CMul(z, w) == Complex(z.re * w.re - z.im * w.im, z.re * w.im + z.im * w.re)
  {
  }

  lemma TimesReal(z: Complex, n: real)
    ensures CMul(z, Complex(n, 0.0)) == Complex(n * z.re, n * z.im)
  {
  }

  lemma RealTimes(n: real, z: Complex)
    ensures CMul(Complex(n, 0.0), z) == Complex(n * z.re, n * z.im)
  {
  }

  lemma DivCases(a: Value, b: Value)
    ensures Divide(a, b) ==
            match (a, b)
            case (Int(i), Int(j)) => if j != 0 then Val(Int(Wrap(Quotient(i, j))), false) else Val(Int(0), true)
            case (Int(i), Cmplx(w)) =>
              if Square(w) != 0.0 then
                Val(Cmplx(WordOver(i, w)), false)
              else Val(Cmplx(ZERO), true)
            case (Cmplx(z), Int(j)) =>
              if j != 0 then Val(Cmplx(DivideBy(z, j as real)), false) else Val(Cmplx(ZERO), true)
            case (Cmplx(z), Cmplx(w)) =>
              if Square(w) != 0.0 then Val(Cmplx(CDiv(z, w)), false) else Val(Cmplx(ZERO), true)
  {
    hide Wrap, Quotient, Square, CDiv, DivideBy, WordOver;
    if a.Cmplx? && b.Int? {
      IntegerSquare(b.i);
      if b.i != 0 { RealDivisor(a.z, b.i as real); }
    }
  }

  lemma IntegerSquare(j: Word)
    ensures Square(Complex(j as real, 0.0)) == 0.0 <==> j == 0
  {
    hide Square;
    SquareZero(Complex(j as real, 0.0));
  }

  /** The steps of the arithmetic instructions, in terms of their values. */
  lemma ArithEffect(op: ArithOp, st: State, depth: nat)
    requires |st.stack| >= 2
    ensures var n := |st.stack|;
      Step(Op2(Arith(op)), st, depth) ==
      Next(State(st.stack[..n - 2] + [Arithmetic(op, st.stack[n - 2], st.stack[n - 1])], st.undef), 1)
  {
    hide Arithmetic;
  }

  lemma DivEffect(st: State, depth: nat)
    requires |st.stack| >= 2
    ensures var n := |st.stack|;
      Step(Op2(Binary.Div), st, depth) == Pushed(st, n - 2, Divide(st.stack[n - 2], st.stack[n - 1]))
  {
    hide Divide;
  }

  lemma UminusEffect(st: State, depth: nat)
    requires |st.stack| >= 1
    ensures var n := |st.stack|;
      Step(Op1(Uminus), st, depth) ==
      Next(State(st.stack[..n - 1] + [match st.stack[n - 1]
                                      case Int(i) => Int(Wrap(0 - i))
                                      case Cmplx(z) => Cmplx(Complex(-z.re, -z.im))], st.undef), 1)
  {
    hide Wrap;
  }

  // ---------- the stack in memory ----------

  /** How an operation ends: with the distance to the next instruction, or in int_error. */
  datatype Ending = Ran(off: int) | Raised(error: Error)

  class Machine {
    const libm: Libm
    const stack: array<Value>
    var sp: int
    var undefined: bool

    ghost predicate Valid()
      reads this
    {
      -1 <= sp < stack.Length
    }

    /** The live part of the stack, bottom first. */
    ghost function Contents(): (s: seq<Value>)
      requires Valid()
      reads this, stack
      ensures |s| == sp + 1
    {
      stack[..sp + 1]
    }

    /** The machine in memory holds state st. */
    ghost predicate Holds(st: State)
      reads this, stack
    {
      Valid() && Contents() == st.stack && undefined == st.undef
    }

    constructor (depth: nat, m: Libm)
      ensures Holds(State([], false)) && stack.Length == depth && libm == m && fresh(stack)
    {
      libm := m;
      stack := new Value[depth](_ => Int(0));
      sp := -1;
      undefined := false;
    }

    method Pop() returns (x: Value)
      requires Valid() && sp >= 0
      modifies this`sp
      ensures Valid() && old(Contents()) == Contents() + [x]
    {
      x := stack[sp];
      sp := sp - 1;
    }

    method Push(x: Value)
      requires Valid() && sp + 1 < stack.Length
      modifies this`sp, stack
      ensures Valid() && Contents() == old(Contents()) + [x]
    {
      sp := sp + 1;
      stack[sp] := x;
      assert Contents()[..sp] == old(Contents());
    }

    /** The operation ended, and left the stack, as one step of the machine on values does. */
    ghost predicate Did(effect: Effect, ending: Ending)
      reads this, stack
    {
      match effect
      case Next(st, off) => ending == Ran(off) && Holds(st)
      case Stop(x) => ending == Raised(x)
    }

    /** Pops the two operands and says what the stack holds below them. */
    method Pop2(ghost st: State) returns (a: Value, b: Value)
      requires Holds(st) && |st.stack| >= 2
      modifies this`sp
      ensures Holds(State(st.stack[..|st.stack| - 2], st.undef))
      ensures a == st.stack[|st.stack| - 2] && b == st.stack[|st.stack| - 1]
    {
      b := Pop();
      a := Pop();
      assert Contents() == st.stack[..|st.stack| - 2];
    }

    /** f_plus. */
    method FPlus(ghost st: State) returns (e: Ending)
      requires Holds(st) && |st.stack| >= 2
      modifies this`sp, stack
      ensures Did(Step(Op2(Arith(Plus)), st, stack.Length), e)
    {
      hide Arithmetic, Step, Apply2, Wrap, WordProduct, CMul;
      var a, b := Pop2(st);
      var r: Value;
      match a {
        case Int(i) =>
          match b {
            case Int(j) => r := Int(Wrap(i + j));
            case Cmplx(w) => r := Cmplx(Complex(i as real + w.re, w.im));
          }
        case Cmplx(z) =>
          match b {
            case Int(j) => r := Cmplx(Complex(j as real + z.re, z.im));
            case Cmplx(w) => r := Cmplx(Complex(z.re + w.re, z.im + w.im));
          }
      }
      PlusCases(a, b);
      ArithEffect(Plus, st, stack.Length);
      Push(r);
      e := Ran(1);
    }

    /** f_minus. */
    method FMinus(ghost st: State) returns (e: Ending)
      requires Holds(st) && |st.stack| >= 2
      modifies this`sp, stack
      ensures Did(Step(Op2(Arith(Minus)), st, stack.Length), e)
    {
      hide Arithmetic, Step, Apply2, Wrap, WordProduct, CMul;
      var a, b := Pop2(st);
      var r: Value;
      match a {
        case Int(i) =>
          match b {
            case Int(j) => r := Int(Wrap(i - j));
            case Cmplx(w) => r := Cmplx(Complex(i as real - w.re, -w.im));
          }
        case Cmplx(z) =>
          match b {
            case Int(j) => r := Cmplx(Complex(z.re - j as real, z.im));
            case Cmplx(w) => r := Cmplx(Complex(z.re - w.re, z.im - w.im));
          }
      }
      MinusCases(a, b);
      ArithEffect(Minus, st, stack.Length);
      Push(r);
      e := Ran(1);
    }

    /** f_mult. */
    method FMult(ghost st: State) returns (e: Ending)
      requires Holds(st) && |st.stack| >= 2
      modifies this`sp, stack
      ensures Did(Step(Op2(Arith(Mult)), st, stack.Length), e)
    {
      hide Arithmetic, Step, Apply2, Wrap, WordProduct, CMul;
      var a, b := Pop2(st);
      var r: Value;
      match a {
        case Int(i) =>
          match b {
            case Int(j) => r := Int(Wrap(i * j));
            case Cmplx(w) => r := Cmplx(Complex(i as real * w.re, i as real * w.im));
          }
        case Cmplx(z) =>
          match b {
            case Int(j) => r := Cmplx(Complex(j as real * z.re, j as real * z.im));
            case Cmplx(w) => r := Cmplx(Complex(z.re * w.re - z.im * w.im, z.re * w.im + z.im * w.re));
          }
      }
      MultCases(a, b);
      assert r == Arithmetic(Mult, a, b);
      ArithEffect(Mult, st, stack.Length);
      Push(r);
      e := Ran(1);
    }

    /** f_div. */
    method FDiv(ghost st: State) returns (e: Ending)
      requires Holds(st) && |st.stack| >= 2
      modifies this`sp, this`undefined, stack
      ensures Did(Step(Op2(Binary.Div), st, stack.Length), e)
    {
      hide Divide, Step, Apply2, Wrap, Quotient, Square, CDiv, DivideBy, WordOver;
      var a, b := Pop2(st);
      var r: Value;
      DivCases(a, b);
      match a {
        case Int(i) =>
          match b {
            case Int(j) =>
              if j != 0 {
                r := Int(Wrap(Quotient(i, j)));
              } else {
                r := Int(0);
                undefined := true;
              }
            case Cmplx(w) =>
              var square := Square(w);
              if square != 0.0 {
                r := Cmplx(WordOver(i, w));
              } else {
                r := Cmplx(Complex(0.0, 0.0));
                undefined := true;
              }
          }
        case Cmplx(z) =>
          match b {
            case Int(j) =>
              if j != 0 {
                r := Cmplx(DivideBy(z, j as real));
              } else {
                r := Cmplx(Complex(0.0, 0.0));
                undefined := true;
              }
            case Cmplx(w) =>
              var square := Square(w);
              if square != 0.0 {
                r := Cmplx(CDiv(z, w));
              } else {
                r := Cmplx(Complex(0.0, 0.0));
                undefined := true;
              }
          }
      }
      DivEffect(st, stack.Length);
      Push(r);
      e := Ran(1);
    }

    /** f_mod. */
    method FMod(ghost st: State) returns (e: Ending)
      requires Holds(st) && |st.stack| >= 2
      modifies this`sp, this`undefined, stack
      ensures Did(Step(Op2(Mod), st, stack.Length), e)
    {
      var a, b := Pop2(st);
      if !a.Int? || !b.Int? {
        return Raised(ModNonInteger);
      }
      if b.i != 0 {
        Push(Int(Wrap(Remainder(a.i, b.i))));
      } else {
        Push(Int(0));
        undefined := true;
      }
      e := Ran(1);
    }

    /** f_eq. */
    method FEq(ghost st: State) returns (e: Ending)
      requires Holds(st) && |st.stack| >= 2
      modifies this`sp, stack
      ensures Did(Step(Op2(Compare(Eq)), st, stack.Length), e)
    {
      var a, b := Pop2(st);
      var result: bool;
      match a {
        case Int(i) =>
          match b {
            case Int(j) => result := i == j;
            case Cmplx(w) => result := i as real == w.re && w.im == 0.0;
          }
        case Cmplx(z) =>
          match b {
            case Int(j) => result := j as real == z.re && z.im == 0.0;
            case Cmplx(w) => result := z.re == w.re && z.im == w.im;
          }
      }
      Push(FromBool(result));
      e := Ran(1);
    }

    /** f_ne. */
    method FNe(ghost st: State) returns (e: Ending)
      requires Holds(st) && |st.stack| >= 2
      modifies this`sp, stack
      ensures Did(Step(Op2(Compare(Ne)), st, stack.Length), e)
    {
      var a, b := Pop2(st);
      var result: bool;
      match a {
        case Int(i) =>
          match b {
            case Int(j) => result := i != j;
            case Cmplx(w) => result := i as real != w.re || w.im != 0.0;
          }
        case Cmplx(z) =>
          match b {
            case Int(j) => result := j as real != z.re || z.im != 0.0;
            case Cmplx(w) => result := z.re != w.re || z.im != w.im;
          }
      }
      Push(FromBool(result));
      e := Ran(1);
    }

    /** f_gt. */
    method FGt(ghost st: State) returns (e: Ending)
      requires Holds(st) && |st.stack| >= 2
      modifies this`sp, stack
      ensures Did(Step(Op2(Compare(Gt)), st, stack.Length), e)
    {
      var a, b := Pop2(st);
      var result: bool;
      match a {
        case Int(i) =>
          match b {
            case Int(j) => result := i > j;
            case Cmplx(w) => result := i as real > w.re;
          }
        case Cmplx(z) =>
          match b {
            case Int(j) => result := z.re > j as real;
            case Cmplx(w) => result := z.re > w.re;
          }
      }
      Push(FromBool(result));
      e := Ran(1);
    }

    /** f_lt. */
    method FLt(ghost st: State) returns (e: Ending)
      requires Holds(st) && |st.stack| >= 2
      modifies this`sp, stack
      ensures Did(Step(Op2(Compare(Lt)), st, stack.Length), e)
    {
      var a, b := Pop2(st);
      var result: bool;
      match a {
        case Int(i) =>
          match b {
            case Int(j) => result := i < j;
            case Cmplx(w) => result := i as real < w.re;
          }
        case Cmplx(z) =>
          match b {
            case Int(j) => result := z.re < j as real;
            case Cmplx(w) => result := z.re < w.re;
          }
      }
      Push(FromBool(result));
      e := Ran(1);
    }

    /** f_ge. */
    method FGe(ghost st: State) returns (e: Ending)
      requires Holds(st) && |st.stack| >= 2
      modifies this`sp, stack
      ensures Did(Step(Op2(Compare(Ge)), st, stack.Length), e)
    {
      var a, b := Pop2(st);
      var result: bool;
      match a {
        case Int(i) =>
          match b {
            case Int(j) => result := i >= j;
            case Cmplx(w) => result := i as real >= w.re;
          }
        case Cmplx(z) =>
          match b {
            case Int(j) => result := z.re >= j as real;
            case Cmplx(w) => result := z.re >= w.re;
          }
      }
      Push(FromBool(result));
      e := Ran(1);
    }

    /** f_le. */
    method FLe(ghost st: State) returns (e: Ending)
      requires Holds(st) && |st.stack| >= 2
      modifies this`sp, stack
      ensures Did(Step(Op2(Compare(Le)), st, stack.Length), e)
    {
      var a, b := Pop2(st);
      var result: bool;
      match a {
        case Int(i) =>
          match b {
            case Int(j) => result := i <= j;
            case Cmplx(w) => result := i as real <= w.re;
          }
        case Cmplx(z) =>
          match b {
            case Int(j) => result := z.re <= j as real;
            case Cmplx(w) => result := z.re <= w.re;
          }
      }
      Push(FromBool(result));
      e := Ran(1);
    }

    /** f_lnot. */
    method FLnot(ghost st: State) returns (e: Ending)
      requires Holds(st) && |st.stack| >= 1
      modifies this`sp, stack
      ensures Did(Step(Op1(Lnot), st, stack.Length), e)
    {
      var a := Pop();
      assert Contents() == st.stack[..|st.stack| - 1];
      if !a.Int? {
        return Raised(NonInteger);
      }
      Push(FromBool(a.i == 0));
      e := Ran(1);
    }

    /** f_lor. */
    method FLor(ghost st: State) returns (e: Ending)
      requires Holds(st) && |st.stack| >= 2
      modifies this`sp, stack
      ensures Did(Step(Op2(Lor), st, stack.Length), e)
    {
      var a, b := Pop2(st);
      if !a.Int? || !b.Int? {
        return Raised(NonInteger);
      }
      Push(FromBool(a.i != 0 || b.i != 0));
      e := Ran(1);
    }

    /** f_land. */
    method FLand(ghost st: State) returns (e: Ending)
      requires Holds(st) && |st.stack| >= 2
      modifies this`sp, stack
      ensures Did(Step(Op2(Land), st, stack.Length), e)
    {
      var a, b := Pop2(st);
      if !a.Int? || !b.Int? {
        return Raised(NonInteger);
      }
      Push(FromBool(a.i != 0 && b.i != 0));
      e := Ran(1);
    }

    /** f_uminus. */
    method FUminus(ghost st: State) returns (e: Ending)
      requires Holds(st) && |st.stack| >= 1
      modifies this`sp, stack
      ensures Did(Step(Op1(Uminus), st, stack.Length), e)
    {
      hide Wrap, Step, Apply1;
      var a := Pop();
      assert Contents() == st.stack[..|st.stack| - 1];
      UminusEffect(st, stack.Length);
      match a {
        case Int(i) => a := Int(Wrap(0 - i));
        case Cmplx(z) => a := Cmplx(Complex(-z.re, -z.im));
      }
      Push(a);
      e := Ran(1);
    }

    /** f_bool works on the top cell where it is. */
    method FBool(ghost st: State) returns (e: Ending)
      requires Holds(st) && |st.stack| >= 1
      modifies stack
      ensures Did(Step(Bool, st, stack.Length), e)
    {
      if !stack[sp].Int? {
        return Raised(NonInteger);
      }
      stack[sp] := Int(if stack[sp].i != 0 then 1 else 0);
      assert Contents()[..sp] == st.stack[..sp];
      e := Ran(1);
    }

    /** f_jumpz: no jump pops the cell it looks at, a jump leaves it. */
    method FJumpz(off: int, ghost st: State) returns (e: Ending)
      requires Holds(st) && |st.stack| >= 1
      modifies this`sp
      ensures Did(Step(Jumpz(off), st, stack.Length), e)
    {
      if !stack[sp].Int? {
        return Raised(NonInteger);
      }
      if stack[sp].i != 0 {
        var _ := Pop();
        return Ran(1);
      }
      e := Ran(off);
    }

    /** f_jumpnz. */
    method FJumpnz(off: int, ghost st: State) returns (e: Ending)
      requires Holds(st) && |st.stack| >= 1
      modifies this`sp
      ensures Did(Step(Jumpnz(off), st, stack.Length), e)
    {
      if !stack[sp].Int? {
        return Raised(NonInteger);
      }
      if stack[sp].i != 0 {
        return Ran(off);
      }
      var _ := Pop();
      e := Ran(1);
    }

    /** f_jtern pops the cell it looks at in any case. */
    method FJtern(off: int, ghost st: State) returns (e: Ending)
      requires Holds(st) && |st.stack| >= 1
      modifies this`sp
      ensures Did(Step(Jtern(off), st, stack.Length), e)
    {
      var a := Pop();
      if !a.Int? {
        return Raised(NonInteger);
      }
      e := Ran(if a.i != 0 then 1 else off);
    }

    // ---------- running code ----------

    /** The operation of one instruction, after the checks of the stack. */
    method Dispatch(i: Instr, ghost st: State) returns (e: Ending)
      requires Holds(st)
      modifies this`sp, this`undefined, stack
      ensures Did(Step(i, st, stack.Length), e)
    {
      hide Apply1, Apply2, ToBool;
      var needed := if i.PushC? || i.Jump? then 0 else if i.Op2? then 2 else 1;
      if sp + 1 < needed {
        return Raised(StackUnderflow);
      }
      match i {
        case PushC(v) =>
          if sp + 1 == stack.Length {
            return Raised(StackOverflow);
          }
          Push(v);
          e := Ran(1);
        case Op1(op) => e := DispatchUnary(op, st);
        case Op2(op) => e := DispatchBinary(op, st);
        case Bool => e := FBool(st);
        case Jump(off) => e := Ran(off);
        case Jumpz(off) => e := FJumpz(off, st);
        case Jumpnz(off) => e := FJumpnz(off, st);
        case Jtern(off) => e := FJtern(off, st);
      }
    }

    method DispatchUnary(op: Unary, ghost st: State) returns (e: Ending)
      requires Holds(st) && |st.stack| >= 1
      modifies this`sp, stack
      ensures Did(Step(Op1(op), st, stack.Length), e)
    {
      hide Step;
      match op {
        case Uminus => e := FUminus(st);
        case Lnot => e := FLnot(st);
      }
    }

    method DispatchBinary(op: Binary, ghost st: State) returns (e: Ending)
      requires Holds(st) && |st.stack| >= 2
      modifies this`sp, this`undefined, stack
      ensures Did(Step(Op2(op), st, stack.Length), e)
    {
      hide Step;
      match op {
        case Arith(Plus) => e := FPlus(st);
        case Arith(Minus) => e := FMinus(st);
        case Arith(Mult) => e := FMult(st);
        case Div => e := FDiv(st);
        case Mod => e := FMod(st);
        case Compare(Eq) => e := FEq(st);
        case Compare(Ne) => e := FNe(st);
        case Compare(Gt) => e := FGt(st);
        case Compare(Lt) => e := FLt(st);
        case Compare(Ge) => e := FGe(st);
        case Compare(Le) => e := FLe(st);
        case Lor => e := FLor(st);
        case Land => e := FLand(st);
      }
    }

    /** Running code on the stack in memory, jumps relative to the instruction they stand at. */
    method Execute(code: seq<Instr>, ghost st: State) returns (stopped: Option<Error>)
      requires Forward(code) && Holds(st)
      modifies this`sp, this`undefined, stack
      ensures match Run(code, 0, st, stack.Length)
              case Done(end) => stopped == None && Holds(end)
              case Halted(x) => stopped == Some(x)
    {
      hide Step;
      var pc := 0;
      ghost var now := st;
      while pc < |code|
        invariant 0 <= pc && Holds(now)
        invariant Run(code, pc, now, stack.Length) == Run(code, 0, st, stack.Length)
        decreases |code| - pc
      {
        RunOnce(code, pc, now, stack.Length);
        var e := Dispatch(code[pc], now);
        match e {
          case Raised(x) => return Some(x);
          case Ran(off) =>
            now := Step(code[pc], now, stack.Length).st;
            pc := pc + off;
        }
      }
      stopped := None;
    }

    static lemma RunOnce(code: seq<Instr>, pc: nat, st: State, depth: nat)
      requires Forward(code) && pc < |code|
      ensures var step := Step(code[pc], st, depth);
        && (step.Stop? ==> Run(code, pc, st, depth) == Halted(step.error))
        && (step.Next? ==> step.off > 0 && Run(code, pc, st, depth) == Run(code, pc + step.off, step.st, depth))
    {
      assert code[pc..pc + 1] == [code[pc]];
      RunOne(code, pc, code[pc], st, depth);
    }

    /** The code of an expression leaves the expression's value on the stack in memory, or stops with its error. */
    method Evaluate(e: Expr, ghost st: State) returns (stopped: Option<Error>)
      requires Holds(st) && |st.stack| + Need(e) <= stack.Length
      modifies this`sp, this`undefined, stack
      ensures match Eval(e)
              case Val(v, u) => stopped == None && Holds(State(st.stack + [v], st.undef || u))
              case Fail(x) => stopped == Some(x)
    {
      hide Run, Code, Eval, Need;
      ProgramRuns(e, st, stack.Length);
      stopped := Execute(Code(e), st);
    }

    // ---------- loops over accumulators ----------

    /** f_power on two integers. */
    method FPowerInt(ghost st: State)
      requires Holds(st) && |st.stack| >= 2
      requires st.stack[|st.stack| - 2].Int? && st.stack[|st.stack| - 1].Int?
      modifies this`sp, stack
      ensures Holds(State(st.stack[..|st.stack| - 2] +
                          [IntPower(libm, st.stack[|st.stack| - 2].i, st.stack[|st.stack| - 1].i)], st.undef))
    {
      var a, b := Pop2(st);
      var count: Word := if b.i < 0 then Wrap(0 - b.i) else b.i;
      assert count >= 0 || b.i == -0x8000_0000;
      var t: Word := 1;
      var i := 0;
      while i < count
        invariant 0 <= i && (i <= count || i == 0) && t == Wrap(Pow(a.i, i))
        invariant Holds(State(st.stack[..|st.stack| - 2], st.undef))
      {
        WrapTimes(Pow(a.i, i), a.i);
        t := Wrap(t * a.i);
        i := i + 1;
      }
      if b.i >= 0 {
        Push(Int(t));
      } else if t != 0 {
        Push(Cmplx(Complex(1.0 / t as real, 0.0)));
      } else {
        Push(Cmplx(Complex(libm.overZero, 0.0)));
      }
    }

    /** f_factorial; anything but an integer stops with the error. */
    method FFactorial(ghost st: State) returns (e: Ending)
      requires Holds(st) && |st.stack| >= 1
      modifies this`sp, stack
      ensures match st.stack[|st.stack| - 1]
              case Int(n) =>
                && e == Ran(1)
                && Holds(State(st.stack[..|st.stack| - 1] + [Cmplx(Complex(Factorial(n) as real, 0.0))], st.undef))
              case Cmplx(_) => e == Raised(FactorialNonInteger)
    {
      var a := Pop();
      assert Contents() == st.stack[..|st.stack| - 1];
      if !a.Int? {
        return Raised(FactorialNonInteger);
      }
      hide Factorial;
      var val := 1.0;
      var i: int := a.i;
      ghost var rest := 1;
      while i > 1
        invariant i <= a.i && (a.i > 1 ==> i >= 1)
        invariant val == rest as real && rest * Factorial(i) == Factorial(a.i)
        invariant Holds(State(st.stack[..|st.stack| - 1], st.undef))
        decreases i
      {
        FactorialStep(rest, i);
        val := val * i as real;
        rest := rest * i;
        i := i - 1;
      }
      FactorialEnd(rest, i);
      Push(Cmplx(Complex(val, 0.0)));
      e := Ran(1);
    }

    static lemma FactorialEnd(rest: int, i: int)
      requires i <= 1
      ensures rest * Factorial(i) == rest
    {
    }

    static lemma FactorialStep(rest: int, i: int)
      requires i > 1
      ensures rest * i * Factorial(i - 1) == rest * Factorial(i)
      ensures rest as real * i as real == (rest * i) as real
    {
      assert rest * i * Factorial(i - 1) == rest * (Factorial(i - 1) * i);
    }

    // ---------- stack programs ----------

    method FSin(ghost st: State)
      requires Holds(st) && |st.stack| >= 1
      modifies this`sp, stack
      ensures Holds(State(st.stack[..|st.stack| - 1] + [Cmplx(CSin(libm, Promote(st.stack[|st.stack| - 1])))], st.undef))
    {
      var a := Pop();
      assert Contents() == st.stack[..|st.stack| - 1];
      Push(Cmplx(CSin(libm, Promote(a))));
    }

    method FCos(ghost st: State)
      requires Holds(st) && |st.stack| >= 1
      modifies this`sp, stack
      ensures Holds(State(st.stack[..|st.stack| - 1] + [Cmplx(CCos(libm, Promote(st.stack[|st.stack| - 1])))], st.undef))
    {
      var a := Pop();
      assert Contents() == st.stack[..|st.stack| - 1];
      Push(Cmplx(CCos(libm, Promote(a))));
    }

    /** f_besj0. */
    method FBesJ0(ghost below: seq<Value>, ghost undef: bool)
      requires Valid() && sp >= 0 && sp + 1 < stack.Length && Holds(State(below + [stack[sp]], undef))
      modifies this`sp, this`undefined, stack
      ensures var o := BesJ0(libm, old(stack[sp])); Holds(State(below + [o.v], undef || o.undef))
    {
      hide CSin, Divide;
      var a := stack[sp];
      FSinTop(below, a, undef);
      ghost var s := Cmplx(CSin(libm, Promote(a)));
      PushOn(below + [s], a, undef);
      DivTop(below, s, a, undef);
    }

    /** f_besj1. */
    method FBesJ1(ghost below: seq<Value>, ghost undef: bool)
      requires Valid() && sp >= 0 && sp + 2 < stack.Length && Holds(State(below + [stack[sp]], undef))
      modifies this`sp, this`undefined, stack
      ensures var o := BesJ1(libm, old(stack[sp])); Holds(State(below + [o.v], undef || o.undef))
    {
      hide CSin, CCos, Divide, Arithmetic;
      var a := stack[sp];
      FSinTop(below, a, undef);
      ghost var s, c := Cmplx(CSin(libm, Promote(a))), Cmplx(CCos(libm, Promote(a)));
      PushOn(below + [s], a, undef);
      PushOn(below + [s, a], a, undef);
      MultTop(below + [s], a, a, undef);
      ghost var p := Divide(s, Arithmetic(Mult, a, a));
      DivTop(below, s, Arithmetic(Mult, a, a), undef);
      PushOn(below + [p.v], a, undef || p.undef);
      FCosTop(below + [p.v], a, undef || p.undef);
      PushOn(below + [p.v, c], a, undef || p.undef);
      DivTop(below + [p.v], c, a, undef || p.undef);
      MinusTop(below, p.v, Divide(c, a).v, undef || p.undef || Divide(c, a).undef);
    }

    /** f_besy0. */
    method FBesY0(ghost below: seq<Value>, ghost undef: bool)
      requires Valid() && sp >= 0 && sp + 1 < stack.Length && Holds(State(below + [stack[sp]], undef))
      modifies this`sp, this`undefined, stack
      ensures var o := BesY0(libm, old(stack[sp])); Holds(State(below + [o.v], undef || o.undef))
    {
      hide CCos, Divide;
      var a := stack[sp];
      FCosTop(below, a, undef);
      ghost var c := Cmplx(CCos(libm, Promote(a)));
      PushOn(below + [c], a, undef);
      DivTop(below, c, a, undef);
      UminusTop(below, Divide(c, a).v, undef || Divide(c, a).undef);
    }

    /** f_besy1. */
    method FBesY1(ghost below: seq<Value>, ghost undef: bool)
      requires Valid() && sp >= 0 && sp + 2 < stack.Length && Holds(State(below + [stack[sp]], undef))
      modifies this`sp, this`undefined, stack
      ensures var o := BesY1(libm, old(stack[sp])); Holds(State(below + [o.v], undef || o.undef))
    {
      hide CSin, CCos, Divide, Arithmetic;
      var a := stack[sp];
      FCosTop(below, a, undef);
      ghost var s, c := Cmplx(CSin(libm, Promote(a))), Cmplx(CCos(libm, Promote(a)));
      PushOn(below + [c], a, undef);
      PushOn(below + [c, a], a, undef);
      MultTop(below + [c], a, a, undef);
      ghost var p := Divide(c, Arithmetic(Mult, a, a));
      DivTop(below, c, Arithmetic(Mult, a, a), undef);
      PushOn(below + [p.v], a, undef || p.undef);
      FSinTop(below + [p.v], a, undef || p.undef);
      PushOn(below + [p.v, s], a, undef || p.undef);
      DivTop(below + [p.v], s, a, undef || p.undef);
      ghost var u := undef || p.undef || Divide(s, a).undef;
      PlusTop(below, p.v, Divide(s, a).v, u);
      UminusTop(below, Arithmetic(Plus, p.v, Divide(s, a).v), u);
    }

    // ---------- the operations, told in terms of the cells they leave alone ----------

    method PushOn(ghost below: seq<Value>, x: Value, ghost undef: bool)
      requires Holds(State(below, undef)) && |below| < stack.Length
      modifies this`sp, stack
      ensures Holds(State(below + [x], undef))
    {
      Push(x);
    }

    method FSinTop(ghost below: seq<Value>, ghost a: Value, ghost undef: bool)
      requires Holds(State(below + [a], undef))
      modifies this`sp, stack
      ensures Holds(State(below + [Cmplx(CSin(libm, Promote(a)))], undef))
    {
      FSin(State(below + [a], undef));
    }

    method FCosTop(ghost below: seq<Value>, ghost a: Value, ghost undef: bool)
      requires Holds(State(below + [a], undef))
      modifies this`sp, stack
      ensures Holds(State(below + [Cmplx(CCos(libm, Promote(a)))], undef))
    {
      FCos(State(below + [a], undef));
    }

    method DivTop(ghost below: seq<Value>, ghost a: Value, ghost b: Value, ghost undef: bool)
      requires Holds(State(below + [a] + [b], undef))
      modifies this`sp, this`undefined, stack
      ensures Holds(State(below + [Divide(a, b).v], undef || Divide(a, b).undef))
    {
      hide Divide;
      ghost var st := State(below + [a] + [b], undef);
      DivEffect(st, stack.Length);
      assert st.stack[..|below|] == below;
      var _ := FDiv(st);
    }

    method MultTop(ghost below: seq<Value>, ghost a: Value, ghost b: Value, ghost undef: bool)
      requires Holds(State(below + [a] + [b], undef))
      modifies this`sp, stack
      ensures Holds(State(below + [Arithmetic(Mult, a, b)], undef))
    {
      hide Arithmetic;
      ghost var st := State(below + [a] + [b], undef);
      ArithEffect(Mult, st, stack.Length);
      assert st.stack[..|below|] == below;
      var _ := FMult(st);
    }

    method PlusTop(ghost below: seq<Value>, ghost a: Value, ghost b: Value, ghost undef: bool)
      requires Holds(State(below + [a] + [b], undef))
      modifies this`sp, stack
      ensures Holds(State(below + [Arithmetic(Plus, a, b)], undef))
    {
      hide Arithmetic;
      ghost var st := State(below + [a] + [b], undef);
      ArithEffect(Plus, st, stack.Length);
      assert st.stack[..|below|] == below;
      var _ := FPlus(st);
    }

    method MinusTop(ghost below: seq<Value>, ghost a: Value, ghost b: Value, ghost undef: bool)
      requires Holds(State(below + [a] + [b], undef))
      modifies this`sp, stack
      ensures Holds(State(below + [Arithmetic(Minus, a, b)], undef))
    {
      hide Arithmetic;
      ghost var st := State(below + [a] + [b], undef);
      ArithEffect(Minus, st, stack.Length);
      assert st.stack[..|below|] == below;
      var _ := FMinus(st);
    }

    method UminusTop(ghost below: seq<Value>, ghost a: Value, ghost undef: bool)
      requires Holds(State(below + [a], undef))
      modifies this`sp, stack
      ensures Holds(State(below + [Apply1(Uminus, a).v], undef)) && !Apply1(Uminus, a).undef
    {
      ghost var st := State(below + [a], undef);
      assert st.stack[..|below|] == below;
      var _ := FUminus(st);
    }
  }
}
