/**
 The Cantor function and the two indicators of the Cantor set, as recurrences over exact reals,
 and how they agree with the end point lists of CantorSet.
 */
module CantorFunction {
  import opened CantorSet

  /** cantorr2: the Cantor function cut off after n levels. */
  function Cantor(x: real, n: int): real
    decreases n
  {
    if x == 0.0 then 0.0
    else if x == 1.0 then 1.0
    else if n <= 0 then x
    else if 0.0 < x <= 1.0 / 3.0 then Cantor(3.0 * x, n - 1) / 2.0
    else if 1.0 / 3.0 < x < 2.0 / 3.0 then 1.0 / 2.0
    else if 2.0 / 3.0 <= x < 1.0 then (1.0 + Cantor(3.0 * x - 2.0, n - 1)) / 2.0
    else 0.0
  }

  /** mod(x, 1), the fractional part. */
  function Frac(x: real): (y: real)
    ensures 0.0 <= y < 1.0
  {
    x - x.Floor as real
  }

  /** cantorrd: the recursive indicator. */
  function Indicator(x: real, n: int): int
    decreases n
  {
    if x == 0.0 || x == 1.0 then 1
    else
      var y := Frac(x);
      if n <= 0 then 1
      else if 0.0 < y <= 1.0 / 3.0 then Indicator(3.0 * y, n - 1)
      else if 2.0 / 3.0 <= y < 1.0 then Indicator(3.0 * y - 2.0, n - 1)
      else 0
  }

  /** One round of the loop of cantorri: drop the first ternary digit. */
  function Next(x: real): (y: real)
    ensures 0.0 <= y < 1.0
  {
    3.0 * x - (3.0 * x).Floor as real
  }

  /** The loop of cantorri from x on, with n rounds to go: stop at the first ternary digit 1. */
  function DigitLoop(x: real, n: int): int
    decreases n
  {
    if n <= 0 then 1
    else if (3.0 * x).Floor == 1 then 0
    else DigitLoop(Next(x), n - 1)
  }

  /** cantorri: the digit-loop indicator. */
  function DigitIndicator(x: real, n: int): int {
    if x == 0.0 || x == 1.0 then 1 else DigitLoop(Frac(x), n)
  }

  // ---------- the indicators and the interval lists ----------

  lemma FracOfUnit(x: real)
    requires 0.0 <= x < 1.0
    ensures Frac(x) == x
  {
    assert x.Floor == 0;
  }

  lemma {:induction false} IndicatorOnStandard(x: real, n: nat)
    requires 0.0 <= x <= 1.0
    ensures Indicator(x, n) == if InUnion(x, Standard(n + 1)) then 1 else 0
    decreases n
  {
    hide Frac, Standard, InUnion;
    UnionBounds(x, n + 1);
    if x != 0.0 && x != 1.0 {
      FracOfUnit(x);
      UnionStep(x, n);
      if n == 0 {
      } else if x <= 1.0 / 3.0 {
        IndicatorOnStandard(3.0 * x, n - 1);
      } else if 2.0 / 3.0 <= x {
        IndicatorOnStandard(3.0 * x - 2.0, n - 1);
      }
    }
  }

  /** On [0, 1] the recursive indicator is 1 exactly on the union of the closed intervals, else 0. */
  lemma IndicatorIsInUnion(x: real, n: nat)
    requires 0.0 <= x <= 1.0
    ensures Indicator(x, n) == if InUnion(x, Endpoints(0.0, 1.0, 1.0 / 3.0, 1.0 / 3.0, n + 1)) then 1 else 0
  {
    hide *;
    IndicatorOnStandard(x, n);
    EndpointsIsStandard(n + 1);
  }

  lemma {:induction false} DigitLoopOnStandard(x: real, n: nat)
    requires 0.0 <= x < 1.0
    ensures DigitLoop(x, n) == if InHalfOpenUnion(x, Standard(n + 1)) then 1 else 0
    decreases n
  {
    hide Standard, InHalfOpenUnion;
    HalfOpenUnionStep(x, n);
    if n > 0 {
      if x < 1.0 / 3.0 {
        assert (3.0 * x).Floor == 0;
        DigitLoopOnStandard(3.0 * x, n - 1);
      } else if 2.0 / 3.0 <= x {
        assert (3.0 * x).Floor == 2;
        DigitLoopOnStandard(3.0 * x - 2.0, n - 1);
      } else {
        assert (3.0 * x).Floor == 1;
      }
    }
  }

  /** On [0, 1) the digit loop is 1 exactly on the same intervals with their right ends left out; at 1 it is 1. */
  lemma DigitIndicatorIsInHalfOpenUnion(x: real, n: nat)
    requires 0.0 <= x <= 1.0
    ensures DigitIndicator(x, n) ==
            if x == 1.0 || InHalfOpenUnion(x, Endpoints(0.0, 1.0, 1.0 / 3.0, 1.0 / 3.0, n + 1)) then 1 else 0
  {
    hide Endpoints, Standard, InHalfOpenUnion, InUnion, DigitLoop, Frac;
    EndpointsIsStandard(n + 1);
    UnionBounds(x, n + 1);
    if x < 1.0 {
      FracOfUnit(x);
      DigitLoopOnStandard(x, n);
    }
  }

  // ---------- ternary digits, and where the two indicators differ ----------

  /** x times 3^k. */
  function Zoom(x: real, k: nat): real {
    if k == 0 then x else 3.0 * Zoom(x, k - 1)
  }

  /** What is left of x after its first k ternary digits, moved back to [0, 1). */
  function Tail(x: real, k: nat): real {
    Frac(Zoom(x, k))
  }

  /** The k-th ternary digit of x after the point. */
  function Digit(x: real, k: nat): int {
    (3.0 * Tail(x, k)).Floor
  }

  lemma FracShift(x: real, y: real, m: int)
    requires y == x + m as real
    ensures Frac(y) == Frac(x)
  {
    assert y.Floor == x.Floor + m;
  }

  lemma {:induction false} ZoomShift(x: real, k: nat) returns (m: int)
    ensures Zoom(Next(x), k) == Zoom(x, k + 1) + m as real
  {
    if k == 0 {
      m := -(3.0 * x).Floor;
    } else {
      var l := ZoomShift(x, k - 1);
      m := 3 * l;
    }
  }

  /** Dropping the first digit moves every other digit one place forward. */
  lemma TailShift(x: real, k: nat)
    ensures Tail(Next(x), k) == Tail(x, k + 1)
    ensures Digit(Next(x), k) == Digit(x, k + 1)
  {
    hide Frac, Next, Zoom;
    var m := ZoomShift(x, k);
    FracShift(Zoom(x, k + 1), Zoom(Next(x), k), m);
  }

  /** One more round of the loop leaves what is left after one more digit. */
  lemma TailNext(x: real, k: nat)
    ensures Next(Tail(x, k)) == Tail(x, k + 1)
  {
    var z := Zoom(x, k);
    FracShift(3.0 * z, 3.0 * Frac(z), -3 * z.Floor);
  }

  lemma WholeTail(x: real)
    requires 0.0 <= x < 1.0
    ensures Tail(x, 0) == x && Digit(x, 0) == (3.0 * x).Floor
  {
    FracOfUnit(x);
  }

  ghost predicate NoOneBefore(x: real, n: int) {
    forall k: nat | k < n :: Digit(x, k) != 1
  }

  lemma NoOneBeforeStep(x: real, n: nat)
    requires 0.0 <= x < 1.0
    ensures NoOneBefore(x, n + 1) <==> Digit(x, 0) != 1 && NoOneBefore(Next(x), n)
  {
    hide Digit, Next;
    if NoOneBefore(x, n + 1) {
      forall k: nat | k < n ensures Digit(Next(x), k) != 1 { TailShift(x, k); }
    }
    if Digit(x, 0) != 1 && NoOneBefore(Next(x), n) {
      forall k: nat | k < n + 1 ensures Digit(x, k) != 1 {
        if k > 0 { TailShift(x, k - 1); }
      }
    }
  }

  /** The digit loop answers 1 exactly when none of the first n ternary digits is a 1. */
  lemma {:induction false} DigitLoopMeansNoOne(x: real, n: nat)
    requires 0.0 <= x < 1.0
    ensures DigitLoop(x, n) == if NoOneBefore(x, n) then 1 else 0
    decreases n
  {
    hide NoOneBefore, Digit;
    if n == 0 {
      EmptyPrefix(x);
    } else {
      WholeTail(x);
      NoOneBeforeStep(x, n - 1);
      DigitLoopMeansNoOne(Next(x), n - 1);
    }
  }

  lemma EmptyPrefix(x: real)
    ensures NoOneBefore(x, 0)
  {
  }

  /** The first digit 1 of x stands at place k, and the digits from there on are those of 1/3. */
  ghost predicate FirstOneIsAThird(x: real, k: nat) {
    NoOneBefore(x, k) && Tail(x, k) == 1.0 / 3.0
  }

  lemma FirstOneStep(x: real, k: nat)
    requires 0.0 <= x < 1.0
    ensures FirstOneIsAThird(x, 0) <==> x == 1.0 / 3.0
    ensures FirstOneIsAThird(x, k + 1) <==> Digit(x, 0) != 1 && FirstOneIsAThird(Next(x), k)
  {
    hide NoOneBefore, Digit, Tail, Next;
    EmptyPrefix(x);
    WholeTail(x);
    NoOneBeforeStep(x, k);
    TailShift(x, k);
  }

  ghost predicate MeetsAThird(x: real, n: nat) {
    exists k: nat | k < n :: FirstOneIsAThird(x, k)
  }

  lemma MeetsAThirdStep(x: real, n: nat)
    requires 0.0 <= x < 1.0
    ensures MeetsAThird(x, n + 1) <==>
            x == 1.0 / 3.0 || ((3.0 * x).Floor != 1 && MeetsAThird(Next(x), n))
  {
    hide FirstOneIsAThird, Digit, Next;
    WholeTail(x);
    FirstOneStep(x, 0);
    if MeetsAThird(x, n + 1) {
      var k: nat :| k < n + 1 && FirstOneIsAThird(x, k);
      if k > 0 { FirstOneStep(x, k - 1); }
    }
    if (3.0 * x).Floor != 1 && MeetsAThird(Next(x), n) {
      var k: nat :| k < n && FirstOneIsAThird(Next(x), k);
      FirstOneStep(x, k);
    }
    if x == 1.0 / 3.0 { assert FirstOneIsAThird(x, 0); }
  }

  /** From any point of [0, 1) on, the loop never exceeds the recursion; they differ exactly at a first digit 1 of value 1/3. */
  lemma {:induction false} DigitLoopVersusIndicator(x: real, n: nat)
    requires 0.0 <= x < 1.0
    ensures DigitLoop(x, n) <= Indicator(x, n)
    ensures DigitLoop(x, n) != Indicator(x, n) <==> MeetsAThird(x, n)
    decreases n
  {
    hide MeetsAThird;
    if n == 0 {
      NothingMet(x);
    } else {
      FracOfUnit(x);
      MeetsAThirdStep(x, n - 1);
      var y := Next(x);
      DigitLoopVersusIndicator(y, n - 1);
      if x < 1.0 / 3.0 {
        assert (3.0 * x).Floor == 0;
      } else if 2.0 / 3.0 <= x {
        assert (3.0 * x).Floor == 2;
      } else {
        assert (3.0 * x).Floor == 1;
      }
    }
  }

  lemma NothingMet(x: real)
    ensures !MeetsAThird(x, 0)
  {
  }

  lemma {:induction false} LoopAtZero(n: int)
    ensures DigitLoop(0.0, n) == 1
    decreases n
  {
    if n > 0 {
      assert Next(0.0) == 0.0;
      LoopAtZero(n - 1);
    }
  }

  /** An integer other than 0 and 1. */
  ghost predicate StrayInteger(x: real) {
    Frac(x) == 0.0 && x != 0.0 && x != 1.0
  }

  /** All reals: the loop exceeds the recursion exactly at the stray integers, and falls short exactly at a first digit 1 of value 1/3. */
  lemma DigitIndicatorVersusIndicator(x: real, n: nat)
    ensures DigitIndicator(x, n) > Indicator(x, n) <==> n > 0 && StrayInteger(x)
    ensures DigitIndicator(x, n) < Indicator(x, n) <==> MeetsAThird(Frac(x), n)
  {
    hide MeetsAThird;
    LoopAtZero(n);
    FracOfUnit(Frac(x));
    if n == 0 {
      NothingMet(Frac(x));
    } else {
      DigitLoopVersusIndicator(Frac(x), n);
      assert Frac(0.0) == 0.0 && Frac(1.0) == 0.0;
    }
  }

  // ---------- the Cantor function at the end points and on the gaps ----------

  lemma PointInRange(t: seq<real>, i: nat)
    requires i < |t| && Increasing(t) && t[0] == 0.0 && t[|t| - 1] == 1.0
    ensures 0.0 <= t[i] <= 1.0 && (t[i] == 0.0 <==> i == 0) && (t[i] == 1.0 <==> i == |t| - 1)
  {
    assert i > 0 ==> t[0] < t[i];
    assert i < |t| - 1 ==> t[i] < t[|t| - 1];
  }

  /** The value at a point of the doubled list, from the value at the point it was copied from. */
  lemma CantorOnDouble(t: seq<real>, cutoff: int, j: nat)
    requires cutoff >= 1 && Increasing(t) && 0 < |t| && j < 2 * |t| && t[0] == 0.0 && t[|t| - 1] == 1.0
    ensures j < |t| ==> Cantor(Double(t)[j], cutoff) == Cantor(t[j], cutoff - 1) / 2.0
    ensures j >= |t| ==> Cantor(Double(t)[j], cutoff) == (1.0 + Cantor(t[j - |t|], cutoff - 1)) / 2.0
  {
    hide Cantor, Increasing;
    var i := if j < |t| then j else j - |t|;
    PointInRange(t, i);
    ShrinkAt(if j < |t| then 0.0 else 2.0 / 3.0, t, i);
    hide Shrink;
    var x := Double(t)[j];
    if j < |t| {
      assert x == t[i] / 3.0;
      assert 3.0 * x == t[i];
    } else {
      assert x == t[i] / 3.0 + 2.0 / 3.0;
      assert 3.0 * x - 2.0 == t[i];
    }
    CantorStep(x, cutoff);
  }

  /** c is the fraction m / h. */
  ghost predicate IsFraction(c: real, m: int, h: nat) {
    c * h as real == m as real
  }

  lemma HalfOf(c: real, h: nat, m: int)
    requires IsFraction(c, m, h)
    ensures IsFraction(c / 2.0, m, 2 * h)
    ensures IsFraction((1.0 + c) / 2.0, h + m, 2 * h)
  {
    assert c / 2.0 * (2.0 * h as real) == c * h as real;
    assert (1.0 + c) / 2.0 * (2.0 * h as real) == h as real + c * h as real;
  }

  /** The fraction at a point of the doubled list, from the fraction c at the point it was copied from. */
  lemma FractionOnDouble(c: real, j: nat, h: nat)
    requires IsFraction(c, ((if j < 2 * h then j else j - 2 * h) + 1) / 2, h)
    ensures IsFraction(if j < 2 * h then c / 2.0 else (1.0 + c) / 2.0, (j + 1) / 2, 2 * h)
  {
    hide IsFraction;
    var i := if j < 2 * h then j else j - 2 * h;
    HalfOf(c, h, (i + 1) / 2);
    assert j >= 2 * h ==> (j + 1) / 2 == h + (i + 1) / 2;
  }

  /** The j-th of the 2^n end points has the value ceil(j/2) / 2^(n-1), at every cut-off that reaches level n. */
  lemma {:induction false} CantorAtPoint(n: nat, cutoff: int, j: nat)
    requires n >= 1 && cutoff >= n - 1 && j < Power2(n)
    ensures |Standard(n)| == Power2(n)
    ensures IsFraction(Cantor(Standard(n)[j], cutoff), (j + 1) / 2, Power2(n - 1))
    decreases n
  {
    hide Increasing, Double, Standard, Cantor, IsFraction;
    StandardIncreasing(n);
    StandardStep(n - 1);
    if n == 1 {
      CantorEnds(cutoff, j);
    } else {
      var t := Standard(n - 1);
      StandardIncreasing(n - 1);
      var i := if j < |t| then j else j - |t|;
      CantorAtPoint(n - 1, cutoff - 1, i);
      CantorOnDouble(t, cutoff, j);
      FractionOnDouble(Cantor(t[i], cutoff - 1), j, Power2(n - 2));
    }
  }

  lemma CantorEnds(n: int, j: nat)
    requires j < 2
    ensures IsFraction(Cantor([0.0, 1.0][j], n), (j + 1) / 2, 1)
  {
  }

  lemma CantorAtEndpoint(n: nat, cutoff: int, j: nat, s: seq<real>)
    requires n >= 1 && cutoff >= n - 1
    requires s == Endpoints(0.0, 1.0, 1.0 / 3.0, 1.0 / 3.0, n) && j < |s|
    ensures Cantor(s[j], cutoff) == ((j + 1) / 2) as real / Power2(n - 1) as real
  {
    hide *;
    EndpointsIsStandard(n);
    StandardIncreasing(n);
    CantorAtPoint(n, cutoff, j);
    DivideOut(Cantor(s[j], cutoff), (j + 1) / 2, Power2(n - 1));
  }

  lemma DivideOut(c: real, m: int, h: nat)
    requires h > 0 && IsFraction(c, m, h)
    ensures c == m as real / h as real
  {
  }

  // ---------- the Cantor function on [0, 1] ----------

  lemma {:induction false} CantorRange(x: real, n: int)
    requires 0.0 <= x <= 1.0
    ensures 0.0 <= Cantor(x, n) <= 1.0
    decreases n
  {
    if n > 0 && 0.0 < x <= 1.0 / 3.0 {
      CantorRange(3.0 * x, n - 1);
    } else if n > 0 && 2.0 / 3.0 <= x < 1.0 {
      CantorRange(3.0 * x - 2.0, n - 1);
    }
  }

  /** On [0, 1] the recurrence is its three cases, at the ends of [0, 1] too. */
  lemma CantorStep(x: real, n: int)
    requires 0.0 <= x <= 1.0
    ensures n <= 0 ==> Cantor(x, n) == x
    ensures n > 0 && x <= 1.0 / 3.0 ==> Cantor(x, n) == Cantor(3.0 * x, n - 1) / 2.0
    ensures n > 0 && 1.0 / 3.0 < x < 2.0 / 3.0 ==> Cantor(x, n) == 1.0 / 2.0
    ensures n > 0 && 2.0 / 3.0 <= x ==> Cantor(x, n) == (1.0 + Cantor(3.0 * x - 2.0, n - 1)) / 2.0
  {
  }

  lemma {:induction false} CantorMonotone(x: real, y: real, n: int)
    requires 0.0 <= x <= y <= 1.0
    ensures Cantor(x, n) <= Cantor(y, n)
    decreases n
  {
    hide Cantor;
    CantorStep(x, n);
    CantorStep(y, n);
    if n > 0 {
      if x <= 1.0 / 3.0 { CantorRange(3.0 * x, n - 1); }
      if y >= 2.0 / 3.0 { CantorRange(3.0 * y - 2.0, n - 1); }
      if y <= 1.0 / 3.0 {
        CantorMonotone(3.0 * x, 3.0 * y, n - 1);
      } else if x >= 2.0 / 3.0 {
        CantorMonotone(3.0 * x - 2.0, 3.0 * y - 2.0, n - 1);
      }
    }
  }

  lemma {:induction false} CantorSymmetric(x: real, n: int)
    requires 0.0 <= x <= 1.0
    ensures Cantor(1.0 - x, n) == 1.0 - Cantor(x, n)
    decreases n
  {
    hide Cantor;
    CantorStep(x, n);
    CantorStep(1.0 - x, n);
    if n > 0 {
      if x <= 1.0 / 3.0 {
        CantorSymmetric(3.0 * x, n - 1);
        assert 3.0 * (1.0 - x) - 2.0 == 1.0 - 3.0 * x;
      } else if x >= 2.0 / 3.0 {
        CantorSymmetric(3.0 * x - 2.0, n - 1);
        assert 3.0 * (1.0 - x) == 1.0 - (3.0 * x - 2.0);
      }
    }
  }

  /** Between two neighbouring intervals of level n the function is constant. */
  lemma CantorOnGap(n: nat, cutoff: int, i: nat, x: real, s: seq<real>)
    requires n >= 1 && cutoff >= n - 1
    requires s == Endpoints(0.0, 1.0, 1.0 / 3.0, 1.0 / 3.0, n)
    requires 2 * i + 2 < |s| && s[2 * i + 1] <= x <= s[2 * i + 2]
    ensures Cantor(x, cutoff) == (i + 1) as real / Power2(n - 1) as real
  {
    hide Cantor, Endpoints, Standard, Increasing;
    EndpointsIsStandard(n);
    StandardIncreasing(n);
    CantorAtEndpoint(n, cutoff, 2 * i + 1, s);
    CantorAtEndpoint(n, cutoff, 2 * i + 2, s);
    PointInRange(s, 2 * i + 1);
    PointInRange(s, 2 * i + 2);
    CantorMonotone(s[2 * i + 1], x, cutoff);
    CantorMonotone(x, s[2 * i + 2], cutoff);
    assert (2 * i + 2) / 2 == (2 * i + 3) / 2 == i + 1;
  }

  /** The length d stretched by the steepest slope that n levels can reach. */
  ghost function Stretch(d: real, n: nat): real
    decreases n
  {
    if n == 0 then d else Stretch(3.0 * d, n - 1) / 2.0
  }

  lemma {:induction false} StretchLinear(d: real, e: real, n: nat)
    ensures Stretch(d + e, n) == Stretch(d, n) + Stretch(e, n)
    ensures d >= 0.0 ==> Stretch(d, n) >= 0.0
    ensures Stretch(d, n) == Power(3.0 / 2.0, n) * d
    decreases n
  {
    if n > 0 {
      StretchLinear(3.0 * d, 3.0 * e, n - 1);
      var a := Power(3.0 / 2.0, n - 1);
      assert 3.0 * d + 3.0 * e == 3.0 * (d + e);
      assert a * (3.0 * d) / 2.0 == (3.0 / 2.0 * a) * d;
    }
  }

  lemma {:induction false} CantorStretch(x: real, y: real, n: nat)
    requires 0.0 <= x <= y <= 1.0
    ensures Cantor(y, n) - Cantor(x, n) <= Stretch(y - x, n)
    decreases n
  {
    hide Cantor;
    CantorStep(x, n);
    CantorStep(y, n);
    if n > 0 {
      var z := 1.0 / 3.0;
      if x <= z {
        var e := if y <= z then y else z;
        CantorStep(e, n);
        CantorStretch(3.0 * x, 3.0 * e, n - 1);
        assert 3.0 * e - 3.0 * x == 3.0 * (e - x);
      }
      if y >= 2.0 * z {
        var e := if x >= 2.0 * z then x else 2.0 * z;
        CantorStep(e, n);
        CantorStretch(3.0 * e - 2.0, 3.0 * y - 2.0, n - 1);
        assert 3.0 * y - 2.0 - (3.0 * e - 2.0) == 3.0 * (y - e);
      }
      CantorThirds(n);
      StretchLinear(z - x, y - z, n);
      StretchLinear(y - z, 0.0, n);
      StretchLinear(2.0 * z - x, y - 2.0 * z, n);
      StretchLinear(z - x, z, n);
      StretchLinear(y - 2.0 * z, 2.0 * z - x, n);
      StretchLinear(y - x, 0.0, n);
      StretchLinear(2.0 * z - x, 0.0, n);
      StretchLinear(z, 0.0, n);
    }
  }

  /** Both inner points of level 1 have the value 1/2. */
  lemma CantorThirds(n: nat)
    requires n > 0
    ensures Cantor(1.0 / 3.0, n) == Cantor(2.0 / 3.0, n) == 1.0 / 2.0
  {
  }

  /** Cut off after n levels, the function has Lipschitz constant (3/2)^n on [0, 1]. */
  lemma CantorLipschitz(x: real, d: real, n: nat)
    requires 0.0 <= x <= x + d <= 1.0
    ensures 0.0 <= Cantor(x + d, n) - Cantor(x, n) <= Power(3.0 / 2.0, n) * d
  {
    hide Cantor, Stretch;
    CantorMonotone(x, x + d, n);
    CantorStretch(x, x + d, n);
    assert x + d - x == d;
    StretchLinear(d, 0.0, n);
  }

  lemma {:induction false} CantorBelowLine(x: real, n: int)
    requires 0.0 <= x <= 1.0
    ensures Cantor(x, n) <= 1.0 / 3.0 + 2.0 * x / 3.0
    decreases n
  {
    hide Cantor;
    CantorStep(x, n);
    if n > 0 {
      if x <= 1.0 / 3.0 {
        CantorBelowLine(3.0 * x, n - 1);
      } else if x >= 2.0 / 3.0 {
        CantorBelowLine(3.0 * x - 2.0, n - 1);
      }
    }
  }

  lemma CantorNearDiagonal(x: real, n: int)
    requires 0.0 <= x <= 1.0
    ensures -1.0 / 6.0 <= Cantor(x, n) - x <= 1.0 / 6.0
  {
    hide Cantor;
    CantorStep(x, n);
    if n > 0 {
      if x <= 1.0 / 3.0 {
        CantorBelowLine(3.0 * x, n - 1);
        CantorBelowLine(1.0 - 3.0 * x, n - 1);
        CantorSymmetric(3.0 * x, n - 1);
      } else if x >= 2.0 / 3.0 {
        CantorBelowLine(3.0 * x - 2.0, n - 1);
        CantorBelowLine(1.0 - (3.0 * x - 2.0), n - 1);
        CantorSymmetric(3.0 * x - 2.0, n - 1);
      }
    }
  }

  /** Further levels move no value by more than 1 / (6 * 2^n). */
  lemma {:induction false} CantorConverges(x: real, n: nat, k: nat)
    requires 0.0 <= x <= 1.0
    ensures -Power(1.0 / 2.0, n) / 6.0 <= Cantor(x, n + k) - Cantor(x, n) <= Power(1.0 / 2.0, n) / 6.0
    decreases n
  {
    hide Cantor;
    CantorStep(x, n);
    CantorStep(x, n + k);
    if n == 0 {
      CantorNearDiagonal(x, k);
    } else if x <= 1.0 / 3.0 {
      CantorConverges(3.0 * x, n - 1, k);
    } else if x >= 2.0 / 3.0 {
      CantorConverges(3.0 * x - 2.0, n - 1, k);
    } else {
      PowerPositive(1.0 / 2.0, n);
    }
  }

  lemma {:induction false} PowerPositive(b: real, n: nat)
    requires b > 0.0
    ensures Power(b, n) > 0.0
  {
    if n > 0 { PowerPositive(b, n - 1); }
  }

  /** The bound is reached: one more level moves the value at 3^-(n+1) by exactly 1 / (6 * 2^n). */
  lemma {:induction false} CantorConvergenceIsTight(n: nat)
    ensures 0.0 < Power(1.0 / 3.0, n + 1) <= 1.0 / 3.0
    ensures var x := Power(1.0 / 3.0, n + 1);
      Cantor(x, n + 1) - Cantor(x, n) == Power(1.0 / 2.0, n) / 6.0
  {
    if n > 0 {
      CantorConvergenceIsTight(n - 1);
      assert 3.0 * Power(1.0 / 3.0, n + 1) == Power(1.0 / 3.0, n);
    }
  }
}
