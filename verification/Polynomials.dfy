/**
 The polynomials of the rational function package: sums of terms in a main variable, highest exponent first,
 whose coefficients are numbers or polynomials in later variables.

 Coefficients are integers without a modulus, and no variable is an algebraic number. Each operation
 keeps polynomials in canonical form. Operations on terms are given the main variable v for their contracts only.
 */
module Polynomials {
  import opened Wrappers

  /** A variable is its place in the order of pointergp; the main variable has the greatest. */
  datatype Poly = Num(n: int) | Sum(v: nat, ts: Terms)

  datatype Terms = Nil | Term(le: nat, lc: Poly, red: Terms)

  const ZERO: Poly := Num(0)

  function Max(a: nat, b: nat): nat {
    if a < b then b else a
  }

  /** One more than the main variable, and than the degree; 0 if there is none. */
  function Rank(p: Poly): nat {
    if p.Num? then 0 else p.v + 1
  }

  function Deg(ts: Terms): nat {
    if ts.Nil? then 0 else ts.le + 1
  }

  /** Neither zero coefficients nor a constant in the place of a sum. */
  predicate Canon(p: Poly) {
    p.Sum? ==> CanonTerms(p.ts, p.v) && Deg(p.ts) > 1
  }

  /** Exponents fall, and coefficients are not zero and in variables that come after v. */
  predicate CanonTerms(ts: Terms, v: nat) {
    ts.Term? ==>
      Canon(ts.lc) && ts.lc != ZERO && Rank(ts.lc) <= v && Deg(ts.red) <= ts.le && CanonTerms(ts.red, v)
  }

  ghost function Size(p: Poly): nat {
    if p.Num? then 1 else 1 + SizeOf(p.ts)
  }

  ghost function SizeOf(ts: Terms): nat {
    if ts.Nil? then 0 else 1 + Size(ts.lc) + SizeOf(ts.red)
  }

  /** psimp. */
  function PSimp(v: nat, ts: Terms): (r: Poly)
    requires CanonTerms(ts, v)
    ensures Canon(r) && Rank(r) <= v + 1 && (r == ZERO <==> ts == Nil)
  {
    if ts.Nil? then ZERO else if ts.le == 0 then ts.lc else Sum(v, ts)
  }

  /** pcoefadd. */
  function PCoefAdd(e: nat, c: Poly, rest: Terms, v: nat): (r: Terms)
    requires Canon(c) && Rank(c) <= v && CanonTerms(rest, v) && Deg(rest) <= e
    ensures CanonTerms(r, v) && Deg(r) <= e + 1
  {
    if c == ZERO then rest else Term(e, c, rest)
  }

  // ---------- sums ----------

  /** pplus. */
  function PPlus(x: Poly, y: Poly): (r: Poly)
    requires Canon(x) && Canon(y)
    ensures Canon(r) && Rank(r) <= Max(Rank(x), Rank(y))
    decreases Size(x) + Size(y), 1
  {
    if x.Num? then PCPlus(x.n, y)
    else if y.Num? then PCPlus(y.n, x)
    else if x.v == y.v then PSimp(x.v, PtPtPlus(y.ts, x.ts, x.v))
    else if x.v > y.v then PSimp(x.v, PtCPlus(y, x.ts, x.v))
    else PSimp(y.v, PtCPlus(x, y.ts, y.v))
  }

  /** ptptplus. */
  function PtPtPlus(x: Terms, y: Terms, v: nat): (r: Terms)
    requires CanonTerms(x, v) && CanonTerms(y, v)
    ensures CanonTerms(r, v) && Deg(r) <= Max(Deg(x), Deg(y))
    decreases SizeOf(x) + SizeOf(y), 0
  {
    if x.Nil? then y
    else if y.Nil? then x
    else if x.le == y.le then PCoefAdd(x.le, PPlus(x.lc, y.lc), PtPtPlus(x.red, y.red, v), v)
    else if x.le > y.le then Term(x.le, x.lc, PtPtPlus(x.red, y, v))
    else Term(y.le, y.lc, PtPtPlus(x, y.red, v))
  }

  /** pcplus. */
  function PCPlus(c: int, p: Poly): (r: Poly)
    requires Canon(p)
    ensures Canon(r) && Rank(r) <= Rank(p)
    decreases 1 + Size(p), 0
  {
    if p.Num? then Num(p.n + c) else PSimp(p.v, PtCPlus(Num(c), p.ts, p.v))
  }

  /** ptcplus: c may be a polynomial in variables after the main one. */
  function PtCPlus(c: Poly, ts: Terms, v: nat): (r: Terms)
    requires Canon(c) && Rank(c) <= v && CanonTerms(ts, v)
    ensures CanonTerms(r, v) && Deg(r) <= Max(Deg(ts), 1)
    decreases Size(c) + SizeOf(ts), 0
  {
    if c == ZERO then ts
    else if ts.Nil? then Term(0, c, Nil)
    else if ts.le == 0 then PCoefAdd(0, PPlus(c, ts.lc), Nil, v)
    else Term(ts.le, ts.lc, PtCPlus(c, ts.red, v))
  }

  // ---------- differences ----------

  /** pminus. */
  function PMinus(p: Poly): (r: Poly)
    requires Canon(p)
    ensures Canon(r) && Rank(r) == Rank(p) && (r == ZERO <==> p == ZERO)
  {
    if p.Num? then Num(-p.n) else Sum(p.v, PtMinus(p.ts, p.v))
  }

  /** ptminus. */
  function PtMinus(ts: Terms, v: nat): (r: Terms)
    requires CanonTerms(ts, v)
    ensures CanonTerms(r, v) && Deg(r) == Deg(ts)
  {
    if ts.Nil? then Nil else Term(ts.le, PMinus(ts.lc), PtMinus(ts.red, v))
  }

  /** pdifference. */
  function PDifference(x: Poly, y: Poly): (r: Poly)
    requires Canon(x) && Canon(y)
    ensures Canon(r) && Rank(r) <= Max(Rank(x), Rank(y))
    decreases Size(x) + Size(y), 1
  {
    if x.Num? then PCDiffer(x.n, y)
    else if y.Num? then PCPlus(-y.n, x)
    else if x.v == y.v then PSimp(x.v, PtPtDiffer(x.ts, y.ts, x.v))
    else if x.v > y.v then PSimp(x.v, PtCDifferMinus(x.ts, y, x.v))
    else PSimp(y.v, PtCDiffer(x, y.ts, y.v))
  }

  /** ptptdiffer. */
  function PtPtDiffer(x: Terms, y: Terms, v: nat): (r: Terms)
    requires CanonTerms(x, v) && CanonTerms(y, v)
    ensures CanonTerms(r, v) && Deg(r) <= Max(Deg(x), Deg(y))
    decreases SizeOf(x) + SizeOf(y), 0
  {
    if x.Nil? then PtMinus(y, v)
    else if y.Nil? then x
    else if x.le == y.le then PCoefAdd(x.le, PDifference(x.lc, y.lc), PtPtDiffer(x.red, y.red, v), v)
    else if x.le > y.le then Term(x.le, x.lc, PtPtDiffer(x.red, y, v))
    else Term(y.le, PMinus(y.lc), PtPtDiffer(x, y.red, v))
  }

  /** pcdiffer. */
  function PCDiffer(c: int, p: Poly): (r: Poly)
    requires Canon(p)
    ensures Canon(r) && Rank(r) <= Rank(p)
    decreases 1 + Size(p), 0
  {
    if p.Num? then Num(c - p.n) else PSimp(p.v, PtCDiffer(Num(c), p.ts, p.v))
  }

  /** ptcdiffer. */
  function PtCDiffer(c: Poly, ts: Terms, v: nat): (r: Terms)
    requires Canon(c) && Rank(c) <= v && CanonTerms(ts, v)
    ensures CanonTerms(r, v) && Deg(r) <= Max(Deg(ts), 1)
    decreases Size(c) + SizeOf(ts), 0
  {
    if ts.Nil? then (if c == ZERO then Nil else Term(0, c, Nil))
    else if ts.le == 0 then PCoefAdd(0, PDifference(c, ts.lc), Nil, v)
    else Term(ts.le, PMinus(ts.lc), PtCDiffer(c, ts.red, v))
  }

  /** ptcdiffer-minus. */
  function PtCDifferMinus(ts: Terms, c: Poly, v: nat): (r: Terms)
    requires Canon(c) && Rank(c) <= v && CanonTerms(ts, v)
    ensures CanonTerms(r, v) && Deg(r) <= Max(Deg(ts), 1)
    decreases Size(c) + SizeOf(ts), 0
  {
    if c == ZERO then ts
    else if ts.Nil? then Term(0, PMinus(c), Nil)
    else if ts.le == 0 then PCoefAdd(0, PDifference(ts.lc, c), Nil, v)
    else Term(ts.le, ts.lc, PtCDifferMinus(ts.red, c, v))
  }

  // ---------- products ----------

  /** ptimes. */
  function PTimes(x: Poly, y: Poly): (r: Poly)
    requires Canon(x) && Canon(y)
    ensures Canon(r) && Rank(r) <= Max(Rank(x), Rank(y))
    decreases Size(x) + Size(y), 2
  {
    if x.Num? then (if x == ZERO then ZERO else PCTimes(x.n, y))
    else if y.Num? then (if y == ZERO then ZERO else PCTimes(y.n, x))
    else if x.v == y.v then PSimp(x.v, PTimes1(x.ts, y.ts, x.v))
    else if x.v > y.v then PSimp(x.v, PCTimes1(y, x.ts, x.v))
    else PSimp(y.v, PCTimes1(x, y.ts, y.v))
  }

  /** pctimes. */
  function PCTimes(c: int, p: Poly): (r: Poly)
    requires Canon(p)
    ensures Canon(r) && Rank(r) <= Rank(p)
    decreases 1 + Size(p), 1
  {
    if p.Num? then Num(c * p.n) else PSimp(p.v, PCTimes1(Num(c), p.ts, p.v))
  }

  /** pctimes1. */
  function PCTimes1(c: Poly, ts: Terms, v: nat): (r: Terms)
    requires Canon(c) && Rank(c) <= v && CanonTerms(ts, v)
    ensures CanonTerms(r, v) && Deg(r) <= Deg(ts)
    decreases Size(c) + SizeOf(ts), 0
  {
    if ts.Nil? then Nil else PCoefAdd(ts.le, PTimes(c, ts.lc), PCTimes1(c, ts.red, v), v)
  }

  /** pcetimes1: c times the e-th power of the variable times the terms. */
  function PCETimes1(ts: Terms, e: nat, c: Poly, v: nat): (r: Terms)
    requires Canon(c) && Rank(c) <= v && CanonTerms(ts, v)
    ensures CanonTerms(r, v) && Deg(r) <= Deg(ts) + e && (ts.Nil? ==> r.Nil?)
    decreases Size(c) + SizeOf(ts), 0
  {
    if ts.Nil? then Nil else PCoefAdd(e + ts.le, PTimes(c, ts.lc), PCETimes1(ts.red, e, c, v), v)
  }

  /** ptimes1: the rows of the product added up, one for each term of x. */
  function PTimes1(x: Terms, y: Terms, v: nat): (r: Terms)
    requires CanonTerms(x, v) && CanonTerms(y, v) && x.Term?
    ensures CanonTerms(r, v)
    decreases SizeOf(x) + SizeOf(y), 1
  {
    Rows(PCETimes1(y, x.le, x.lc, v), x.red, y, v)
  }

  function Rows(sum: Terms, x: Terms, y: Terms, v: nat): (r: Terms)
    requires CanonTerms(sum, v) && CanonTerms(x, v) && CanonTerms(y, v)
    ensures CanonTerms(r, v)
    decreases SizeOf(x) + SizeOf(y), 0
  {
    if x.Nil? then sum else Rows(PtPtPlus(sum, PCETimes1(y, x.le, x.lc, v), v), x.red, y, v)
  }

  // ---------- values ----------

  /** The value of a variable; variables that are given none are 0. */
  function At(env: seq<int>, v: nat): int {
    if v < |env| then env[v] else 0
  }

  function Pow(x: int, n: nat): int {
    if n == 0 then 1 else Pow(x, n - 1) * x
  }

  function Eval(p: Poly, env: seq<int>): int {
    match p
    case Num(n) => n
    case Sum(v, ts) => EvalTerms(ts, At(env, v), env)
  }

  /** The value of terms in a variable whose value is x. */
  function EvalTerms(ts: Terms, x: int, env: seq<int>): int {
    match ts
    case Nil => 0
    case Term(e, c, red) => Eval(c, env) * Pow(x, e) + EvalTerms(red, x, env)
  }

  lemma SimpValue(v: nat, ts: Terms, env: seq<int>)
    requires CanonTerms(ts, v)
    ensures Eval(PSimp(v, ts), env) == EvalTerms(ts, At(env, v), env)
  {
  }

  lemma AddTermValue(e: nat, c: Poly, rest: Terms, v: nat, x: int, env: seq<int>)
    requires Canon(c) && Rank(c) <= v && CanonTerms(rest, v) && Deg(rest) <= e
    ensures EvalTerms(PCoefAdd(e, c, rest, v), x, env) == Eval(c, env) * Pow(x, e) + EvalTerms(rest, x, env)
  {
  }

  lemma Distribute(a: int, b: int, c: int)
    ensures (a + b) * c == a * c + b * c
    ensures (a - b) * c == a * c - b * c
  {
  }

  /** The value of a sum is the sum of the values. */
  lemma {:induction false} PlusValue(x: Poly, y: Poly, env: seq<int>)
    requires Canon(x) && Canon(y)
    ensures Eval(PPlus(x, y), env) == Eval(x, env) + Eval(y, env)
    decreases Size(x) + Size(y), 1
  {
    hide PSimp, PtPtPlus, PtCPlus, Pow, CanonTerms, EvalTerms;
    if x.Num? {
      PCPlusValue(x.n, y, env);
    } else if y.Num? {
      PCPlusValue(y.n, x, env);
    } else if x.v == y.v {
      PtPtPlusValue(y.ts, x.ts, x.v, At(env, x.v), env);
      SimpValue(x.v, PtPtPlus(y.ts, x.ts, x.v), env);
    } else if x.v > y.v {
      PtCPlusValue(y, x.ts, x.v, At(env, x.v), env);
      SimpValue(x.v, PtCPlus(y, x.ts, x.v), env);
    } else {
      PtCPlusValue(x, y.ts, y.v, At(env, y.v), env);
      SimpValue(y.v, PtCPlus(x, y.ts, y.v), env);
    }
  }

  lemma {:induction false} PCPlusValue(c: int, p: Poly, env: seq<int>)
    requires Canon(p)
    ensures Eval(PCPlus(c, p), env) == c + Eval(p, env)
    decreases 1 + Size(p), 0
  {
    hide PSimp, PtCPlus, Pow, CanonTerms, EvalTerms;
    if p.Sum? {
      PtCPlusValue(Num(c), p.ts, p.v, At(env, p.v), env);
      SimpValue(p.v, PtCPlus(Num(c), p.ts, p.v), env);
    }
  }

  lemma {:induction false} PtPtPlusValue(x: Terms, y: Terms, v: nat, a: int, env: seq<int>)
    requires CanonTerms(x, v) && CanonTerms(y, v)
    ensures EvalTerms(PtPtPlus(x, y, v), a, env) == EvalTerms(x, a, env) + EvalTerms(y, a, env)
    decreases SizeOf(x) + SizeOf(y), 0
  {
    hide PPlus, PCoefAdd, Pow, Eval, Canon, Rank;
    if x.Term? && y.Term? {
      if x.le == y.le {
        PlusValue(x.lc, y.lc, env);
        PtPtPlusValue(x.red, y.red, v, a, env);
        AddTermValue(x.le, PPlus(x.lc, y.lc), PtPtPlus(x.red, y.red, v), v, a, env);
        Distribute(Eval(x.lc, env), Eval(y.lc, env), Pow(a, x.le));
      } else if x.le > y.le {
        PtPtPlusValue(x.red, y, v, a, env);
      } else {
        PtPtPlusValue(x, y.red, v, a, env);
      }
    }
  }

  lemma {:induction false} PtCPlusValue(c: Poly, ts: Terms, v: nat, a: int, env: seq<int>)
    requires Canon(c) && Rank(c) <= v && CanonTerms(ts, v)
    ensures EvalTerms(PtCPlus(c, ts, v), a, env) == Eval(c, env) + EvalTerms(ts, a, env)
    decreases Size(c) + SizeOf(ts), 0
  {
    assert Pow(a, 0) == 1 && Eval(ZERO, env) == 0;
    hide PPlus, PCoefAdd, Canon, Rank, Eval;
    if c != ZERO && ts.Term? {
      if ts.le == 0 {
        PlusValue(c, ts.lc, env);
        AddTermValue(0, PPlus(c, ts.lc), Nil, v, a, env);
      } else {
        PtCPlusValue(c, ts.red, v, a, env);
      }
    }
  }

  lemma {:induction false} MinusValue(p: Poly, env: seq<int>)
    requires Canon(p)
    ensures Eval(PMinus(p), env) == -Eval(p, env)
  {
    if p.Sum? { PtMinusValue(p.ts, p.v, At(env, p.v), env); }
  }

  lemma {:induction false} PtMinusValue(ts: Terms, v: nat, a: int, env: seq<int>)
    requires CanonTerms(ts, v)
    ensures EvalTerms(PtMinus(ts, v), a, env) == -EvalTerms(ts, a, env)
  {
    hide Eval, Pow, PMinus;
    if ts.Term? {
      MinusValue(ts.lc, env);
      PtMinusValue(ts.red, v, a, env);
      Distribute(0, Eval(ts.lc, env), Pow(a, ts.le));
    }
  }

  /** The value of a difference is the difference of the values. */
  lemma {:induction false} DifferenceValue(x: Poly, y: Poly, env: seq<int>)
    requires Canon(x) && Canon(y)
    ensures Eval(PDifference(x, y), env) == Eval(x, env) - Eval(y, env)
    decreases Size(x) + Size(y), 1
  {
    hide PSimp, PtPtDiffer, PtCDiffer, PtCDifferMinus, PCPlus, Pow, CanonTerms, EvalTerms;
    if x.Num? {
      PCDifferValue(x.n, y, env);
    } else if y.Num? {
      PCPlusValue(-y.n, x, env);
    } else if x.v == y.v {
      PtPtDifferValue(x.ts, y.ts, x.v, At(env, x.v), env);
      SimpValue(x.v, PtPtDiffer(x.ts, y.ts, x.v), env);
    } else if x.v > y.v {
      PtCDifferMinusValue(x.ts, y, x.v, At(env, x.v), env);
      SimpValue(x.v, PtCDifferMinus(x.ts, y, x.v), env);
    } else {
      PtCDifferValue(x, y.ts, y.v, At(env, y.v), env);
      SimpValue(y.v, PtCDiffer(x, y.ts, y.v), env);
    }
  }

  lemma {:induction false} PCDifferValue(c: int, p: Poly, env: seq<int>)
    requires Canon(p)
    ensures Eval(PCDiffer(c, p), env) == c - Eval(p, env)
    decreases 1 + Size(p), 0
  {
    hide PSimp, PtCDiffer, Pow, CanonTerms, EvalTerms;
    if p.Sum? {
      PtCDifferValue(Num(c), p.ts, p.v, At(env, p.v), env);
      SimpValue(p.v, PtCDiffer(Num(c), p.ts, p.v), env);
    }
  }

  lemma {:induction false} PtPtDifferValue(x: Terms, y: Terms, v: nat, a: int, env: seq<int>)
    requires CanonTerms(x, v) && CanonTerms(y, v)
    ensures EvalTerms(PtPtDiffer(x, y, v), a, env) == EvalTerms(x, a, env) - EvalTerms(y, a, env)
    decreases SizeOf(x) + SizeOf(y), 0
  {
    hide PDifference, PCoefAdd, PMinus, PtMinus, Pow, Eval, Canon, Rank;
    if x.Nil? {
      PtMinusValue(y, v, a, env);
    } else if y.Term? {
      if x.le == y.le {
        DifferenceValue(x.lc, y.lc, env);
        PtPtDifferValue(x.red, y.red, v, a, env);
        AddTermValue(x.le, PDifference(x.lc, y.lc), PtPtDiffer(x.red, y.red, v), v, a, env);
        Distribute(Eval(x.lc, env), Eval(y.lc, env), Pow(a, x.le));
      } else if x.le > y.le {
        PtPtDifferValue(x.red, y, v, a, env);
      } else {
        PtPtDifferValue(x, y.red, v, a, env);
        MinusValue(y.lc, env);
        Distribute(0, Eval(y.lc, env), Pow(a, y.le));
      }
    }
  }

  lemma {:induction false} PtCDifferValue(c: Poly, ts: Terms, v: nat, a: int, env: seq<int>)
    requires Canon(c) && Rank(c) <= v && CanonTerms(ts, v)
    ensures EvalTerms(PtCDiffer(c, ts, v), a, env) == Eval(c, env) - EvalTerms(ts, a, env)
    decreases Size(c) + SizeOf(ts), 0
  {
    assert Pow(a, 0) == 1 && Eval(ZERO, env) == 0;
    hide PDifference, PCoefAdd, PMinus, Canon, Rank, Eval;
    if ts.Term? {
      if ts.le == 0 {
        DifferenceValue(c, ts.lc, env);
        AddTermValue(0, PDifference(c, ts.lc), Nil, v, a, env);
      } else {
        MinusValue(ts.lc, env);
        PtCDifferValue(c, ts.red, v, a, env);
        Distribute(0, Eval(ts.lc, env), Pow(a, ts.le));
      }
    }
  }

  lemma {:induction false} PtCDifferMinusValue(ts: Terms, c: Poly, v: nat, a: int, env: seq<int>)
    requires Canon(c) && Rank(c) <= v && CanonTerms(ts, v)
    ensures EvalTerms(PtCDifferMinus(ts, c, v), a, env) == EvalTerms(ts, a, env) - Eval(c, env)
    decreases Size(c) + SizeOf(ts), 0
  {
    assert Pow(a, 0) == 1 && Eval(ZERO, env) == 0;
    hide PDifference, PCoefAdd, PMinus, Canon, Rank, Eval;
    if c != ZERO {
      if ts.Nil? {
        MinusValue(c, env);
      } else if ts.le == 0 {
        DifferenceValue(ts.lc, c, env);
        AddTermValue(0, PDifference(ts.lc, c), Nil, v, a, env);
      } else {
        PtCDifferMinusValue(ts.red, c, v, a, env);
      }
    }
  }

  lemma {:induction false} PowSum(x: int, m: nat, n: nat)
    ensures Pow(x, m + n) == Pow(x, m) * Pow(x, n)
    decreases n
  {
    if n > 0 {
      PowSum(x, m, n - 1);
      assert Pow(x, m) * Pow(x, n - 1) * x == Pow(x, m) * (Pow(x, n - 1) * x);
    }
  }

  /** The value of a product is the product of the values. */
  lemma {:induction false} TimesValue(x: Poly, y: Poly, env: seq<int>)
    requires Canon(x) && Canon(y)
    ensures Eval(PTimes(x, y), env) == Eval(x, env) * Eval(y, env)
    decreases Size(x) + Size(y), 2
  {
    hide PSimp, PTimes1, PCTimes1, PCTimes, Pow, CanonTerms, EvalTerms;
    if x.Num? {
      PCTimesValue(x.n, y, env);
    } else if y.Num? {
      PCTimesValue(y.n, x, env);
    } else if x.v == y.v {
      PTimes1Value(x.ts, y.ts, x.v, At(env, x.v), env);
      SimpValue(x.v, PTimes1(x.ts, y.ts, x.v), env);
    } else if x.v > y.v {
      PCTimes1Value(y, x.ts, x.v, At(env, x.v), env);
      SimpValue(x.v, PCTimes1(y, x.ts, x.v), env);
    } else {
      PCTimes1Value(x, y.ts, y.v, At(env, y.v), env);
      SimpValue(y.v, PCTimes1(x, y.ts, y.v), env);
    }
  }

  lemma {:induction false} PCTimesValue(c: int, p: Poly, env: seq<int>)
    requires Canon(p)
    ensures Eval(PCTimes(c, p), env) == c * Eval(p, env)
    decreases 1 + Size(p), 1
  {
    hide PSimp, PCTimes1, Pow, CanonTerms, EvalTerms;
    if p.Sum? {
      PCTimes1Value(Num(c), p.ts, p.v, At(env, p.v), env);
      SimpValue(p.v, PCTimes1(Num(c), p.ts, p.v), env);
    }
  }

  lemma TermTimes(c: int, b: int, p: int, rest: int)
    ensures c * b * p + c * rest == c * (b * p + rest)
  {
  }

  lemma {:induction false} PCTimes1Value(c: Poly, ts: Terms, v: nat, a: int, env: seq<int>)
    requires Canon(c) && Rank(c) <= v && CanonTerms(ts, v)
    ensures EvalTerms(PCTimes1(c, ts, v), a, env) == Eval(c, env) * EvalTerms(ts, a, env)
    decreases Size(c) + SizeOf(ts), 0
  {
    hide PTimes, PCoefAdd, Canon, Rank, Eval, Pow;
    if ts.Term? {
      TimesValue(c, ts.lc, env);
      PCTimes1Value(c, ts.red, v, a, env);
      AddTermValue(ts.le, PTimes(c, ts.lc), PCTimes1(c, ts.red, v), v, a, env);
      TermTimes(Eval(c, env), Eval(ts.lc, env), Pow(a, ts.le), EvalTerms(ts.red, a, env));
    }
  }

  lemma ShiftedTermTimes(c: int, b: int, pe: int, pl: int, p: int, rest: int)
    requires p == pe * pl
    ensures c * b * p + c * pe * rest == c * pe * (b * pl + rest)
  {
    assert c * b * (pe * pl) == c * pe * (b * pl);
  }

  lemma {:induction false} PCETimes1Value(ts: Terms, e: nat, c: Poly, v: nat, a: int, env: seq<int>)
    requires Canon(c) && Rank(c) <= v && CanonTerms(ts, v)
    ensures EvalTerms(PCETimes1(ts, e, c, v), a, env) == Eval(c, env) * Pow(a, e) * EvalTerms(ts, a, env)
    decreases Size(c) + SizeOf(ts), 0
  {
    hide PTimes, PCoefAdd, Canon, Rank, Eval, Pow;
    if ts.Term? {
      TimesValue(c, ts.lc, env);
      PCETimes1Value(ts.red, e, c, v, a, env);
      AddTermValue(e + ts.le, PTimes(c, ts.lc), PCETimes1(ts.red, e, c, v), v, a, env);
      PowSum(a, e, ts.le);
      ShiftedTermTimes(Eval(c, env), Eval(ts.lc, env), Pow(a, e), Pow(a, ts.le), Pow(a, e + ts.le), EvalTerms(ts.red, a, env));
    }
  }

  lemma {:induction false} PTimes1Value(x: Terms, y: Terms, v: nat, a: int, env: seq<int>)
    requires CanonTerms(x, v) && CanonTerms(y, v) && x.Term?
    ensures EvalTerms(PTimes1(x, y, v), a, env) == EvalTerms(x, a, env) * EvalTerms(y, a, env)
    decreases SizeOf(x) + SizeOf(y), 1
  {
    hide Rows, PCETimes1, Canon, Rank, Eval, Pow;
    PCETimes1Value(y, x.le, x.lc, v, a, env);
    RowsValue(PCETimes1(y, x.le, x.lc, v), x.red, y, v, a, env);
    Distribute(Eval(x.lc, env) * Pow(a, x.le), EvalTerms(x.red, a, env), EvalTerms(y, a, env));
  }

  lemma {:induction false} RowsValue(sum: Terms, x: Terms, y: Terms, v: nat, a: int, env: seq<int>)
    requires CanonTerms(sum, v) && CanonTerms(x, v) && CanonTerms(y, v)
    ensures EvalTerms(Rows(sum, x, y, v), a, env) ==
            EvalTerms(sum, a, env) + EvalTerms(x, a, env) * EvalTerms(y, a, env)
    decreases SizeOf(x) + SizeOf(y), 0
  {
    hide PCETimes1, PtPtPlus, Canon, Rank, Eval, Pow;
    if x.Term? {
      var row := PCETimes1(y, x.le, x.lc, v);
      PCETimes1Value(y, x.le, x.lc, v, a, env);
      PtPtPlusValue(sum, row, v, a, env);
      RowsValue(PtPtPlus(sum, row, v), x.red, y, v, a, env);
      Distribute(Eval(x.lc, env) * Pow(a, x.le), EvalTerms(x.red, a, env), EvalTerms(y, a, env));
    }
  }

  // ---------- a polynomial is determined by its values ----------

  /** The variables before v in the order keep their values, and v gets the value x. */
  function Put(env: seq<int>, v: nat, x: int): (r: seq<int>)
    ensures forall w: nat :: w < v ==> At(r, w) == At(env, w)
    ensures At(r, v) == x
  {
    seq(v, i requires 0 <= i < v => At(env, i)) + [x]
  }

  /** Only the variables that occur in it matter for the value of a polynomial. */
  lemma {:induction false} ValueBelow(p: Poly, v: nat, env: seq<int>, env': seq<int>)
    requires Canon(p) && Rank(p) <= v && forall w: nat :: w < v ==> At(env, w) == At(env', w)
    ensures Eval(p, env) == Eval(p, env')
  {
    if p.Sum? { TermsBelow(p.ts, p.v, At(env, p.v), env, env'); }
  }

  lemma {:induction false} TermsBelow(ts: Terms, v: nat, x: int, env: seq<int>, env': seq<int>)
    requires CanonTerms(ts, v) && forall w: nat :: w < v ==> At(env, w) == At(env', w)
    ensures EvalTerms(ts, x, env) == EvalTerms(ts, x, env')
  {
    if ts.Term? {
      ValueBelow(ts.lc, v, env, env');
      TermsBelow(ts.red, v, x, env, env');
    }
  }

  function Abs(n: int): nat {
    if n < 0 then -n else n
  }

  /** The absolute values of the coefficients added up. */
  function Weight(ts: Terms, env: seq<int>): nat {
    match ts
    case Nil => 0
    case Term(_, c, red) => Abs(Eval(c, env)) + Weight(red, env)
  }

  lemma {:induction false} PowGrows(x: int, m: nat, n: nat)
    requires x >= 1 && m <= n
    ensures 1 <= Pow(x, m) <= Pow(x, n)
    decreases n
  {
    if n > 0 {
      if m == n { PowGrows(x, m - 1, n - 1); } else { PowGrows(x, m, n - 1); }
      var p := Pow(x, n - 1);
      assert p * x - p == p * (x - 1);
    }
  }

  lemma TermBound(c: int, p: int, q: int)
    requires 0 <= p <= q
    ensures Abs(c * p) <= Abs(c) * q
  {
    assert Abs(c * p) == Abs(c) * p;
    assert Abs(c) * q - Abs(c) * p == Abs(c) * (q - p);
  }

  lemma {:induction false} ValueBound(ts: Terms, v: nat, x: int, env: seq<int>, n: nat)
    requires CanonTerms(ts, v) && x >= 1 && Deg(ts) <= n + 1
    ensures Abs(EvalTerms(ts, x, env)) <= Weight(ts, env) * Pow(x, n)
  {
    hide Eval, Pow, Canon, Rank;
    if ts.Term? {
      ValueBound(ts.red, v, x, env, n);
      PowGrows(x, ts.le, n);
      TermBound(Eval(ts.lc, env), Pow(x, ts.le), Pow(x, n));
      Distribute(Abs(Eval(ts.lc, env)), Weight(ts.red, env), Pow(x, n));
    }
  }

  lemma Multiple(k: int, q: int)
    requires k >= 1 && q >= 0
    ensures k * q >= q
  {
  }

  lemma AbsOfMultiple(c: int, q: int)
    requires q >= 0
    ensures Abs(c * q) == Abs(c) * q
  {
  }

  lemma Outweighs(c: int, w: int, x: int, p: int, q: int, rest: int)
    requires c != 0 && 0 <= w < x && p >= 1 && q == p * x && Abs(rest) <= w * p
    ensures c * q + rest != 0
  {
    Multiple(x - w, p);
    Distribute(x, w, p);
    AbsOfMultiple(c, q);
    Multiple(x, p);
    Multiple(Abs(c), q);
  }

  /** Where the leading coefficient is not 0 a large enough value of the variable makes the value not 0. */
  lemma LeadDecides(ts: Terms, v: nat, x: int, env: seq<int>)
    requires CanonTerms(ts, v) && ts.Term? && Eval(ts.lc, env) != 0 && x > Weight(ts, env)
    ensures EvalTerms(ts, x, env) != 0
  {
    hide Eval, Canon, Rank;
    if ts.le == 0 {
      assert Pow(x, 0) == 1 && ts.red == Nil;
    } else {
      ValueBound(ts.red, v, x, env, ts.le - 1);
      PowGrows(x, 0, ts.le - 1);
      assert Pow(x, ts.le) == Pow(x, ts.le - 1) * x;
      Outweighs(Eval(ts.lc, env), Weight(ts.red, env), x, Pow(x, ts.le - 1), Pow(x, ts.le), EvalTerms(ts.red, x, env));
    }
  }

  /** Two polynomials other than 0 have a point where neither is 0. */
  lemma {:induction false} NonzeroTogether(p: Poly, q: Poly) returns (env: seq<int>)
    requires Canon(p) && Canon(q) && p != ZERO && q != ZERO
    ensures Eval(p, env) != 0 && Eval(q, env) != 0
    decreases Size(p) + Size(q)
  {
    var rank := Max(Rank(p), Rank(q));
    if rank == 0 {
      env := [];
    } else {
      var v := rank - 1;
      var p', q' := if Rank(p) == rank then p.ts.lc else p, if Rank(q) == rank then q.ts.lc else q;
      assert Size(p') + Size(q') < Size(p) + Size(q);
      var below := NonzeroTogether(p', q');
      var x := 1 + (if Rank(p) == rank then Weight(p.ts, below) else 0) + (if Rank(q) == rank then Weight(q.ts, below) else 0);
      env := Put(below, v, x);
      NonzeroAt(p, v, below, x);
      NonzeroAt(q, v, below, x);
    }
  }

  lemma NonzeroAt(p: Poly, v: nat, below: seq<int>, x: int)
    requires Canon(p) && Rank(p) <= v + 1
    requires Eval(if Rank(p) == v + 1 then p.ts.lc else p, below) != 0
    requires Rank(p) == v + 1 ==> x > Weight(p.ts, below)
    ensures Eval(p, Put(below, v, x)) != 0
  {
    var env := Put(below, v, x);
    hide Put, Weight, EvalTerms;
    if Rank(p) == v + 1 {
      LeadDecides(p.ts, v, x, below);
      TermsBelow(p.ts, v, x, below, env);
    } else {
      ValueBelow(p, v, below, env);
    }
  }

  lemma {:induction false} TermsDifferNil(x: Terms, y: Terms, v: nat)
    requires CanonTerms(x, v) && CanonTerms(y, v) && PtPtDiffer(x, y, v) == Nil
    ensures x == y
    decreases SizeOf(x) + SizeOf(y), 0
  {
    if x.Term? && y.Term? && x.le == y.le {
      DifferZero(x.lc, y.lc);
      TermsDifferNil(x.red, y.red, v);
    }
  }

  /** Adding or subtracting something free of the variable leaves the leading term there. */
  lemma KeepsTerms(ts: Terms, c: Poly, v: nat)
    requires CanonTerms(ts, v) && Deg(ts) > 1 && Canon(c) && Rank(c) <= v
    ensures PtCPlus(c, ts, v) != Nil && PtCDiffer(c, ts, v) != Nil && PtCDifferMinus(ts, c, v) != Nil
  {
    hide PPlus, PDifference, PMinus, PCoefAdd, Canon, Rank;
  }

  /** With different main variables a difference is not 0. */
  lemma DifferentVariables(x: Poly, y: Poly)
    requires Canon(x) && Canon(y) && Rank(x) != Rank(y)
    ensures PDifference(x, y) != ZERO
  {
    hide PtCPlus, PtCDiffer, PtCDifferMinus, PtPtDiffer, PSimp, CanonTerms;
    if x.Num? {
      KeepsTerms(y.ts, x, y.v);
    } else if y.Num? {
      KeepsTerms(x.ts, Num(-y.n), x.v);
    } else if x.v > y.v {
      KeepsTerms(x.ts, y, x.v);
    } else {
      KeepsTerms(y.ts, x, y.v);
    }
  }

  lemma {:induction false} DifferZero(x: Poly, y: Poly)
    requires Canon(x) && Canon(y) && PDifference(x, y) == ZERO
    ensures x == y
    decreases Size(x) + Size(y), 1
  {
    if Rank(x) != Rank(y) {
      DifferentVariables(x, y);
    } else if x.Sum? {
      TermsDifferNil(x.ts, y.ts, x.v);
    }
  }

  ghost predicate SameValues(p: Poly, q: Poly) {
    forall env: seq<int> :: Eval(p, env) == Eval(q, env)
  }

  /** Two polynomials in canonical form with the same values everywhere are the same. */
  lemma Unique(p: Poly, q: Poly)
    requires Canon(p) && Canon(q) && SameValues(p, q)
    ensures p == q
  {
    hide Eval, PDifference, Canon;
    var d := PDifference(p, q);
    if d != ZERO {
      var env := NonzeroTogether(d, d);
      DifferenceValue(p, q, env);
    }
    DifferZero(p, q);
  }

  ghost predicate SameTermValues(s: Terms, t: Terms) {
    forall x: int, env: seq<int> :: EvalTerms(s, x, env) == EvalTerms(t, x, env)
  }

  lemma UniqueTerms(s: Terms, t: Terms, v: nat)
    requires CanonTerms(s, v) && CanonTerms(t, v) && SameTermValues(s, t)
    ensures s == t
  {
    hide EvalTerms, PtPtDiffer, CanonTerms, Eval, PSimp;
    var d := PtPtDiffer(s, t, v);
    if d != Nil {
      var p := PSimp(v, d);
      var env := NonzeroTogether(p, p);
      SimpValue(v, d, env);
      PtPtDifferValue(s, t, v, At(env, v), env);
    }
    TermsDifferNil(s, t, v);
  }

  // ---------- the laws of a ring without zero divisors ----------

  lemma SumLaws(x: Poly, y: Poly, z: Poly)
    requires Canon(x) && Canon(y) && Canon(z)
    ensures PPlus(x, y) == PPlus(y, x)
    ensures PPlus(PPlus(x, y), z) == PPlus(x, PPlus(y, z))
    ensures PDifference(x, y) == PPlus(x, PMinus(y))
    ensures PPlus(PDifference(x, y), y) == x
  {
    hide Eval, PPlus, PDifference, PMinus, Canon;
    forall env: seq<int>
      ensures Eval(PPlus(x, y), env) == Eval(PPlus(y, x), env)
      ensures Eval(PPlus(PPlus(x, y), z), env) == Eval(PPlus(x, PPlus(y, z)), env)
      ensures Eval(PDifference(x, y), env) == Eval(PPlus(x, PMinus(y)), env)
      ensures Eval(PPlus(PDifference(x, y), y), env) == Eval(x, env)
    {
      PlusValue(x, y, env);
      PlusValue(y, x, env);
      PlusValue(y, z, env);
      PlusValue(PPlus(x, y), z, env);
      PlusValue(x, PPlus(y, z), env);
      DifferenceValue(x, y, env);
      MinusValue(y, env);
      PlusValue(x, PMinus(y), env);
      PlusValue(PDifference(x, y), y, env);
    }
    Unique(PPlus(x, y), PPlus(y, x));
    Unique(PPlus(PPlus(x, y), z), PPlus(x, PPlus(y, z)));
    Unique(PDifference(x, y), PPlus(x, PMinus(y)));
    Unique(PPlus(PDifference(x, y), y), x);
  }

  lemma TimesCommutes(x: Poly, y: Poly)
    requires Canon(x) && Canon(y)
    ensures PTimes(x, y) == PTimes(y, x)
  {
    hide Eval, PTimes, Canon;
    forall env: seq<int> ensures Eval(PTimes(x, y), env) == Eval(PTimes(y, x), env) {
      TimesValue(x, y, env);
      TimesValue(y, x, env);
    }
    Unique(PTimes(x, y), PTimes(y, x));
  }

  lemma AssociatesAt(x: Poly, y: Poly, z: Poly, env: seq<int>)
    requires Canon(x) && Canon(y) && Canon(z)
    ensures Eval(PTimes(PTimes(x, y), z), env) == Eval(PTimes(x, PTimes(y, z)), env)
  {
    hide Eval, PTimes, Canon;
    TimesValue(x, y, env);
    TimesValue(y, z, env);
    TimesValue(PTimes(x, y), z, env);
    TimesValue(x, PTimes(y, z), env);
    Associate(Eval(x, env), Eval(y, env), Eval(z, env));
  }

  lemma TimesAssociates(x: Poly, y: Poly, z: Poly)
    requires Canon(x) && Canon(y) && Canon(z)
    ensures PTimes(PTimes(x, y), z) == PTimes(x, PTimes(y, z))
  {
    hide Eval, PTimes, Canon;
    var p, q := PTimes(PTimes(x, y), z), PTimes(x, PTimes(y, z));
    forall env: seq<int> ensures Eval(p, env) == Eval(q, env) {
      AssociatesAt(x, y, z, env);
    }
    Unique(p, q);
  }

  lemma Associate(a: int, b: int, c: int)
    ensures a * b * c == a * (b * c)
  {
  }

  lemma DistributesAt(x: Poly, y: Poly, z: Poly, env: seq<int>)
    requires Canon(x) && Canon(y) && Canon(z)
    ensures Eval(PTimes(PPlus(x, y), z), env) == Eval(PPlus(PTimes(x, z), PTimes(y, z)), env)
  {
    hide Eval, PTimes, PPlus, Canon;
    PlusValue(x, y, env);
    TimesValue(x, z, env);
    TimesValue(y, z, env);
    TimesValue(PPlus(x, y), z, env);
    PlusValue(PTimes(x, z), PTimes(y, z), env);
    Distribute(Eval(x, env), Eval(y, env), Eval(z, env));
  }

  lemma TimesDistributes(x: Poly, y: Poly, z: Poly)
    requires Canon(x) && Canon(y) && Canon(z)
    ensures PTimes(PPlus(x, y), z) == PPlus(PTimes(x, z), PTimes(y, z))
  {
    hide Eval, PTimes, PPlus, Canon;
    var p, q := PTimes(PPlus(x, y), z), PPlus(PTimes(x, z), PTimes(y, z));
    forall env: seq<int> ensures Eval(p, env) == Eval(q, env) {
      DistributesAt(x, y, z, env);
    }
    Unique(p, q);
  }

  lemma NoZeroDivisors(x: Poly, y: Poly)
    requires Canon(x) && Canon(y)
    ensures PTimes(x, y) == ZERO <==> x == ZERO || y == ZERO
  {
    if x != ZERO && y != ZERO {
      hide PTimes, Canon;
      assert forall env: seq<int> :: Eval(ZERO, env) == 0;
      var env := NonzeroTogether(x, y);
      TimesValue(x, y, env);
      ProductNotZero(Eval(x, env), Eval(y, env));
    } else if y == ZERO {
      TimesCommutes(x, y);
    }
  }

  lemma ProductNotZero(a: int, b: int)
    requires a != 0 && b != 0
    ensures a * b != 0
  {
  }

  // ---------- the product as a loop ----------

  /** Putting one more term where it belongs. */
  function InsertTerm(ts: Terms, e: nat, c: Poly, v: nat): (r: Terms)
    requires CanonTerms(ts, v) && Canon(c) && Rank(c) <= v && c != ZERO
    ensures CanonTerms(r, v) && Deg(r) <= Max(Deg(ts), e + 1)
  {
    if ts.Nil? || ts.le < e then Term(e, c, ts)
    else if ts.le == e then PCoefAdd(e, PPlus(ts.lc, c), ts.red, v)
    else Term(ts.le, ts.lc, InsertTerm(ts.red, e, c, v))
  }

  lemma {:induction false} InsertTermValue(ts: Terms, e: nat, c: Poly, v: nat, x: int, env: seq<int>)
    requires CanonTerms(ts, v) && Canon(c) && Rank(c) <= v && c != ZERO
    ensures EvalTerms(InsertTerm(ts, e, c, v), x, env) == EvalTerms(ts, x, env) + Eval(c, env) * Pow(x, e)
  {
    hide PPlus, PCoefAdd, Eval, Canon, Rank, Pow;
    if ts.Term? && ts.le >= e {
      if ts.le == e {
        PlusValue(ts.lc, c, env);
        AddTermValue(e, PPlus(ts.lc, c), ts.red, v, x, env);
        Distribute(Eval(ts.lc, env), Eval(c, env), Pow(x, e));
      } else {
        InsertTermValue(ts.red, e, c, v, x, env);
      }
    }
  }

  /** Inserting a term and adding the rest of its row is adding the row. */
  lemma InsertStep(sum: Terms, e: nat, c: Poly, rest: Terms, v: nat)
    requires CanonTerms(sum, v) && Canon(c) && Rank(c) <= v && c != ZERO && CanonTerms(rest, v) && Deg(rest) <= e
    ensures PtPtPlus(InsertTerm(sum, e, c, v), rest, v) == PtPtPlus(sum, Term(e, c, rest), v)
  {
    hide InsertTerm, PtPtPlus, Eval, EvalTerms, Pow;
    var p, q := PtPtPlus(InsertTerm(sum, e, c, v), rest, v), PtPtPlus(sum, Term(e, c, rest), v);
    forall x: int, env: seq<int> ensures EvalTerms(p, x, env) == EvalTerms(q, x, env) {
      InsertTermValue(sum, e, c, v, x, env);
      PtPtPlusValue(InsertTerm(sum, e, c, v), rest, v, x, env);
      PtPtPlusValue(sum, Term(e, c, rest), v, x, env);
      TermValue(Term(e, c, rest), x, env);
    }
    UniqueTerms(p, q, v);
  }

  lemma TermValue(ts: Terms, a: int, env: seq<int>)
    requires ts.Term?
    ensures EvalTerms(ts, a, env) == Eval(ts.lc, env) * Pow(a, ts.le) + EvalTerms(ts.red, a, env)
  {
  }

  /** One row of the product goes into the sum term by term. */
  method AddRow(sum0: Terms, e: nat, c: Poly, y: Terms, v: nat) returns (sum: Terms)
    requires CanonTerms(sum0, v) && CanonTerms(y, v) && Canon(c) && Rank(c) <= v
    ensures CanonTerms(sum, v) && sum == PtPtPlus(sum0, PCETimes1(y, e, c, v), v)
  {
    hide PTimes, PtPtPlus, InsertTerm;
    sum := sum0;
    var t := y;
    while t.Term?
      invariant CanonTerms(sum, v) && CanonTerms(t, v)
      invariant PtPtPlus(sum, PCETimes1(t, e, c, v), v) == PtPtPlus(sum0, PCETimes1(y, e, c, v), v)
      decreases t
    {
      var d := PTimes(t.lc, c);
      TimesCommutes(t.lc, c);
      if d != ZERO {
        InsertStep(sum, e + t.le, d, PCETimes1(t.red, e, c, v), v);
        sum := InsertTerm(sum, e + t.le, d, v);
      }
      t := t.red;
    }
    PlusNothing(sum, v);
  }

  lemma PlusNothing(ts: Terms, v: nat)
    requires CanonTerms(ts, v)
    ensures PtPtPlus(ts, Nil, v) == ts
  {
  }

  /** The loop of ptimes1, row after row. */
  method MultiplyTerms(x: Terms, y: Terms, v: nat) returns (sum: Terms)
    requires CanonTerms(x, v) && CanonTerms(y, v) && x.Term?
    ensures sum == PTimes1(x, y, v)
  {
    hide PCETimes1, PtPtPlus;
    sum := PCETimes1(y, x.le, x.lc, v);
    var rest := x.red;
    while rest.Term?
      invariant CanonTerms(sum, v) && CanonTerms(rest, v)
      invariant Rows(sum, rest, y, v) == PTimes1(x, y, v)
      decreases rest
    {
      sum := AddRow(sum, rest.le, rest.lc, y, v);
      rest := rest.red;
    }
  }

  // ---------- exact quotients ----------

  /** cquotient on integers, None being the error that the quotient is not exact. */
  function CQuotient(a: int, b: int): (r: Option<int>)
    ensures r.Some? ==> r.value * b == a
  {
    if a == 0 then Some(0)
    else if b == 0 || a % b != 0 then None
    else Some(a / b)
  }

  /** pquotient. */
  function PQuotient(x: Poly, y: Poly): (r: Option<Poly>)
    requires Canon(x) && Canon(y)
    ensures r.Some? ==> Canon(r.value) && Rank(r.value) <= Rank(x) && (r.value == ZERO <==> x == ZERO)
    decreases Size(y), Size(x)
  {
    if x.Num? then
      if x == ZERO then Some(ZERO)
      else if y.Num? then
        match CQuotient(x.n, y.n)
        case None => None
        case Some(q) => Some(Num(q))
      else None
    else if y == ZERO then None
    else if Rank(y) < Rank(x) then
      match PCQuotient(x.ts, y, x.v)
      case None => None
      case Some(q) => Some(PSimp(x.v, q))
    else if y.v > x.v || y.ts.le > x.ts.le then None
    else
      match PtPtQuotient(x.ts, y.ts, x.v)
      case None => None
      case Some(q) => Some(PSimp(x.v, q))
  }

  /** pcquotient: every coefficient divided. */
  function PCQuotient(ts: Terms, y: Poly, v: nat): (r: Option<Terms>)
    requires CanonTerms(ts, v) && Canon(y)
    ensures r.Some? ==> CanonTerms(r.value, v) && Deg(r.value) == Deg(ts)
    decreases Size(y), SizeOf(ts)
  {
    if ts.Nil? then Some(Nil)
    else
      match PQuotient(ts.lc, y)
      case None => None
      case Some(c) =>
        match PCQuotient(ts.red, y, v)
        case None => None
        case Some(rest) => Some(Term(ts.le, c, rest))
  }

  /** ptptquotient: long division. */
  function PtPtQuotient(u: Terms, y: Terms, v: nat): (r: Option<Terms>)
    requires CanonTerms(u, v) && CanonTerms(y, v) && y.Term?
    ensures r.Some? ==> CanonTerms(r.value, v) && (u.Nil? <==> r.value.Nil?)
    ensures r.Some? && u.Term? ==> r.value.le + y.le == u.le
    decreases SizeOf(y), Deg(u)
  {
    if u.Nil? then Some(Nil)
    else if u.le < y.le then None
    else
      match PQuotient(u.lc, y.lc)
      case None => None
      case Some(c) =>
        match PtPtQuotient(SubtractProduct(u.red, y.red, c, u.le - y.le, v), y, v)
        case None => None
        case Some(rest) => Some(Term(u.le - y.le, c, rest))
  }

  /** ptpt-subtract-powered-product: u minus q times the k-th power of the variable times y. */
  function SubtractProduct(u: Terms, y: Terms, q: Poly, k: nat, v: nat): (r: Terms)
    requires CanonTerms(u, v) && CanonTerms(y, v) && Canon(q) && Rank(q) <= v
    ensures CanonTerms(r, v) && Deg(r) <= Max(Deg(u), if y.Nil? then 0 else Deg(y) + k)
    decreases SizeOf(u) + SizeOf(y)
  {
    if y.Nil? then u
    else if u.Nil? then PCETimes1(y, k, PMinus(q), v)
    else
      var hipow := y.le + k;
      if hipow > u.le then
        PCoefAdd(hipow, PTimes(q, PMinus(y.lc)), SubtractProduct(u, y.red, q, k, v), v)
      else if hipow == u.le then
        PCoefAdd(hipow, PDifference(u.lc, PTimes(q, y.lc)), SubtractProduct(u.red, y.red, q, k, v), v)
      else Term(u.le, u.lc, SubtractProduct(u.red, y, q, k, v))
  }

  /** The quotient so far, lowest exponent first, turned around in front of the rest. */
  function TurnedAround(terms: Terms, rest: Terms): Terms {
    if terms.Nil? then rest else TurnedAround(terms.red, Term(terms.le, terms.lc, rest))
  }

  /** The loop of ptptquotient, which collects the quotient backwards. */
  method DivideTerms(u0: Terms, y: Terms, v: nat) returns (r: Option<Terms>)
    requires CanonTerms(u0, v) && CanonTerms(y, v) && y.Term?
    ensures r == PtPtQuotient(u0, y, v)
  {
    hide PQuotient, SubtractProduct, Canon, Rank;
    var u, terms := u0, Nil;
    while u.Term?
      invariant CanonTerms(u, v)
      invariant PtPtQuotient(u0, y, v) ==
                match PtPtQuotient(u, y, v)
                case None => None
                case Some(rest) => Some(TurnedAround(terms, rest))
      decreases Deg(u)
    {
      if u.le < y.le { return None; }
      var c := PQuotient(u.lc, y.lc);
      if c == None { return None; }
      var k := u.le - y.le;
      terms := Term(k, c.value, terms);
      u := SubtractProduct(u.red, y.red, c.value, k, v);
    }
    r := Some(TurnedAround(terms, Nil));
  }

  lemma SubtractTerm(q: int, pk: int, b: int, pl: int, p: int, rest: int)
    requires p == pl * pk
    ensures q * pk * (b * pl + rest) == q * b * p + q * pk * rest
  {
    assert q * b * (pl * pk) == q * pk * (b * pl);
  }

  lemma {:induction false} SubtractProductValue(u: Terms, y: Terms, q: Poly, k: nat, v: nat, x: int, env: seq<int>)
    requires CanonTerms(u, v) && CanonTerms(y, v) && Canon(q) && Rank(q) <= v
    ensures EvalTerms(SubtractProduct(u, y, q, k, v), x, env) ==
            EvalTerms(u, x, env) - Eval(q, env) * Pow(x, k) * EvalTerms(y, x, env)
    decreases SizeOf(u) + SizeOf(y)
  {
    hide PTimes, PDifference, PMinus, PCETimes1, PCoefAdd, Canon, Rank, Eval, Pow;
    if y.Term? {
      var c, b, pk, pl := Eval(q, env), Eval(y.lc, env), Pow(x, k), Pow(x, y.le);
      PowSum(x, y.le, k);
      SubtractTerm(c, pk, b, pl, Pow(x, y.le + k), EvalTerms(y.red, x, env));
      if u.Nil? {
        PCETimes1Value(y, k, PMinus(q), v, x, env);
        MinusValue(q, env);
        Negate(c, pk, EvalTerms(y, x, env));
      } else if y.le + k > u.le {
        SubtractProductValue(u, y.red, q, k, v, x, env);
        MinusValue(y.lc, env);
        TimesValue(q, PMinus(y.lc), env);
        AddTermValue(y.le + k, PTimes(q, PMinus(y.lc)), SubtractProduct(u, y.red, q, k, v), v, x, env);
        NegateSecond(c, b, Pow(x, y.le + k));
      } else if y.le + k == u.le {
        SubtractProductValue(u.red, y.red, q, k, v, x, env);
        TimesValue(q, y.lc, env);
        DifferenceValue(u.lc, PTimes(q, y.lc), env);
        AddTermValue(u.le, PDifference(u.lc, PTimes(q, y.lc)), SubtractProduct(u.red, y.red, q, k, v), v, x, env);
        Distribute(Eval(u.lc, env), c * b, Pow(x, u.le));
      } else {
        SubtractProductValue(u.red, y, q, k, v, x, env);
      }
    }
  }

  lemma Negate(a: int, b: int, c: int)
    ensures (-a) * b * c == -(a * b * c)
  {
  }

  lemma NegateSecond(a: int, b: int, c: int)
    ensures a * (-b) * c == -(a * b * c)
  {
  }

  /** A quotient that is found gives the dividend back. */
  lemma {:induction false} QuotientValue(x: Poly, y: Poly, env: seq<int>)
    requires Canon(x) && Canon(y) && PQuotient(x, y).Some?
    ensures Eval(PQuotient(x, y).value, env) * Eval(y, env) == Eval(x, env)
    decreases Size(y), Size(x)
  {
    hide PSimp, PCQuotient, PtPtQuotient, Pow, EvalTerms, CanonTerms, CQuotient;
    if x.Sum? {
      if Rank(y) < Rank(x) {
        PCQuotientValue(x.ts, y, x.v, At(env, x.v), env);
        SimpValue(x.v, PCQuotient(x.ts, y, x.v).value, env);
      } else {
        PtPtQuotientValue(x.ts, y.ts, x.v, At(env, x.v), env);
        SimpValue(x.v, PtPtQuotient(x.ts, y.ts, x.v).value, env);
      }
    }
  }

  lemma {:induction false} PCQuotientValue(ts: Terms, y: Poly, v: nat, x: int, env: seq<int>)
    requires CanonTerms(ts, v) && Canon(y) && PCQuotient(ts, y, v).Some?
    ensures EvalTerms(PCQuotient(ts, y, v).value, x, env) * Eval(y, env) == EvalTerms(ts, x, env)
    decreases Size(y), SizeOf(ts)
  {
    hide PQuotient, Pow, Eval, Canon, Rank;
    if ts.Term? {
      QuotientValue(ts.lc, y, env);
      PCQuotientValue(ts.red, y, v, x, env);
      var q := PCQuotient(ts, y, v).value;
      TermOver(Eval(q.lc, env), Pow(x, ts.le), EvalTerms(q.red, x, env), Eval(y, env));
    }
  }

  lemma TermOver(c: int, p: int, rest: int, y: int)
    ensures (c * p + rest) * y == c * y * p + rest * y
  {
  }

  lemma {:induction false} PtPtQuotientValue(u: Terms, y: Terms, v: nat, x: int, env: seq<int>)
    requires CanonTerms(u, v) && CanonTerms(y, v) && y.Term? && PtPtQuotient(u, y, v).Some?
    ensures EvalTerms(PtPtQuotient(u, y, v).value, x, env) * EvalTerms(y, x, env) == EvalTerms(u, x, env)
    decreases SizeOf(y), Deg(u)
  {
    hide PQuotient, SubtractProduct, Pow, Eval, Canon, Rank;
    if u.Term? {
      var c, k := PQuotient(u.lc, y.lc).value, u.le - y.le;
      var u' := SubtractProduct(u.red, y.red, c, k, v);
      var rest := PtPtQuotient(u', y, v).value;
      QuotientValue(u.lc, y.lc, env);
      SubtractProductValue(u.red, y.red, c, k, v, x, env);
      PtPtQuotientValue(u', y, v, x, env);
      PowSum(x, k, y.le);
      DivisionStep(Eval(c, env), Pow(x, k), Eval(y.lc, env), Pow(x, y.le), EvalTerms(y.red, x, env),
                   EvalTerms(rest, x, env), EvalTerms(u.red, x, env));
    }
  }

  lemma DivisionStep(c: int, pk: int, b: int, pl: int, yr: int, q: int, ur: int)
    requires q * (b * pl + yr) == ur - c * pk * yr
    ensures (c * pk + q) * (b * pl + yr) == c * b * (pk * pl) + ur
  {
    assert c * pk * (b * pl + yr) == c * b * (pk * pl) + c * pk * yr;
    Distribute(c * pk, q, b * pl + yr);
  }

  /** Rows of a product below the leading term leave that as it is. */
  lemma {:induction false} RowsHead(sum: Terms, x: Terms, y: Terms, v: nat)
    requires CanonTerms(sum, v) && CanonTerms(x, v) && CanonTerms(y, v) && sum.Term? && y.Term?
    requires x.Term? ==> x.le + y.le < sum.le
    ensures Rows(sum, x, y, v).Term? && Rows(sum, x, y, v).le == sum.le && Rows(sum, x, y, v).lc == sum.lc
    decreases x
  {
    if x.Term? {
      hide Canon, PPlus, PCoefAdd, PCETimes1, Rank;
      RowsHead(PtPtPlus(sum, PCETimes1(y, x.le, x.lc, v), v), x.red, y, v);
    }
  }

  /** The leading term of a product is the product of the leading terms. */
  lemma ProductHead(x: Terms, y: Terms, v: nat)
    requires CanonTerms(x, v) && CanonTerms(y, v) && x.Term? && y.Term?
    ensures var p := PTimes1(x, y, v); p.Term? && p.le == x.le + y.le && p.lc == PTimes(x.lc, y.lc)
  {
    hide PTimes, Rows;
    NoZeroDivisors(x.lc, y.lc);
    RowsHead(PCETimes1(y, x.le, x.lc, v), x.red, y, v);
  }

  ghost predicate IsProduct(t: Terms, x: Terms, y: Terms) {
    forall a: int, env: seq<int> :: EvalTerms(t, a, env) == EvalTerms(x, a, env) * EvalTerms(y, a, env)
  }

  lemma ProductIs(t: Terms, x: Terms, y: Terms, v: nat)
    requires CanonTerms(t, v) && CanonTerms(x, v) && CanonTerms(y, v) && IsProduct(t, x, y)
    ensures t == if x.Nil? then Nil else PTimes1(x, y, v)
  {
    hide EvalTerms, PTimes1, CanonTerms;
    if x.Nil? {
      assert forall a: int, env: seq<int> :: EvalTerms(x, a, env) == EvalTerms(Nil, a, env) == 0 by { NilValue(); }
      UniqueTerms(t, Nil, v);
    } else {
      forall a: int, env: seq<int> ensures EvalTerms(t, a, env) == EvalTerms(PTimes1(x, y, v), a, env) {
        PTimes1Value(x, y, v, a, env);
      }
      UniqueTerms(t, PTimes1(x, y, v), v);
    }
  }

  lemma NilValue()
    ensures forall a: int, env: seq<int> :: EvalTerms(Nil, a, env) == 0
  {
  }

  lemma ProductRestAt(t: Terms, q: Terms, y: Terms, v: nat, a: int, env: seq<int>)
    requires CanonTerms(t, v) && CanonTerms(q, v) && CanonTerms(y, v) && t.Term? && q.Term? && y.Term?
    requires EvalTerms(t, a, env) == EvalTerms(q, a, env) * EvalTerms(y, a, env)
    requires t.le == q.le + y.le && t.lc == PTimes(q.lc, y.lc)
    ensures EvalTerms(SubtractProduct(t.red, y.red, q.lc, q.le, v), a, env) == EvalTerms(q.red, a, env) * EvalTerms(y, a, env)
  {
    hide SubtractProduct, PTimes, Eval, EvalTerms, Pow, Canon, Rank;
    SubtractProductValue(t.red, y.red, q.lc, q.le, v, a, env);
    TimesValue(q.lc, y.lc, env);
    PowSum(a, q.le, y.le);
    TermValue(t, a, env);
    TermValue(q, a, env);
    TermValue(y, a, env);
    RestOfProduct(EvalTerms(t, a, env), Eval(t.lc, env), Pow(a, t.le), EvalTerms(t.red, a, env),
                  EvalTerms(q, a, env), Eval(q.lc, env), Pow(a, q.le), EvalTerms(q.red, a, env),
                  EvalTerms(y, a, env), Eval(y.lc, env), Pow(a, y.le), EvalTerms(y.red, a, env));
  }

  /** After one step of the long division what is left is the product of what is left of the quotient. */
  lemma ProductRest(t: Terms, q: Terms, y: Terms, v: nat)
    requires CanonTerms(t, v) && CanonTerms(q, v) && CanonTerms(y, v) && t.Term? && q.Term? && y.Term?
    requires IsProduct(t, q, y) && t.le == q.le + y.le && t.lc == PTimes(q.lc, y.lc)
    ensures IsProduct(SubtractProduct(t.red, y.red, q.lc, q.le, v), q.red, y)
  {
    hide SubtractProduct, PTimes, EvalTerms, Canon, Rank;
    var u := SubtractProduct(t.red, y.red, q.lc, q.le, v);
    forall a: int, env: seq<int> ensures EvalTerms(u, a, env) == EvalTerms(q.red, a, env) * EvalTerms(y, a, env) {
      ProductRestAt(t, q, y, v, a, env);
    }
  }

  /** From t = q y, all three split into leading term and rest, where the leading terms multiply. */
  lemma RestOfProduct(t: int, ct: int, pt: int, tr: int, q: int, c: int, pk: int, qr: int, y: int, b: int, pl: int, yr: int)
    requires t == ct * pt + tr && q == c * pk + qr && y == b * pl + yr
    requires ct == c * b && pt == pk * pl && t == q * y
    ensures tr - c * pk * yr == qr * y
  {
    assert q * y == c * pk * (b * pl + yr) + qr * y by { Distribute(c * pk, qr, y); }
    assert c * pk * (b * pl) == c * b * (pk * pl);
    assert c * pk * (b * pl + yr) == c * pk * (b * pl) + c * pk * yr;
  }

  /** Dividing a product by a factor other than 0 finds the other factor. */
  lemma {:induction false} QuotientFound(q: Poly, y: Poly)
    requires Canon(q) && Canon(y) && y != ZERO
    ensures PQuotient(PTimes(q, y), y) == Some(q)
    decreases Size(y), Size(q)
  {
    if q == ZERO {
    } else if Rank(y) < Rank(q) {
      SpreadProduct(q, y);
      CoefficientsFound(q.ts, y, q.v);
    } else if y.Num? {
      MultipleOver(q.n, y.n);
    } else {
      LongDivisionFound(q, y);
    }
  }

  lemma MultipleOver(c: int, n: int)
    requires n != 0 && c != 0
    ensures CQuotient(c * n, n) == Some(c)
  {
    ProductNotZero(c, n);
    var r := c * n % n;
    assert c * n == n * (c * n / n) + r;
    assert r == (c - c * n / n) * n;
    SmallFactor(c - c * n / n, n);
  }

  lemma SmallFactor(k: int, n: int)
    requires n != 0 && 0 <= k * n < Abs(n)
    ensures k == 0
  {
    AbsOfProduct(k, n);
    if k != 0 { Multiple(Abs(k), Abs(n)); }
  }

  lemma AbsOfProduct(k: int, n: int)
    ensures Abs(k * n) == Abs(k) * Abs(n)
  {
  }

  /** A product with a polynomial in later variables is spread over the coefficients. */
  lemma SpreadProduct(q: Poly, y: Poly)
    requires Canon(q) && Canon(y) && y != ZERO && Rank(y) < Rank(q)
    ensures PTimes(q, y) == PSimp(q.v, PCTimes1(y, q.ts, q.v))
  {
  }

  lemma {:induction false} CoefficientsFound(ts: Terms, y: Poly, v: nat)
    requires CanonTerms(ts, v) && Canon(y) && y != ZERO && Rank(y) <= v
    ensures Deg(PCTimes1(y, ts, v)) == Deg(ts)
    ensures PCQuotient(PCTimes1(y, ts, v), y, v) == Some(ts)
    decreases Size(y), SizeOf(ts)
  {
    hide PTimes, PQuotient;
    if ts.Term? {
      TimesCommutes(y, ts.lc);
      NoZeroDivisors(y, ts.lc);
      QuotientFound(ts.lc, y);
      CoefficientsFound(ts.red, y, v);
    }
  }

  /** A polynomial as terms in a variable that is its main one or comes before that. */
  function AsTerms(q: Poly, v: nat): (ts: Terms)
    requires Canon(q) && q != ZERO && Rank(q) <= v + 1
    ensures CanonTerms(ts, v) && ts.Term? && PSimp(v, ts) == q
  {
    if Rank(q) == v + 1 then q.ts else Term(0, q, Nil)
  }

  lemma AsTermsValue(q: Poly, v: nat, a: int, env: seq<int>)
    requires Canon(q) && q != ZERO && Rank(q) <= v
    ensures EvalTerms(AsTerms(q, v), a, env) == Eval(q, env)
  {
    assert Pow(a, 0) == 1;
  }

  /** A product whose main variable is that of y, as terms in that variable. */
  lemma ProductAsTerms(q: Poly, y: Poly) returns (t: Terms)
    requires Canon(q) && Canon(y) && q != ZERO && y.Sum? && Rank(q) <= Rank(y)
    ensures CanonTerms(t, y.v) && PTimes(q, y) == PSimp(y.v, t) && IsProduct(t, AsTerms(q, y.v), y.ts)
  {
    hide Eval, EvalTerms, PTimes1, PCTimes1, CanonTerms;
    if Rank(q) == Rank(y) {
      t := PTimes1(q.ts, y.ts, y.v);
      forall a: int, env: seq<int> ensures EvalTerms(t, a, env) == EvalTerms(q.ts, a, env) * EvalTerms(y.ts, a, env) {
        PTimes1Value(q.ts, y.ts, y.v, a, env);
      }
    } else {
      t := PCTimes1(q, y.ts, y.v);
      forall a: int, env: seq<int>
        ensures EvalTerms(t, a, env) == EvalTerms(AsTerms(q, y.v), a, env) * EvalTerms(y.ts, a, env)
      {
        PCTimes1Value(q, y.ts, y.v, a, env);
        AsTermsValue(q, y.v, a, env);
      }
    }
  }

  lemma {:induction false} LongDivisionFound(q: Poly, y: Poly)
    requires Canon(q) && Canon(y) && q != ZERO && y.Sum? && Rank(q) <= Rank(y)
    ensures PQuotient(PTimes(q, y), y) == Some(q)
    decreases Size(y), 0
  {
    hide PTimes, PTimes1, PtPtQuotient, IsProduct, AsTerms;
    var t := ProductAsTerms(q, y);
    var qs := AsTerms(q, y.v);
    ProductIs(t, qs, y.ts, y.v);
    ProductHead(qs, y.ts, y.v);
    TermsFound(t, qs, y.ts, y.v);
  }

  lemma {:induction false} TermsFound(t: Terms, q: Terms, y: Terms, v: nat)
    requires CanonTerms(t, v) && CanonTerms(q, v) && CanonTerms(y, v) && y.Term? && IsProduct(t, q, y)
    ensures PtPtQuotient(t, y, v) == Some(q)
    decreases SizeOf(y), SizeOf(q)
  {
    hide PTimes, PTimes1, PQuotient, IsProduct, SubtractProduct, Canon, Rank;
    ProductIs(t, q, y, v);
    if q.Term? {
      ProductHead(q, y, v);
      QuotientFound(q.lc, y.lc);
      ProductRest(t, q, y, v);
      TermsFound(SubtractProduct(t.red, y.red, q.lc, q.le, v), q.red, y, v);
    }
  }

  /** pquotient finds q exactly when q times the divisor is the dividend, for every divisor but 0. */
  lemma QuotientExactly(x: Poly, y: Poly, q: Poly)
    requires Canon(x) && Canon(y) && Canon(q) && y != ZERO
    ensures PQuotient(x, y) == Some(q) <==> PTimes(q, y) == x
  {
    if PQuotient(x, y) == Some(q) {
      hide PQuotient, PTimes, Eval, Canon;
      forall env: seq<int> ensures Eval(PTimes(q, y), env) == Eval(x, env) {
        TimesValue(q, y, env);
        QuotientValue(x, y, env);
      }
      Unique(PTimes(q, y), x);
    }
    if PTimes(q, y) == x { QuotientFound(q, y); }
  }

  /** It fails exactly when there is no exact quotient at all. */
  lemma QuotientFails(x: Poly, y: Poly)
    requires Canon(x) && Canon(y) && y != ZERO
    ensures PQuotient(x, y) == None <==> forall q | Canon(q) :: PTimes(q, y) != x
  {
    hide PQuotient, PTimes, Canon, Rank;
    var r := PQuotient(x, y);
    if r.Some? {
      QuotientExactly(x, y, r.value);
    } else {
      forall q | Canon(q) ensures PTimes(q, y) != x { QuotientExactly(x, y, q); }
    }
  }

  /** Only 0 can be divided by 0. */
  lemma QuotientByZero(x: Poly)
    requires Canon(x)
    ensures PQuotient(x, ZERO) == if x == ZERO then Some(ZERO) else None
  {
  }
}
