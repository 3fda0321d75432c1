/**
 Fixnum arithmetic of the rational function package: modular operations with balanced residues, and
 sums and differences repaired from the processor flags after an overflow.
 */
module FixnumArithmetic {
  import opened MachineInts

  // ---------- residues ----------

  predicate Apart(a: int, b: int, m: int, k: int) {
    a - b == k * m
  }

  /** a and b differ by a multiple of m. */
  ghost predicate Congruent(a: int, b: int, m: int) {
    exists k: int :: Apart(a, b, m, k)
  }

  lemma CongruentBy(a: int, b: int, m: int, k: int)
    requires a - b == k * m
    ensures Congruent(a, b, m)
  {
    assert Apart(a, b, m, k);
  }

  lemma CongruentSymmetric(a: int, b: int, m: int)
    requires Congruent(a, b, m)
    ensures Congruent(b, a, m)
  {
    var k: int :| Apart(a, b, m, k);
    assert b - a == (-k) * m;
    CongruentBy(b, a, m, -k);
  }

  lemma CongruentTransitive(a: int, b: int, c: int, m: int)
    requires Congruent(a, b, m) && Congruent(b, c, m)
    ensures Congruent(a, c, m)
  {
    var k: int :| Apart(a, b, m, k);
    var l: int :| Apart(b, c, m, l);
    assert a - c == (k + l) * m;
    CongruentBy(a, c, m, k + l);
  }

  lemma CongruentSums(a: int, a': int, b: int, b': int, m: int)
    requires Congruent(a, a', m) && Congruent(b, b', m)
    ensures Congruent(a + b, a' + b', m) && Congruent(a - b, a' - b', m)
  {
    var k: int :| Apart(a, a', m, k);
    var l: int :| Apart(b, b', m, l);
    assert a + b - (a' + b') == (k + l) * m;
    assert a - b - (a' - b') == (k - l) * m;
    CongruentBy(a + b, a' + b', m, k + l);
    CongruentBy(a - b, a' - b', m, k - l);
  }

  lemma CongruentProduct(a: int, a': int, b: int, b': int, m: int)
    requires Congruent(a, a', m) && Congruent(b, b', m)
    ensures Congruent(a * b, a' * b', m)
  {
    var k: int :| Apart(a, a', m, k);
    var l: int :| Apart(b, b', m, l);
    assert a * b - a' * b' == (a - a') * b + a' * (b - b');
    assert (k * m) * b + a' * (l * m) == (k * b + a' * l) * m;
    CongruentBy(a * b, a' * b', m, k * b + a' * l);
  }

  /** The least numbers, positive and negative, that stand for all residues. */
  predicate Balanced(r: int, m: int)
    requires m > 0
  {
    -(m / 2) <= r <= m / 2
  }

  /** For an odd modulus every number has just one balanced residue. */
  lemma BalancedUnique(r: int, s: int, m: int)
    requires m > 0 && m % 2 == 1 && Balanced(r, m) && Balanced(s, m) && Congruent(r, s, m)
    ensures r == s
  {
    var k: int :| Apart(r, s, m, k);
    SmallMultiple(k, m);
  }

  lemma SmallMultiple(k: int, m: int)
    requires m > 0
    ensures -m < k * m < m ==> k == 0
  {
    if k >= 1 {
      assert k * m >= m;
    } else if k <= -1 {
      assert k * m <= -m;
    }
  }

  /**
   The residue of n that is written: balanced, and of the two that an even modulus has for a number halfway
   between its multiples the one on the side of n.
   */
  ghost predicate Represents(r: int, n: int, m: int)
    requires m > 0
  {
    Balanced(r, m) && Congruent(r, n, m) && (2 * r == m ==> n > 0) && (2 * r == -m ==> n < 0)
  }

  /** For every modulus, even or odd, a number has one such residue. */
  lemma RepresentsUnique(r: int, s: int, n: int, m: int)
    requires m > 0 && Represents(r, n, m) && Represents(s, n, m)
    ensures r == s
  {
    CongruentSymmetric(s, n, m);
    CongruentTransitive(r, n, s, m);
    var k: int :| Apart(r, s, m, k);
    if m % 2 == 1 { BalancedUnique(r, s, m); }
    if r != s { OneApart(r, s, m, k); }
  }

  lemma OneApart(r: int, s: int, m: int, k: int)
    requires m > 0 && Balanced(r, m) && Balanced(s, m) && Apart(r, s, m, k) && r != s
    ensures r - s == m || r - s == -m
  {
    SmallMultiple(k, m);
  }

  // ---------- the operations ----------

  lemma RemainderFacts(n: int, m: int)
    requires m > 0
    ensures -m < Remainder(n, m) < m
    ensures Congruent(Remainder(n, m), n, m)
    ensures Remainder(n, m) > 0 ==> n > 0
    ensures Remainder(n, m) < 0 ==> n < 0
  {
    RemainderSign(n, m);
    var q := Quotient(n, m);
    assert Remainder(n, m) - n == (-q) * m;
    CongruentBy(Remainder(n, m), n, m, -q);
  }

  /** FIX_MOD. */
  function FixMod(x: Word, m: Word): Word {
    var half: int := m / 2;
    if x > half then Wrap(x - m) else if x < -half then Wrap(x + m) else x
  }

  lemma FixModBalances(x: Word, m: Word)
    requires m > 0 && 0 - m < x < m
    ensures Represents(FixMod(x, m), x, m)
  {
    var r := FixMod(x, m);
    var k := if r == x then 0 else if x > 0 then -1 else 1;
    CongruentBy(r, x, m, k);
  }

  /** The registers d0 and d1 after a signed 64 by 32 bit division: unchanged when the quotient does not fit. */
  function LongDivide(dividend: int, divisor: Word): (d0: Word)
    requires divisor > 0
    requires -0x4000_0000_0000_0000 <= dividend <= 0x4000_0000_0000_0000
  {
    if InWord(Quotient(dividend, divisor)) then RemainderWord(dividend, divisor) else dividend / WORDS
  }

  function RemainderWord(n: int, m: Word): Word
    requires m > 0
  {
    RemainderFacts(n, m);
    Remainder(n, m)
  }

  /** FIX_MOD after the division of any number, word or not, gives the residue of that number. */
  lemma FixedRemainder(n: int, m: Word)
    requires m > 0
    ensures Represents(FixMod(RemainderWord(n, m), m), n, m)
  {
    hide FixMod, Congruent, Remainder, Quotient;
    var x := RemainderWord(n, m);
    RemainderFacts(n, m);
    FixModBalances(x, m);
    CongruentTransitive(FixMod(x, m), x, n, m);
  }

  /** dblrem: a 64-bit product, divided. */
  function DblRem(a: Word, b: Word, m: Word): Word
    requires m > 0
  {
    ProductBound(a, b, 0x8000_0000);
    LongDivide(a * b, m)
  }

  function CPlus(a: Word, b: Word, m: Word): Word
    requires m > 0
  {
    FixMod(RemainderWord(Wrap(a + b), m), m)
  }

  function CDifference(a: Word, b: Word, m: Word): Word
    requires m > 0
  {
    FixMod(RemainderWord(Wrap(a - b), m), m)
  }

  function CTimes(a: Word, b: Word, m: Word): Word
    requires m > 0
  {
    FixMod(DblRem(a, b, m), m)
  }

  /** mcmod on fixnums. */
  function McMod(x: Word, m: Word): Word
    requires m > 0
  {
    FixMod(RemainderWord(x, m), m)
  }

  /** Any fixnum is reduced to a balanced residue of itself. */
  lemma McModBalances(x: Word, m: Word)
    requires m > 0
    ensures Represents(McMod(x, m), x, m)
  {
    FixedRemainder(x, m);
  }

  /** Two balanced residues leave room for a quotient of their product. */
  lemma BalancedQuotientFits(a: Word, b: Word, m: Word)
    requires m > 0 && Balanced(a, m) && Balanced(b, m)
    ensures InWord(Quotient(a * b, m))
  {
    var h := m / 2;
    ProductBound(a, b, h);
    assert h * h <= m * h by { assert (m - h) * h >= 0; }
    QuotientBound(a * b, m, h);
  }

  lemma FactorBound(q: int, m: int, h: int)
    requires m > 0
    ensures q * m <= m * h ==> q <= h
  {
    if q >= h + 1 { assert q * m >= (h + 1) * m; }
  }

  lemma QuotientBound(n: int, m: int, h: int)
    requires m > 0 && h >= 0 && -(m * h) <= n <= m * h
    ensures -h <= Quotient(n, m) <= h
  {
    var a := if n >= 0 then n else -n;
    var q := a / m;
    FloorTimes(a, m);
    FactorBound(q, m, h);
    assert Quotient(n, m) == if n >= 0 then q else -q;
  }

  // ---------- trees of operations ----------

  datatype Tree = Leaf(w: Word) | Plus(l: Tree, r: Tree) | Minus(l: Tree, r: Tree) | Times2(l: Tree, r: Tree)

  function Exact(t: Tree): int {
    match t
    case Leaf(w) => w
    case Plus(l, r) => Exact(l) + Exact(r)
    case Minus(l, r) => Exact(l) - Exact(r)
    case Times2(l, r) => Exact(l) * Exact(r)
  }

  function Compute(t: Tree, m: Word): Word
    requires m > 0
  {
    match t
    case Leaf(w) => w
    case Plus(l, r) => CPlus(Compute(l, m), Compute(r, m), m)
    case Minus(l, r) => CDifference(Compute(l, m), Compute(r, m), m)
    case Times2(l, r) => CTimes(Compute(l, m), Compute(r, m), m)
  }

  predicate Reduced(t: Tree, m: Word)
    requires m > 0
  {
    match t
    case Leaf(w) => Balanced(w, m)
    case Plus(l, r) => Reduced(l, m) && Reduced(r, m)
    case Minus(l, r) => Reduced(l, m) && Reduced(r, m)
    case Times2(l, r) => Reduced(l, m) && Reduced(r, m)
  }

  /** No 32-bit sum or difference and no 64 by 32 bit quotient overflows anywhere in the computation. */
  predicate NothingOverflows(t: Tree, m: Word)
    requires m > 0
  {
    match t
    case Leaf(_) => true
    case Plus(l, r) => NothingOverflows(l, m) && NothingOverflows(r, m) && InWord(Compute(l, m) + Compute(r, m))
    case Minus(l, r) => NothingOverflows(l, m) && NothingOverflows(r, m) && InWord(Compute(l, m) - Compute(r, m))
    case Times2(l, r) =>
      NothingOverflows(l, m) && NothingOverflows(r, m) && InWord(Quotient(Compute(l, m) * Compute(r, m), m))
  }

  /** A modular product is right whenever its quotient fits a word. */
  lemma TimesWhenQuotientFits(a: Word, b: Word, m: Word)
    requires m > 0 && InWord(Quotient(a * b, m))
    ensures Represents(CTimes(a, b, m), a * b, m)
  {
    hide FixMod, Represents, Remainder, Quotient;
    FixedRemainder(a * b, m);
  }

  /** FIX_MOD moves any word by a multiple of the modulus, once, and that is enough for words up to three halves of it. */
  lemma FixModExactly(x: Word, m: Word)
    requires m > 0
    ensures Congruent(FixMod(x, m), x, m)
    ensures -m <= FixMod(x, m) - x <= m
    ensures Balanced(FixMod(x, m), m) <==> -(m + m / 2) <= x <= m + m / 2
  {
    var r := FixMod(x, m);
    var k := if r == x then 0 else if x > 0 then -1 else 1;
    CongruentBy(r, x, m, k);
  }

  /**
   Over arbitrary operands: when the quotient does not fit, the division leaves the high word of the product,
   which has to stand for the product by itself.
   */
  lemma TimesExactly(a: Word, b: Word, m: Word)
    requires m > 0
    ensures var high := a * b / WORDS;
      && (Congruent(CTimes(a, b, m), a * b, m) <==> InWord(Quotient(a * b, m)) || Congruent(high, a * b, m))
      && (Balanced(CTimes(a, b, m), m) <==> InWord(Quotient(a * b, m)) || -(m + m / 2) <= high <= m + m / 2)
  {
    hide FixMod, Congruent, Remainder, Quotient;
    if InWord(Quotient(a * b, m)) {
      TimesWhenQuotientFits(a, b, m);
    } else {
      ProductBound(a, b, 0x8000_0000);
      var high, r := LongDivide(a * b, m), CTimes(a, b, m);
      FixModExactly(high, m);
      if Congruent(high, a * b, m) { CongruentTransitive(r, high, a * b, m); }
      if Congruent(r, a * b, m) {
        CongruentSymmetric(r, high, m);
        CongruentTransitive(high, r, a * b, m);
      }
    }
  }

  /** Each operation on balanced residues gives a balanced residue of the exact result. */
  lemma OperationsBalance(a: Word, b: Word, m: Word)
    requires m > 0 && Balanced(a, m) && Balanced(b, m)
    ensures InWord(a + b) && InWord(a - b) && InWord(Quotient(a * b, m))
    ensures Represents(CPlus(a, b, m), a + b, m)
    ensures Represents(CDifference(a, b, m), a - b, m)
    ensures Represents(CTimes(a, b, m), a * b, m)
  {
    hide FixMod, Represents, Remainder, Quotient;
    FixedRemainder(a + b, m);
    FixedRemainder(a - b, m);
    BalancedQuotientFits(a, b, m);
    TimesWhenQuotientFits(a, b, m);
  }

  /** The operation at the top of a tree, done exactly on what was computed for its operands. */
  function TopExact(t: Tree, m: Word): int
    requires m > 0
  {
    match t
    case Leaf(w) => w
    case Plus(l, r) => Compute(l, m) + Compute(r, m)
    case Minus(l, r) => Compute(l, m) - Compute(r, m)
    case Times2(l, r) => Compute(l, m) * Compute(r, m)
  }

  /** For even moduli too every operation of a tree gives the one residue that stands for its exact result. */
  lemma EveryNodeRepresents(t: Tree, m: Word, r: int)
    requires m > 0 && Reduced(t, m) && !t.Leaf?
    ensures Represents(r, TopExact(t, m), m) <==> r == Compute(t, m)
  {
    hide CPlus, CDifference, CTimes, Represents, Quotient;
    ComputeIsExact(t.l, m);
    ComputeIsExact(t.r, m);
    OperationsBalance(Compute(t.l, m), Compute(t.r, m), m);
    if Represents(r, TopExact(t, m), m) {
      RepresentsUnique(r, Compute(t, m), TopExact(t, m), m);
    }
  }

  /** Over reduced operands every tree of operations gives a balanced residue of its exact value, the only one if m is odd. */
  lemma {:induction false} ComputeIsExact(t: Tree, m: Word)
    requires m > 0 && Reduced(t, m)
    ensures Balanced(Compute(t, m), m) && Congruent(Compute(t, m), Exact(t), m)
    ensures NothingOverflows(t, m)
    ensures m % 2 == 1 ==> forall r :: Balanced(r, m) && Congruent(r, Exact(t), m) ==> r == Compute(t, m)
  {
    hide CPlus, CDifference, CTimes, Congruent, Quotient;
    match t {
      case Leaf(w) =>
        CongruentBy(w, w, m, 0);
      case Plus(l, r) =>
        ComputeIsExact(l, m);
        ComputeIsExact(r, m);
        OperationsBalance(Compute(l, m), Compute(r, m), m);
        CongruentSums(Compute(l, m), Exact(l), Compute(r, m), Exact(r), m);
        CongruentTransitive(Compute(t, m), Compute(l, m) + Compute(r, m), Exact(t), m);
      case Minus(l, r) =>
        ComputeIsExact(l, m);
        ComputeIsExact(r, m);
        OperationsBalance(Compute(l, m), Compute(r, m), m);
        CongruentSums(Compute(l, m), Exact(l), Compute(r, m), Exact(r), m);
        CongruentTransitive(Compute(t, m), Compute(l, m) - Compute(r, m), Exact(t), m);
      case Times2(l, r) =>
        ComputeIsExact(l, m);
        ComputeIsExact(r, m);
        OperationsBalance(Compute(l, m), Compute(r, m), m);
        CongruentProduct(Compute(l, m), Exact(l), Compute(r, m), Exact(r), m);
        CongruentTransitive(Compute(t, m), Compute(l, m) * Compute(r, m), Exact(t), m);
    }
    if m % 2 == 1 {
      forall r | Balanced(r, m) && Congruent(r, Exact(t), m) ensures r == Compute(t, m) {
        CongruentSymmetric(Compute(t, m), Exact(t), m);
        CongruentTransitive(r, Exact(t), Compute(t, m), m);
        BalancedUnique(r, Compute(t, m), m);
      }
    }
  }

  /** Without reduced operands a sum or difference is right exactly when it does not overflow or the modulus divides 2^32. */
  lemma SumsExactly(a: Word, b: Word, m: Word)
    requires m > 0
    ensures Congruent(CPlus(a, b, m), a + b, m) <==> InWord(a + b) || Congruent(WORDS, 0, m)
    ensures Congruent(CDifference(a, b, m), a - b, m) <==> InWord(a - b) || Congruent(WORDS, 0, m)
  {
    hide McMod, Congruent;
    assert CPlus(a, b, m) == McMod(Wrap(a + b), m) && CDifference(a, b, m) == McMod(Wrap(a - b), m) by { SameReduction(a, b, m); }
    ReducedExactly(a + b, m);
    ReducedExactly(a - b, m);
  }

  lemma SameReduction(a: Word, b: Word, m: Word)
    requires m > 0
    ensures CPlus(a, b, m) == McMod(Wrap(a + b), m) && CDifference(a, b, m) == McMod(Wrap(a - b), m)
  {
  }

  lemma ReducedExactly(n: int, m: Word)
    requires m > 0 && -WORDS <= n < WORDS
    ensures Congruent(McMod(Wrap(n), m), n, m) <==> InWord(n) || Congruent(WORDS, 0, m)
  {
    hide McMod, Congruent;
    var w := Wrap(n);
    var r := McMod(w, m);
    McModBalances(w, m);
    WrapCongruent(n, m);
    CongruentSymmetric(r, w, m);
    if Congruent(r, n, m) { CongruentTransitive(w, r, n, m); }
    if Congruent(w, n, m) { CongruentTransitive(r, w, n, m); }
  }

  /** A wrapped number is congruent to the number itself exactly when nothing was wrapped or the modulus divides 2^32. */
  lemma WrapCongruent(n: int, m: Word)
    requires m > 0 && -WORDS <= n < WORDS
    ensures Congruent(Wrap(n), n, m) <==> InWord(n) || Congruent(WORDS, 0, m)
  {
    var w := Wrap(n);
    assert w - n == 0 || w - n == WORDS || w - n == -WORDS;
    if Congruent(w, n, m) {
      var k: int :| Apart(w, n, m, k);
      if w - n == WORDS { CongruentBy(WORDS, 0, m, k); }
      if w - n == -WORDS {
        assert WORDS == (-k) * m;
        CongruentBy(WORDS, 0, m, -k);
      }
    }
    if InWord(n) { CongruentBy(w, n, m, 0); }
    if Congruent(WORDS, 0, m) {
      var k: int :| Apart(WORDS, 0, m, k);
      var j := if w - n == 0 then 0 else if w - n == WORDS then k else -k;
      assert w - n == j * m;
      CongruentBy(w, n, m, j);
    }
  }

  // ---------- sums and differences from the flags ----------

  /** A fixnum, or the bignum h * 2^31 + l of bignum2. */
  datatype Integer = Fix(w: Word) | Big(h: Word, l: nat)

  function Value(i: Integer): int {
    match i
    case Fix(w) => w
    case Big(h, l) => h * 0x8000_0000 + l
  }

  /** fplus: the wrapped sum is repaired by the sign of n. */
  method FPlus(m: Word, n: Word) returns (res: Integer)
    ensures Value(res) == m + n
    ensures res.Fix? <==> InWord(m + n)
    ensures res.Big? ==> res.l < 0x8000_0000
  {
    var d0 := Wrap(m + n);
    var overflow := !InWord(m + n);
    if overflow {
      res := if n > 0 then Big(1, d0 % 0x8000_0000) else Big(-2, d0 % 0x8000_0000);
    } else {
      res := Fix(d0);
    }
  }

  method FMinus(m: Word, n: Word) returns (res: Integer)
    ensures Value(res) == m - n
    ensures res.Fix? <==> InWord(m - n)
    ensures res.Big? ==> res.l < 0x8000_0000
  {
    var d0 := Wrap(m - n);
    var overflow := !InWord(m - n);
    if overflow {
      res := if n < 0 then Big(1, d0 % 0x8000_0000) else Big(-2, d0 % 0x8000_0000);
    } else {
      res := Fix(d0);
    }
  }

  /** The 64-bit number in the register pair d0:d1. */
  function Pair(d0: Word, d1: Word): int {
    d0 * WORDS + Unsigned(d1)
  }

  /** After an overflow the carry tells the high word of a sum, and the borrow that of a difference. */
  lemma SumPair(m: Word, n: Word)
    requires !InWord(m + n)
    ensures Pair(if Unsigned(m) + Unsigned(n) >= WORDS then -1 else 0, Wrap(m + n)) == m + n
  {
  }

  lemma DifferencePair(m: Word, n: Word)
    requires !InWord(m - n)
    ensures Pair(if Unsigned(m) < Unsigned(n) then 0 else -1, Wrap(m - n)) == m - n
  {
  }

  /** plusrem: after an overflow the carry chooses the high word of the dividend. */
  method PlusRem(m: Word, n: Word, mod: Word) returns (d0: Word)
    requires mod > 0
    ensures d0 == Remainder(m + n, mod) <==> !(mod == 1 && m + n < -0x8000_0000)
    ensures mod == 1 && m + n < -0x8000_0000 ==> d0 == -1
  {
    hide Quotient, Remainder, Pair, Unsigned, Wrap;
    var d1 := Wrap(m + n);
    var overflow, carry := !InWord(m + n), Unsigned(m) + Unsigned(n) >= WORDS;
    if !overflow {
      d0 := RemainderWord(d1, mod);
    } else {
      d0 := if carry then -1 else 0;
      SumPair(m, n);
      LongQuotient(m + n, mod);
      d0 := LongDivide(Pair(d0, d1), mod);
    }
  }

  method SubRem(m: Word, n: Word, mod: Word) returns (d0: Word)
    requires mod > 0
    ensures d0 == Remainder(m - n, mod) <==> !(mod == 1 && m - n < -0x8000_0000)
    ensures mod == 1 && m - n < -0x8000_0000 ==> d0 == -1
  {
    hide Quotient, Remainder, Pair, Unsigned, Wrap;
    var d1 := Wrap(m - n);
    var overflow, carry := !InWord(m - n), Unsigned(m) < Unsigned(n);
    if !overflow {
      d0 := RemainderWord(d1, mod);
    } else {
      d0 := if !carry then -1 else 0;
      DifferencePair(m, n);
      LongQuotient(m - n, mod);
      d0 := LongDivide(Pair(d0, d1), mod);
    }
  }

  /** A sum or difference of words fails to have a quotient that fits only for the divisor 1. */
  lemma LongQuotient(n: int, mod: Word)
    requires mod > 0 && -WORDS <= n < WORDS && !InWord(n)
    ensures InWord(Quotient(n, mod)) <==> mod != 1
    ensures mod == 1 ==> Remainder(n, mod) == 0 && n / WORDS == if n < 0 then -1 else 0
  {
    if mod > 1 {
      if n == -WORDS { LeastSum(mod); } else { HalfBound(n, mod); }
    }
  }

  lemma LeastSum(mod: int)
    requires mod > 1
    ensures InWord(Quotient(-WORDS, mod))
  {
    HalfQuotient(WORDS, mod);
  }

  /** Division by a number above 1 at least halves. */
  lemma HalfQuotient(a: int, mod: int)
    requires mod > 1 && a >= 0
    ensures 0 <= a / mod && 2 * (a / mod) <= a
  {
    var q := a / mod;
    FloorTimes(a, mod);
    AtLeastDouble(q, mod);
  }

  lemma HalfBound(n: int, mod: int)
    requires mod > 1 && -WORDS < n < WORDS
    ensures InWord(Quotient(n, mod))
  {
    HalfQuotient(if n >= 0 then n else -n, mod);
  }
}
