/**
 32-bit machine integers: two's complement wrap-around, and division rounded toward zero.
 */
module MachineInts {

  const WORDS: int := 0x1_0000_0000

  predicate InWord(n: int) {
    -0x8000_0000 <= n < 0x8000_0000
  }

  type Word = n: int | -0x8000_0000 <= n < 0x8000_0000

  /** The machine integer a computed integer becomes. */
  function Wrap(n: int): (w: Word)
    ensures InWord(n) ==> w == n
    ensures (w - n) % WORDS == 0
  {
    var m := n % WORDS;
    if m >= 0x8000_0000 then m - WORDS else m
  }

  lemma WrapShift(n: int, k: int)
    ensures Wrap(n + k * WORDS) == Wrap(n)
  {
  }

  function WordProduct(i: Word, j: Word): Word {
    Wrap(i * j)
  }

  /** A product of words is the word that differs from the exact product by a multiple of 2^32. */
  lemma ProductExactly(i: Word, j: Word, w: Word)
    ensures w == WordProduct(i, j) <==> (w - i * j) % WORDS == 0
  {
    hide Wrap;
    OneWord(w, WordProduct(i, j), i * j);
  }

  lemma OneWord(w: Word, x: Word, n: int)
    requires (x - n) % WORDS == 0
    ensures w == x <==> (w - n) % WORDS == 0
  {
  }

  /** Wrapping before a multiplication does not change the wrapped product. */
  lemma WrapTimes(n: int, a: int)
    ensures Wrap(Wrap(n) * a) == Wrap(n * a)
  {
    var k := (Wrap(n) - n) / WORDS;
    assert Wrap(n) == n + k * WORDS;
    assert Wrap(n) * a == n * a + (k * a) * WORDS;
    WrapShift(n * a, k * a);
  }

  /** The word read as an unsigned number. */
  function Unsigned(w: Word): nat {
    w % WORDS
  }

  /** The quotient, rounded toward zero. */
  function Quotient(a: int, b: int): int
    requires b != 0
  {
    if a >= 0 then (if b > 0 then a / b else -(a / -b))
    else (if b > 0 then -(-a / b) else -a / -b)
  }

  /** The remainder that goes with it, of the sign of the dividend. */
  function Remainder(a: int, b: int): int
    requires b != 0
  {
    a - b * Quotient(a, b)
  }

  /** What is left of the dividend without the remainder is the divisor times the quotient. */
  lemma DivisionLaw(a: int, b: int)
    requires b != 0
    ensures a == b * Quotient(a, b) + Remainder(a, b)
  {
  }

  /** The remainder is smaller than the divisor and never of the sign opposite to the dividend's. */
  lemma RemainderSign(a: int, b: int)
    requires b != 0
    ensures (if b > 0 then -b else b) < Remainder(a, b) < (if b > 0 then b else -b)
    ensures a >= 0 ==> Remainder(a, b) >= 0
    ensures a <= 0 ==> Remainder(a, b) <= 0
  {
    var p, q := if a >= 0 then a else -a, if b > 0 then b else -b;
    assert p == q * (p / q) + p % q;
  }

  /** Only the least word divided by -1 has a quotient that is no word. */
  lemma QuotientFits(a: Word, b: Word)
    requires b != 0
    ensures InWord(Quotient(a, b)) <==> !(a == -0x8000_0000 && b == -1)
  {
    var p, q := if a >= 0 then a as int else 0 - a, if b > 0 then b as int else 0 - b;
    Shrinks(p, q);
    assert Quotient(a, b) == if (a >= 0) == (b > 0) then p / q else -(p / q);
  }

  lemma Shrinks(p: nat, q: nat)
    requires q > 0
    ensures 0 <= p / q <= p
    ensures q > 1 && p > 0 ==> p / q < p
  {
    var d := p / q;
    FloorTimes(p, q);
    AtLeastDouble(d, q);
  }

  lemma FloorTimes(n: int, m: int)
    requires n >= 0 && m > 0
    ensures 0 <= n / m && n / m * m <= n
  {
  }

  lemma AtLeastDouble(d: nat, q: nat)
    requires q > 0
    ensures d <= d * q && (q > 1 ==> 2 * d <= d * q)
  {
  }

  lemma NonNegativeProduct(x: int, y: int)
    requires x >= 0 && y >= 0
    ensures x * y >= 0
  {
  }

  lemma ProductBound(a: int, b: int, h: int)
    requires -h <= a <= h && -h <= b <= h
    ensures -(h * h) <= a * b <= h * h
  {
    NonNegativeProduct(h - a, h + b);
    NonNegativeProduct(h + a, h - b);
    assert (h - a) * (h + b) + (h + a) * (h - b) == 2 * (h * h) - 2 * (a * b);
    NonNegativeProduct(h - a, h - b);
    NonNegativeProduct(h + a, h + b);
    assert (h - a) * (h - b) + (h + a) * (h + b) == 2 * (h * h) + 2 * (a * b);
  }
}
