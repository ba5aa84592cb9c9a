/**
 Two as a square: the power of two behind the Euler-Lagrange-Lifchitz test,
 modulo a prime. The even numbers below p are the even k up to half of p and
 the p - k for its odd k; their product is taken in both ways.
 */
module EulerCriterion {
  import opened Bits
  import opened NumberTheory
  import opened SmallInverse
  import ExtendedEuclid

  function Factorial(m: nat): nat {
    if m == 0 then 1 else m * Factorial(m - 1)
  }

  /** The sign of the product of the first m numbers when the odd ones are negated. */
  function Sign(m: nat): int {
    if m == 0 then 1 else if m % 2 == 1 then 0 - Sign(m - 1) else Sign(m - 1)
  }

  lemma {:induction false} SignPeriod(m: nat)
    ensures Sign(m) == if m % 4 == 0 || m % 4 == 3 then 1 else -1
  {
    if m > 0 {
      SignPeriod(m - 1);
      QuarterStep(m);
    }
  }

  lemma QuarterStep(m: nat)
    requires m > 0
    ensures (m - 1) % 4 == (if m % 4 == 0 then 3 else m % 4 - 1) && m % 2 == m % 4 % 2
  {
    ModSpec(m, 4);
    ModOf(m - 1, 4, if m % 4 == 0 then m / 4 - 1 else m / 4, if m % 4 == 0 then 3 else m % 4 - 1);
    ModShift(m, m % 4, 2, 2 * (m / 4));
  }

  function EvenPart(k: nat): nat {
    if k % 2 == 0 then k else 1
  }

  /** The product of the even numbers in [a, b). */
  function Evens(a: nat, b: nat): nat
    decreases b - a
  {
    if a >= b then 1 else EvenPart(a) * Evens(a + 1, b)
  }

  lemma {:induction false} EvensJoin(a: nat, b: nat, c: nat)
    requires a <= b <= c
    ensures Evens(a, c) == Evens(a, b) * Evens(b, c)
    decreases b - a
  {
    if a < b {
      EvensJoin(a + 1, b, c);
      Regroup(EvenPart(a), Evens(a + 1, b), Evens(b, c));
    }
  }

  lemma Regroup(x: int, y: int, z: int)
    ensures x * (y * z) == (x * y) * z
  {
  }

  lemma EvensLast(a: nat, b: nat)
    requires a <= b
    ensures Evens(a, b + 1) == Evens(a, b) * EvenPart(b)
  {
    EvensJoin(a, b, b + 1);
  }

  /** 2 * 4 * ... * 2m */
  lemma {:induction false} DoubledFactorial(m: nat)
    ensures Evens(1, 2 * m + 1) == Pow2(m) * Factorial(m)
  {
    if m > 0 {
      DoubledFactorial(m - 1);
      EvensLast(1, 2 * m - 1);
      EvensLast(1, 2 * m);
      assert EvenPart(2 * m) == 2 * m && EvenPart(2 * m - 1) == 1;
      hide Evens, EvenPart;
      FactorsMove(Pow2(m - 1), Factorial(m - 1), m);
    }
  }

  lemma FactorsMove(w: int, f: int, m: int)
    ensures (w * f) * (2 * m) == (2 * w) * (m * f)
  {
    Regroup(w * f, 2, m);
    Regroup(2 * w, m, f);
  }

  /** With the odd k negated, that is turned into the even p - k, modulo p. */
  lemma {:induction false} SignedProduct(p: nat, m: nat) returns (t: int)
    requires p % 2 == 1 && m < p
    ensures Sign(m) * Factorial(m) == Evens(1, m + 1) * Evens(p - m, p) + p * t
  {
    hide EvenPart;
    if m == 0 {
      t := 0;
    } else {
      var t' := SignedProduct(p, m - 1);
      var low, high := Evens(1, m), Evens(p - m + 1, p);
      t := if m % 2 == 1 then 0 - m * t' - low * high else m * t';
      EvensLast(1, m);
      EvensFirst(p - m, p);
      OddComplement(p, m);
      SignedStep(p, m, Sign(m - 1), Factorial(m - 1), low, high, t');
      hide Evens;
    }
  }

  lemma EvensFirst(a: nat, b: nat)
    requires a < b
    ensures Evens(a, b) == EvenPart(a) * Evens(a + 1, b)
  {
  }

  lemma OddComplement(p: nat, m: nat)
    requires p % 2 == 1 && m < p
    ensures EvenPart(m) == (if m % 2 == 1 then 1 else m)
    ensures EvenPart(p - m) == (if m % 2 == 1 then p - m else 1)
  {
  }

  lemma SignedStep(p: int, m: int, s: int, f: int, low: int, high: int, t: int)
    requires s * f == low * high + p * t
    ensures s * (m * f) == (low * m) * high + p * (m * t)
    ensures (0 - s) * (m * f) == low * ((p - m) * high) + p * (0 - m * t - low * high)
  {
    var x := low * high;
    assert s * (m * f) == m * (s * f) == m * x + m * (p * t);
    assert m * (p * t) == p * (m * t);
    assert (low * m) * high == m * x;
    assert low * ((p - m) * high) == p * x - m * x;
    assert p * (0 - m * t - x) == 0 - p * (m * t) - p * x;
    assert (0 - s) * (m * f) == 0 - s * (m * f);
  }

  /** A prime that divides k * x for a smaller k divides x. */
  lemma CancelFactor(p: nat, k: nat, x: int)
    requires Prime(p) && 0 < k < p && Divides(p, k * x)
    ensures Divides(p, x)
  {
    ModOf(k, p, 0, k);
    PrimeCoprime(k, p);
    ExtendedEuclid.InvertibleIffCoprime(k, p);
    var r :| IsInverse(k, p, r);
    var j := ModEqual(k * r, 1, p);
    var y :| k * x == p * y;
    Cancelled(p, k, x, r, j, y);
    assert x == p * (r * y - j * x);
  }

  lemma Cancelled(p: int, k: int, x: int, r: int, j: int, y: int)
    requires k * r == 1 + p * j && k * x == p * y
    ensures x == p * (r * y - j * x)
  {
    assert (k * r) * x == r * (k * x) == r * (p * y) == p * (r * y);
    assert (1 + p * j) * x == x + p * (j * x);
    assert p * (r * y - j * x) == p * (r * y) - p * (j * x);
  }

  lemma {:induction false} CancelFactorial(p: nat, m: nat, x: int)
    requires Prime(p) && m < p && Divides(p, Factorial(m) * x)
    ensures Divides(p, x)
  {
    if m > 0 {
      Regroup(m, Factorial(m - 1), x);
      CancelFactor(p, m, Factorial(m - 1) * x);
      CancelFactorial(p, m - 1, x);
    }
  }

  /** Half of the way to p, the power of two is one or minus one, by the residue of p modulo 8. */
  lemma TwoPowerModPrime(p: nat)
    requires Prime(p) && p % 2 == 1
    ensures Pow2((p - 1) / 2) % p == if p % 8 == 1 || p % 8 == 7 then 1 else p - 1
  {
    hide Pow2, Factorial, Sign, Evens;
    var h := (p - 1) / 2;
    var w, f, s := Pow2(h), Factorial(h), Sign(h);
    DoubledFactorial(h);
    EvensJoin(1, h + 1, p);
    var t := SignedProduct(p, h);
    assert f * (w - s) == p * (0 - t) by { FactorialTaken(f, w, s, p, t); }
    CancelFactorial(p, h, w - s);
    var k :| w - s == p * k;
    SignPeriod(h);
    HalfByEight(p);
    if s == 1 {
      ModOf(w, p, k, 1);
    } else {
      ModOf(w, p, k - 1, p - 1) by { assert p * (k - 1) == p * k - p; }
    }
  }

  lemma FactorialTaken(f: int, w: int, s: int, p: int, t: int)
    requires s * f == w * f + p * t
    ensures f * (w - s) == p * (0 - t)
  {
    assert f * (w - s) == w * f - s * f;
    assert p * (0 - t) == 0 - p * t;
  }

  lemma HalfByEight(p: nat)
    requires p % 2 == 1
    ensures (p % 8 == 1 || p % 8 == 7) <==> ((p - 1) / 2 % 4 == 0 || (p - 1) / 2 % 4 == 3)
  {
    ModSpec(p, 8);
    ModOf((p - 1) / 2, 4, p / 8, (p % 8 - 1) / 2);
  }
}
