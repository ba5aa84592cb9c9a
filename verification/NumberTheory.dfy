/** Quotients and remainders, congruences, inverses and common divisors. */
module NumberTheory {

  function Min(a: nat, b: nat): nat {
    if a <= b then a else b
  }

  function Max(a: nat, b: nat): nat {
    if a >= b then a else b
  }

  /** r is an inverse of a modulo n. */
  predicate IsInverse(a: int, n: nat, r: int)
    requires n > 0
  {
    0 <= r < n && (a * r) % n == 1 % n
  }

  ghost predicate Invertible(a: int, n: nat)
    requires n > 0
  {
    exists r :: IsInverse(a, n, r)
  }

  ghost predicate Divides(d: int, x: int) {
    exists k :: x == d * k
  }

  ghost predicate Coprime(a: int, n: int) {
    forall d :: d > 0 && Divides(d, a) && Divides(d, n) ==> d == 1
  }

  lemma ModOf(x: int, n: nat, k: int, r: int)
    requires n > 0 && x == n * k + r && 0 <= r < n
    ensures x % n == r && x / n == k
  {
    var e := x / n - k;
    assert x == n * (x / n) + x % n;
    assert n * e == n * (x / n) - n * k;
    MultipleBounds(n, e);
  }

  /** x and y agree modulo n when they differ by a multiple of n. */
  lemma ModShift(x: int, y: int, n: nat, k: int)
    requires n > 0 && x == y + n * k
    ensures x % n == y % n
  {
    assert y == n * (y / n) + y % n;
    assert n * (k + y / n) == n * k + n * (y / n);
    ModOf(x, n, k + y / n, y % n);
  }

  lemma ModSpec(x: int, n: nat)
    requires n > 0
    ensures x == n * (x / n) + x % n && 0 <= x % n < n
  {
  }

  lemma ModEqual(x: int, y: int, n: nat) returns (k: int)
    requires n > 0 && x % n == y % n
    ensures x == y + n * k
  {
    ModSpec(x, n);
    ModSpec(y, n);
    k := x / n - y / n;
    assert n * k == n * (x / n) - n * (y / n);
  }

  /** Any solution of r * a == 1 + n * k gives an inverse. */
  lemma InverseFromWitness(a: int, n: nat, r: int, k: int)
    requires n > 0 && 0 <= r < n && r * a == 1 + n * k
    ensures IsInverse(a, n, r)
  {
    assert a * r == r * a;
    ModShift(a * r, 1, n, k);
  }

  /** Invertible residues are exactly those without a common divisor with the modulus. */
  lemma CommonDivisorBlocks(a: int, n: nat, g: int)
    requires n > 0 && g > 1 && Divides(g, a) && Divides(g, n)
    ensures !Invertible(a, n)
  {
    if Invertible(a, n) {
      var r :| IsInverse(a, n, r);
      var k := ModEqual(a * r, 1, n);
      var x :| a == g * x;
      var y :| n == g * y;
      FactorOut(g, x, r, y, k);
      NoFractionOfOne(g, x * r - y * k);
    }
  }

  lemma FactorOut(g: int, x: int, r: int, y: int, k: int)
    ensures g * (x * r - y * k) == (g * x) * r - (g * y) * k
  {
    assert (g * x) * r == g * (x * r);
    assert (g * y) * k == g * (y * k);
  }

  lemma NoFractionOfOne(g: int, t: int)
    requires g > 1
    ensures g * t != 1
  {
    MultipleBounds(g, t);
  }

  lemma MultipleBounds(n: nat, k: int)
    ensures k >= 1 ==> n * k >= n
    ensures k <= -1 ==> n * k <= 0 - n
    ensures k == 0 ==> n * k == 0
  {
    if k >= 1 {
      assert n * k == n + n * (k - 1);
    } else if k <= -1 {
      assert n * k == n * (k + 1) - n;
    }
  }

  lemma InvertibleIsCoprime(a: int, n: nat)
    requires n > 0 && Invertible(a, n)
    ensures Coprime(a, n)
  {
    forall d | d > 0 && Divides(d, a) && Divides(d, n)
      ensures d == 1
    {
      if d > 1 {
        CommonDivisorBlocks(a, n, d);
      }
    }
  }

  /** An inverse is unique in its range. */
  lemma InverseUnique(a: int, n: nat, r: int, s: int)
    requires n > 0 && IsInverse(a, n, r) && IsInverse(a, n, s)
    ensures r == s
  {
    // r == r * (a * s) == (a * r) * s == s, modulo n
    var k := ModEqual(a * r, 1, n);
    var l := ModEqual(a * s, 1, n);
    assert (a * r) * s == s + n * (k * s) by {
      assert (1 + n * k) * s == s + (n * k) * s;
      assert (n * k) * s == n * (k * s);
    }
    assert (a * s) * r == r + n * (l * r) by {
      assert (1 + n * l) * r == r + (n * l) * r;
      assert (n * l) * r == n * (l * r);
    }
    assert (a * r) * s == (a * s) * r;
    SmallDifference(r - s, n, k * s - l * r) by {
      assert n * (k * s - l * r) == n * (k * s) - n * (l * r);
    }
  }

  lemma SmallDifference(d: int, n: nat, k: int)
    requires n > 0 && d < n && d + n > 0 && d == n * k
    ensures d == 0
  {
    MultipleBounds(n, k);
  }
}
