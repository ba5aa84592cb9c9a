/**
 The invariant of extended Euclid with non-negative coefficients and an
 alternating sign. Three routines keep it: the word-array inversion and the two
 machine-word inversions.
 */
module ExtendedEuclid {
  import opened Words
  import opened NumberTheory

  /**
   A and B are the running remainders, X and Y the non-negative coefficients and
   sign the sign they alternate under. The rest exists for the proof: p and q
   write the reduced a as a combination of A and B, a0 is what the reduction
   dropped, kx and ky are the multiples of n the two congruences skip.
   */
  datatype Trace = Trace(A: nat, B: nat, X: nat, Y: nat, sign: int, p: int, q: int, a0: int, kx: int, ky: int)

  /** The congruences, with X * A + Y * B == n bounding the coefficients. */
  ghost predicate Euclid(a: int, n: nat, t: Trace) {
    && t.B < t.A && 0 < t.X && (t.sign == 1 || t.sign == -1)
    && t.X * t.A + t.Y * t.B == n
    && t.p * t.A + t.q * t.B == a - n * t.a0
    && t.sign * (t.Y * a) == t.A + n * t.ky
    && t.sign * (t.X * a) == 0 - (t.B + n * t.kx)
  }

  ghost function Start(a: int, n: nat): Trace
    requires n > 0
  {
    ModSpec(a, n);
    Trace(n, a % n, 1, 0, -1, 0, 1, a / n, a / n, -1)
  }

  /** What a negative zero starts with: it is reduced to the modulus itself. */
  ghost function ZeroStart(n: nat): Trace {
    Trace(n, n, 1, 0, -1, 0, 0, 0, -1, -1)
  }

  /** The invariant, or the start of a negative zero, which one division step mends. */
  ghost predicate Ready(a: int, n: nat, t: Trace) {
    Euclid(a, n, t) || (a == 0 && t == ZeroStart(n))
  }

  /** One division step with quotient d and remainder m: the roles rotate. */
  ghost function Next(t: Trace, d: nat, m: nat): Trace {
    Trace(t.B, m, t.Y + d * t.X, t.X, 0 - t.sign, t.p * d + t.q, t.p, t.a0, t.ky - d * t.kx, t.kx)
  }

  lemma EuclidStart(a: int, n: nat)
    requires n > 0
    ensures Euclid(a, n, Start(a, n))
  {
    ModSpec(a, n);
  }

  lemma CombineSums(x: int, y: int, a: nat, b: nat, d: nat, m: nat)
    requires a == d * b + m
    ensures (y + d * x) * b + x * m == x * a + y * b
  {
    assert x * (d * b + m) == x * (d * b) + x * m;
    assert (y + d * x) * b == y * b + (d * x) * b;
    assert (d * x) * b == x * (d * b);
  }

  lemma CombineCongruence(xa: int, ya: int, n: nat, A: nat, B: nat, sign: int, kx: int, ky: int, d: nat, m: nat)
    requires A == d * B + m
    requires sign * ya == A + n * ky
    requires sign * xa == 0 - (B + n * kx)
    ensures sign * (ya + d * xa) == m + n * (ky - d * kx)
  {
    assert sign * (ya + d * xa) == sign * ya + d * (sign * xa) by {
      assert sign * (d * xa) == d * (sign * xa);
    }
    assert d * (0 - (B + n * kx)) == 0 - d * B - n * (d * kx) by {
      assert d * (n * kx) == n * (d * kx);
      assert d * (B + n * kx) == d * B + d * (n * kx);
    }
    assert n * (ky - d * kx) == n * ky - n * (d * kx);
  }

  lemma CoefficientTimes(x: nat, y: nat, d: nat, a: int)
    ensures (y + d * x) * a == y * a + d * (x * a)
  {
    assert (d * x) * a == d * (x * a);
  }

  lemma FlipSign(s: int, x: int)
    ensures (0 - s) * x == 0 - s * x
  {
  }

  /** A division step keeps every clause. */
  lemma EuclidStep(a: int, n: nat, t: Trace, d: nat, m: nat)
    requires Euclid(a, n, t) && t.A == d * t.B + m && m < t.B
    ensures Euclid(a, n, Next(t, d, m))
  {
    CombineSums(t.X, t.Y, t.A, t.B, d, m);
    CombineSums(t.p, t.q, t.A, t.B, d, m);
    MulCommutes(t.p, d);
    CoefficientTimes(t.X, t.Y, d, a);
    CombineCongruence(t.X * a, t.Y * a, n, t.A, t.B, t.sign, t.kx, t.ky, d, m);
    FlipSign(t.sign, (t.Y + d * t.X) * a);
    FlipSign(t.sign, t.X * a);
    QuotientPositive(t.A, t.B, d, m);
    MulMonotone(t.X, 1, d);
  }

  lemma QuotientPositive(A: nat, B: nat, d: nat, m: nat)
    requires A == d * B + m && m < B < A
    ensures d >= 1
  {
  }

  /** The coefficients never exceed the modulus. */
  lemma CoefficientsBounded(a: int, n: nat, t: Trace)
    requires Euclid(a, n, t)
    ensures t.B < t.A <= n && t.X <= n && (t.B > 0 ==> t.Y <= n)
  {
    MulMonotone(t.X, 1, t.A);
    MulMonotone(t.A, 1, t.X);
    if t.B > 0 {
      MulMonotone(t.Y, 1, t.B);
    }
  }

  /** When the remainder vanishes, A divides both a and n. */
  lemma EndDivides(a: int, n: nat, t: Trace)
    requires Euclid(a, n, t) && t.B == 0
    ensures t.A > 0 && Divides(t.A, n) && Divides(t.A, a)
  {
    assert n == t.A * t.X by { MulCommutes(t.X, t.A); }
    MulCommutes(t.p, t.A);
    MulAssoc(t.A, t.X, t.a0);
    assert a == t.A * (t.p + t.X * t.a0) by {
      assert t.A * (t.p + t.X * t.a0) == t.A * t.p + t.A * (t.X * t.a0);
    }
  }

  ghost function LastCoefficient(n: nat, t: Trace): int {
    if t.sign < 0 then n - t.Y else t.Y
  }

  /** When it is one, the last coefficient is the inverse up to sign. */
  lemma EndInverse(a: int, n: nat, t: Trace)
    requires Euclid(a, n, t) && t.A == 1 && n > 0
    ensures (LastCoefficient(n, t) * a) % n == 1 % n
  {
    if t.sign == 1 {
      ModShift(t.Y * a, 1, n, t.ky);
    } else {
      assert (n - t.Y) * a == n * a - t.Y * a;
      assert n * (t.ky + a) == n * t.ky + n * a;
      ModShift((n - t.Y) * a, 1, n, t.ky + a);
    }
  }

  lemma InverseFromMod(a: int, n: nat, y: nat, r: int)
    requires n > 0 && (y * a) % n == 1 % n && r == y % n
    ensures IsInverse(a, n, r) && Invertible(a, n)
  {
    ModSpec(y, n);
    assert y * a == a * r + n * ((y / n) * a) by {
      assert (n * (y / n)) * a == n * ((y / n) * a);
      assert (n * (y / n) + r) * a == (n * (y / n)) * a + r * a;
    }
    ModShift(y * a, a * r, n, (y / n) * a);
    assert IsInverse(a, n, r);
  }

  /** From any state of the algorithm: coprime arguments end with a remainder of one, hence an inverse. */
  lemma {:induction false} CoprimeReachesInverse(a: int, n: nat, t: Trace)
    requires n > 0 && Euclid(a, n, t) && t.Y <= n && Coprime(a, n)
    ensures Invertible(a, n)
    decreases t.B
  {
    hide Euclid, Coprime, Invertible, Divides, IsInverse;
    if t.B > 0 {
      ModSpec(t.A, t.B);
      MulCommutes(t.B, t.A / t.B);
      QuotientNatural(t.A, t.B);
      CoefficientsBounded(a, n, t);
      EuclidStep(a, n, t, t.A / t.B, t.A % t.B);
      CoprimeReachesInverse(a, n, Next(t, t.A / t.B, t.A % t.B));
    } else {
      EndDivides(a, n, t);
      CommonDivisorIsOne(a, n, t.A);
      EndInverse(a, n, t);
      var y := LastCoefficient(n, t);
      InverseFromMod(a, n, y, y % n);
    }
  }

  lemma QuotientNatural(A: nat, B: nat)
    requires B > 0
    ensures A / B >= 0
  {
    ModSpec(A, B);
    MultipleBounds(B, A / B);
  }

  lemma CommonDivisorIsOne(a: int, n: nat, g: nat)
    requires Coprime(a, n) && g > 0 && Divides(g, a) && Divides(g, n)
    ensures g == 1
  {
  }

  /** Numbers have an inverse modulo n exactly when they have no divisor in common with n. */
  lemma InvertibleIffCoprime(a: int, n: nat)
    requires n > 0
    ensures Invertible(a, n) <==> Coprime(a, n)
  {
    hide Euclid, Coprime, Invertible;
    if Invertible(a, n) {
      InvertibleIsCoprime(a, n);
    }
    if Coprime(a, n) {
      EuclidStart(a, n);
      CoprimeReachesInverse(a, n, Start(a, n));
    }
  }

  lemma ReadyStep(a: int, n: nat, t: Trace)
    requires n > 0 && Ready(a, n, t) && t.Y <= n && t.B > 0
    ensures t.A / t.B >= 0 && t.B <= t.A <= n && t.X <= n
    ensures Euclid(a, n, Next(t, t.A / t.B, t.A % t.B))
  {
    QuotientNatural(t.A, t.B);
    if Euclid(a, n, t) {
      hide Euclid;
      ModSpec(t.A, t.B);
      MulCommutes(t.B, t.A / t.B);
      CoefficientsBounded(a, n, t);
      EuclidStep(a, n, t, t.A / t.B, t.A % t.B);
    } else {
      ModOf(n, n, 1, 0);
    }
  }

  lemma ReadyEnd(a: int, n: nat, t: Trace)
    requires n > 0 && Ready(a, n, t) && t.B == 0
    ensures Euclid(a, n, t)
  {
  }
}
