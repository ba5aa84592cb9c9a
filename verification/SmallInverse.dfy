/** int_invert and single_modinv: inverses modulo a prime below 2^31, in 32-bit signed arithmetic. */
module SmallInverse {
  import opened Words
  import opened NumberTheory
  import opened ExtendedEuclid

  /** The machine's int: every value stored is checked to be in range. */
  type int32 = x: int | -0x8000_0000 <= x < 0x8000_0000

  predicate Prime(p: nat) {
    p >= 2 && forall d :: 1 < d < p ==> p % d != 0
  }

  lemma PrimeCoprime(a: int, p: nat)
    requires Prime(p) && a % p != 0
    ensures Coprime(a, p)
  {
    forall d | d > 0 && Divides(d, a) && Divides(d, p)
      ensures d == 1
    {
      var x :| a == d * x;
      var y :| p == d * y;
      if d != 1 {
        PositiveFactor(p, d, y);
        if d < p {
          ModOf(p, d, y, 0);
        } else {
          ModOf(a, p, x, 0);
        }
      }
    }
  }

  lemma PositiveFactor(p: nat, d: int, y: int)
    requires p > 0 && d > 0 && p == d * y
    ensures d <= p
  {
    MultipleBounds(d, y);
  }

  /** Running remainders of coprime numbers do not vanish before reaching one. */
  lemma RemainderAlive(a: int, n: nat, t: Trace)
    requires n > 0 && Euclid(a, n, t) && Coprime(a, n) && t.A > 1
    ensures t.B > 0
  {
    if t.B == 0 {
      EndDivides(a, n, t);
    }
  }

  /** A remainder of one turns the coefficient beside it into the inverse. */
  lemma OneGivesInverse(a: int, n: nat, t: Trace)
    requires n > 1 && Euclid(a, n, t) && t.B == 1
    ensures 0 < t.X < n
    ensures t.sign == -1 ==> IsInverse(a, n, t.X)
    ensures t.sign == 1 ==> IsInverse(a, n, n - t.X)
  {
    MulMonotone(t.X, 2, t.A);
    if t.sign == -1 {
      FlipSign(1, t.X * a);
      InverseFromWitness(a, n, t.X, t.kx);
    } else {
      assert (n - t.X) * a == n * a - t.X * a;
      assert n * (t.kx + a) == n * t.kx + n * a;
      InverseFromWitness(a, n, n - t.X, t.kx + a);
    }
  }

  // ---- int_invert ----

  /** The machine variables against the trace: coefficients carry their sign. */
  ghost predicate Tracks(t: Trace, rem0: int, rem1: int, aux0: int, aux1: int) {
    && t.A == rem0 && t.B == rem1
    && aux0 == t.sign * t.Y && aux1 == 0 - t.sign * t.X
  }

  lemma SignedCombine(a: int, n: nat, t: Trace, d: nat, m: nat)
    requires Euclid(a, n, t) && t.A == d * t.B + m && m < t.B
    ensures t.sign == 1 || t.sign == -1
    ensures (0 - d) * (0 - t.sign * t.X) + t.sign * t.Y == t.sign * Next(t, d, m).X
    ensures (0 - d) * (0 - t.sign * t.X) == t.sign * (d * t.X)
    ensures d * t.X <= Next(t, d, m).X <= n
    ensures Euclid(a, n, Next(t, d, m))
  {
    hide Euclid;
    EuclidStep(a, n, t, d, m);
    CoefficientsBounded(a, n, Next(t, d, m));
    TraceShape(a, n, t);
    SignCases(t.sign, t.X, t.Y, d);
  }

  lemma SignCases(s: int, x: nat, y: nat, d: nat)
    requires s == 1 || s == -1
    ensures (0 - d) * (0 - s * x) + s * y == s * (y + d * x)
    ensures (0 - d) * (0 - s * x) == s * (d * x)
  {
    if s == 1 {
      assert (0 - d) * (0 - x) == d * x;
    } else {
      assert (0 - d) * x == 0 - d * x;
    }
  }

  lemma TraceShape(a: int, n: nat, t: Trace)
    requires Euclid(a, n, t)
    ensures t.sign == 1 || t.sign == -1
    ensures t.B < t.A <= n
  {
    CoefficientsBounded(a, n, t);
  }

  /** One step on machine words; the trace bounds every intermediate by the modulus. */
  method Step(ghost a: int, ghost n: nat, ghost t: Trace, rem0: int32, rem1: int32, aux0: int32, aux1: int32)
    returns (rem2: int32, aux2: int32, ghost t': Trace)
    requires 1 < n < 0x8000_0000 && Euclid(a, n, t) && Tracks(t, rem0, rem1, aux0, aux1) && rem1 > 1
    requires Coprime(a, n)
    ensures Euclid(a, n, t') && Tracks(t', rem1, rem2, aux1, aux2)
    ensures 0 < rem2 < rem1
  {
    hide Coprime, Euclid;
    TraceShape(a, n, t);
    rem2 := rem0 % rem1;
    var quotient: int32 := Quotient(rem0, rem1);
    SignedCombine(a, n, t, quotient, rem2);
    t' := Next(t, quotient, rem2);
    RemainderAlive(a, n, t');
    var product: int32 := -quotient * aux1;
    aux2 := product + aux0;
  }

  method Quotient(x: int32, y: int32) returns (q: int32)
    requires 0 < y && 0 <= x
    ensures 0 <= q && x == q * y + x % y && q == x / y
  {
    ModSpec(x, y);
    MulCommutes(y, x / y);
    DivSmaller(x, y);
    q := x / y;
  }

  lemma DivSmaller(x: nat, y: nat)
    requires y > 0
    ensures 0 <= x / y <= x
  {
    ModSpec(x, y);
    MultipleBounds(y, x / y);
    if x / y >= 1 {
      MulMonotone(x / y, 1, y);
    }
  }

  /** The unrolled loop: three steps a turn, so that no variable is ever copied. */
  method IntInvert(a: nat, nPrime: nat) returns (r: nat)
    requires a < 0x1_0000_0000 && nPrime < 0x8000_0000 && Prime(nPrime) && a % nPrime != 0
    ensures 0 < r < nPrime && IsInverse(a, nPrime, r)
  {
    hide Euclid, Prime, Coprime, IsInverse;
    PrimeAtLeastTwo(nPrime);
    PrimeCoprime(a, nPrime);
    var rem0: int32, rem1: int32, rem2: int32 := nPrime, a % nPrime, 0;
    var aux0: int32, aux1: int32, aux2: int32 := 0, 1, 0;
    var inverse: int32;
    ghost var t := Start(a, nPrime);
    EuclidStart(a, nPrime);
    while true
      invariant Euclid(a, nPrime, t) && Tracks(t, rem0, rem1, aux0, aux1) && rem1 > 0
      decreases rem1
    {
      if rem1 <= 1 {
        inverse := aux1;
        break;
      }
      rem2, aux2, t := Step(a, nPrime, t, rem0, rem1, aux0, aux1);
      if rem2 <= 1 {
        inverse := aux2;
        break;
      }
      rem0, aux0, t := Step(a, nPrime, t, rem1, rem2, aux1, aux2);
      if rem0 <= 1 {
        inverse := aux0;
        break;
      }
      rem1, aux1, t := Step(a, nPrime, t, rem2, rem0, aux2, aux0);
    }
    TraceShape(a, nPrime, t);
    OneGivesInverse(a, nPrime, t);
    r := UnsignedSum(inverse, nPrime);
  }

  lemma PrimeAtLeastTwo(p: nat)
    requires Prime(p)
    ensures p >= 2
  {
  }

  /** The final sum, taken in unsigned 32-bit arithmetic. */
  method UnsignedSum(inverse: int32, nPrime: nat) returns (r: nat)
    requires 0 < nPrime < 0x8000_0000 && 0 < inverse + nPrime && inverse < nPrime
    ensures r == if inverse < 0 then inverse + nPrime else inverse
  {
    var sum := (inverse + nPrime) % 0x1_0000_0000;
    ModOf(sum, nPrime, if inverse < 0 then 0 else 1, if inverse < 0 then inverse + nPrime else inverse);
    r := sum % nPrime;
  }

  // ---- single_modinv ----

  /** k subtractions that stay non-negative are at most the quotient, and k times the coefficient within bound. */
  lemma Subtracted(D: nat, d: nat, k: nat, p: nat, bound: int)
    requires d > 0 && d * k <= D && (D / d) * p <= bound
    ensures p * k <= bound
  {
    ModSpec(D, d);
    if k > D / d {
      MulMonotone(d, D / d + 1, k);
      assert false;
    }
    MulMonotone(p, k, D / d);
  }

  /** The ladder stopped after k subtractions. */
  lemma LadderDone(D: nat, d: nat, k: nat, p: nat, q: int, rem: int)
    requires d > 0 && rem == D - d * k && 0 <= rem < d && q == p * k
    ensures rem == D % d && q == (D / d) * p
  {
    ModOf(D, d, k, rem);
  }

  /** The quotient and remainder found by repeated subtraction, falling back to division after nine. */
  method Ladder(dividend: int32, divisor: int32, ps1: int32, ghost bound: int) returns (q: int32, rem: int32)
    requires 1 < divisor < dividend && 0 <= ps1
    requires (dividend / divisor) * ps1 <= bound < 0x8000_0000
    ensures rem == dividend % divisor && q == (dividend / divisor) * ps1
  {
    var rem0: int32 := dividend - divisor;
    var t: int32 := rem0 - divisor;
    q, rem := ps1, rem0;
    if t >= 0 {
      Subtracted(dividend, divisor, 2, ps1, bound);
      q := q + ps1; rem := t; t := t - divisor;
      if t >= 0 {
        Subtracted(dividend, divisor, 3, ps1, bound);
        q := q + ps1; rem := t; t := t - divisor;
        if t >= 0 {
          Subtracted(dividend, divisor, 4, ps1, bound);
          q := q + ps1; rem := t; t := t - divisor;
          if t >= 0 {
            q, rem := LowerLadder(dividend, divisor, ps1, q, rem, t, bound);
            return;
          }
        }
      }
    }
    ghost var k := if rem == dividend - divisor then 1 else if rem == dividend - 2 * divisor then 2
    else if rem == dividend - 3 * divisor then 3 else 4;
    LadderDone(dividend, divisor, k, ps1, q, rem);
  }

  /** The rungs below the fourth. */
  method LowerLadder(dividend: int32, divisor: int32, ps1: int32, q4: int32, rem4: int32, t4: int32, ghost bound: int)
    returns (q: int32, rem: int32)
    requires 1 < divisor < dividend && 0 <= ps1
    requires q4 == 4 * ps1 && rem4 == dividend - 4 * divisor && 0 <= t4 == rem4 - divisor
    requires (dividend / divisor) * ps1 <= bound < 0x8000_0000
    ensures rem == dividend % divisor && q == (dividend / divisor) * ps1
  {
    var t: int32 := t4;
    Subtracted(dividend, divisor, 5, ps1, bound);
    q := q4 + ps1; rem := t; t := t - divisor;
    if t >= 0 {
      Subtracted(dividend, divisor, 6, ps1, bound);
      q := q + ps1; rem := t; t := t - divisor;
      if t >= 0 {
        Subtracted(dividend, divisor, 7, ps1, bound);
        q := q + ps1; rem := t; t := t - divisor;
        if t >= 0 {
          Subtracted(dividend, divisor, 8, ps1, bound);
          q := q + ps1; rem := t; t := t - divisor;
          if t >= 0 {
            Subtracted(dividend, divisor, 9, ps1, bound);
            q := q + ps1; rem := t;
            if rem >= divisor {
              q := Quotient(dividend, divisor);
              rem := dividend - q * divisor;
              q := q * ps1;
              return;
            }
          }
        }
      }
    }
    ghost var k := if rem == dividend - 5 * divisor then 5 else if rem == dividend - 6 * divisor then 6
    else if rem == dividend - 7 * divisor then 7 else if rem == dividend - 8 * divisor then 8 else 9;
    LadderDone(dividend, divisor, k, ps1, q, rem);
  }

  /** What one division step does to the loop's variables. */
  lemma RoundFacts(a: int, n: nat, t: Trace)
    requires n > 0 && Euclid(a, n, t) && Coprime(a, n) && t.B > 1
    ensures 1 < t.B < t.A <= n
    ensures Euclid(a, n, Next(t, t.A / t.B, t.A % t.B))
    ensures (t.A / t.B) * t.X <= Next(t, t.A / t.B, t.A % t.B).X <= n
    ensures 0 < t.A % t.B < t.B && t.X <= n
  {
    hide Coprime;
    var d, m := t.A / t.B, t.A % t.B;
    ModSpec(t.A, t.B);
    MulCommutes(t.B, d);
    SignedCombine(a, n, t, d, m);
    CoefficientsBounded(a, n, t);
    RemainderAlive(a, n, Next(t, d, m));
  }

  /** Extended Euclid with unsigned coefficients and a parity flag. */
  method SingleModinv(a: int32, modulus: int32) returns (r: int32)
    requires 0 < a < modulus && Coprime(a, modulus)
    ensures 0 < r < modulus && IsInverse(a, modulus, r)
  {
    hide Euclid, Coprime, IsInverse;
    var dividend: int32, divisor: int32, ps1: int32, ps2: int32 := modulus, a, 1, 0;
    var parity := 0;
    var q: int32 := 1;
    ghost var t := Start(a, modulus);
    EuclidStart(a, modulus);
    ModOf(a, modulus, 0, a);
    while divisor > 1
      invariant Euclid(a, modulus, t) && divisor > 0 && q == ps1
      invariant t.A == dividend && t.B == divisor && t.X == ps1 && t.Y == ps2
      invariant t.sign == (if parity == 0 then -1 else 1)
      decreases divisor
    {
      RoundFacts(a, modulus, t);
      t := Next(t, t.A / t.B, t.A % t.B);
      var rem: int32;
      q, rem := Ladder(dividend, divisor, ps1, modulus);
      q := q + ps2;
      parity := if parity == 0 then -1 else 0;
      dividend := divisor;
      divisor := rem;
      ps2 := ps1;
      ps1 := q;
    }
    OneGivesInverse(a, modulus, t);
    if parity == 0 {
      r := ps1;
    } else {
      r := modulus - ps1;
    }
  }
}
