/**
 What the sieve means: which candidate multipliers a prime rules out, and why
 the residues the sieve stores describe exactly those.
 */
module SieveSpec {
  import opened Words
  import opened Bits
  import opened NumberTheory
  import opened SmallInverse

  datatype Kind = First | Second

  /** The chain member of layer k beside the origin: F * i * 2^k - 1 or F * i * 2^k + 1. */
  function Member(F: nat, i: nat, k: nat, kind: Kind): int {
    F * i * Pow2(k) + (if kind == First then -1 else 1)
  }

  predicate Hit(F: nat, p: nat, i: nat, k: nat, kind: Kind)
    requires p > 0
  {
    Member(F, i, k, kind) % p == 0
  }

  predicate OddPrime(p: nat) {
    Prime(p) && p % 2 == 1
  }

  /** The residue the sieve stores for prime p at layer k. */
  ghost predicate SolvesLayer(F: nat, p: nat, k: nat, r: nat)
    requires p > 0
  {
    IsInverse(F * Pow2(k), p, r)
  }

  lemma OneModulo(p: nat)
    requires p > 1
    ensures 1 % p == 1
  {
    ModOf(1, p, 0, 1);
  }

  /** x is one modulo p exactly when p divides x - 1; minus one, when it divides x + 1. */
  lemma ResidueOfMember(x: int, p: nat)
    requires p > 1
    ensures (x - 1) % p == 0 <==> x % p == 1
    ensures (x + 1) % p == 0 <==> (0 - x) % p == 1
  {
    OneModulo(p);
    ModOf(0, p, 0, 0);
    if (x - 1) % p == 0 {
      var k := ModEqual(x - 1, 0, p);
      ModOf(x, p, k, 1);
    }
    if x % p == 1 {
      var k := ModEqual(x, 1, p);
      ModOf(x - 1, p, k, 0);
    }
    if (x + 1) % p == 0 {
      var k := ModEqual(x + 1, 0, p);
      ModShift(0 - x, 1, p, 0 - k) by {
        assert p * (0 - k) == 0 - p * k;
      }
    }
    if (0 - x) % p == 1 {
      var k := ModEqual(0 - x, 1, p);
      ModOf(x + 1, p, 0 - k, 0) by {
        assert p * (0 - k) == 0 - p * k;
      }
    }
  }

  /** c * y is one modulo p exactly for the y in the residue class of c's inverse. */
  lemma InverseClass(c: int, p: nat, r: nat, y: int)
    requires p > 1 && IsInverse(c, p, r)
    ensures (c * y) % p == 1 <==> y % p == r
  {
    OneModulo(p);
    ModSpec(y, p);
    assert c * y == c * (y % p) + p * (c * (y / p)) by {
      assert c * (p * (y / p)) == p * (c * (y / p));
      assert c * (p * (y / p) + y % p) == c * (p * (y / p)) + c * (y % p);
    }
    ModShift(c * y, c * (y % p), p, c * (y / p));
    if (c * y) % p == 1 {
      InverseUnique(c, p, r, y % p);
    }
  }

  lemma NegatedResidue(i: nat, p: nat, r: nat)
    requires 0 < r < p
    ensures (0 - i) % p == r <==> i % p == p - r
  {
    ModSpec(i, p);
    if i % p == 0 {
      ModOf(0 - i, p, 0 - i / p, 0) by {
        assert p * (0 - i / p) == 0 - p * (i / p);
      }
    } else {
      ModOf(0 - i, p, 0 - i / p - 1, p - i % p) by {
        assert p * (0 - i / p - 1) == 0 - p * (i / p) - p;
      }
    }
  }

  /** The stored residues pick out exactly the multipliers whose member p divides. */
  lemma HitIffResidue(F: nat, p: nat, i: nat, k: nat, r: nat)
    requires p > 1 && 0 < r < p && SolvesLayer(F, p, k, r)
    ensures Hit(F, p, i, k, First) <==> i % p == r
    ensures Hit(F, p, i, k, Second) <==> i % p == p - r
  {
    var c := F * Pow2(k);
    ScaledOrigin(F, i, Pow2(k));
    assert c * (0 - i) == 0 - c * i;
    ResidueOfMember(c * i, p);
    InverseClass(c, p, r, i);
    InverseClass(c, p, r, 0 - i);
    NegatedResidue(i, p, r);
  }

  lemma ScaledOrigin(F: nat, i: nat, w: nat)
    ensures F * i * w == (F * w) * i
  {
  }

  /** A prime dividing F divides no member. */
  lemma NoHit(F: nat, p: nat, i: nat, k: nat, kind: Kind)
    requires p > 1 && F % p == 0
    ensures !Hit(F, p, i, k, kind)
  {
    ModSpec(F, p);
    var x := F * i * Pow2(k);
    var t := (F / p) * i * Pow2(k);
    assert x == p * t by {
      MulAssoc(p, F / p, i);
      MulAssoc(p, (F / p) * i, Pow2(k));
    }
    ModOf(x + 1, p, t, 1);
    ModOf(x - 1, p, t - 1, p - 1) by {
      assert p * (t - 1) == p * t - p;
    }
  }

  // ---- setting the residues up ----

  /** The inverse of F solves layer zero. */
  lemma FirstLayer(F: nat, p: nat, f: nat, r: nat)
    requires p > 1 && f == F % p && IsInverse(f, p, r)
    ensures SolvesLayer(F, p, 0, r) && 0 < r < p
  {
    OneModulo(p);
    assert Pow2(0) == 1;
    ModSpec(F, p);
    assert F * r == f * r + p * ((F / p) * r) by {
      MulAssoc(p, F / p, r);
      assert (p * (F / p) + f) * r == (p * (F / p)) * r + f * r;
    }
    ModShift(F * r, f * r, p, (F / p) * r);
    ModOf(0, p, 0, 0);
  }

  /** Halving modulo p moves a solution one layer up. */
  lemma NextLayer(F: nat, p: nat, k: nat, r: nat)
    requires p > 2 && p % 2 == 1 && SolvesLayer(F, p, k, r)
    ensures var r' := (r * ((p + 1) / 2)) % p; SolvesLayer(F, p, k + 1, r') && 0 < r' < p
  {
    var h := (p + 1) / 2;
    var r', c := (r * h) % p, F * Pow2(k);
    OneModulo(p);
    ModSpec(r * h, p);
    var e := (r * h) / p;
    var m := ModEqual(c * r, 1, p);
    // (2c) * r' == c * r * (2h) - p * ..., and 2h == p + 1
    assert F * Pow2(k + 1) == 2 * c by { DoubledWeight(F, Pow2(k)); }
    assert (2 * c) * r' == c * r + p * (c * r - 2 * c * e) by {
      HalvingArithmetic(c, r, h, p, e, r');
    }
    ModShift((2 * c) * r', 1, p, m + (c * r - 2 * c * e)) by {
      assert p * (m + (c * r - 2 * c * e)) == p * m + p * (c * r - 2 * c * e);
    }
    if r' == 0 {
      ModOf(0, p, 0, 0);
    }
  }

  lemma DoubledWeight(F: nat, w: nat)
    ensures F * (2 * w) == 2 * (F * w)
  {
  }

  lemma HalvingArithmetic(c: int, r: int, h: int, p: int, e: int, r': int)
    requires 2 * h == p + 1 && r * h == p * e + r'
    ensures (2 * c) * r' == c * r + p * (c * r - 2 * c * e)
  {
    assert 2 * r' == r * (2 * h) - 2 * (p * e) == r + r * p - 2 * (p * e);
    assert (2 * c) * r' == c * (2 * r') == c * (r + r * p - 2 * (p * e));
    assert c * (r + r * p - 2 * (p * e)) == c * r + c * (r * p) - c * (2 * (p * e));
    assert c * (r * p) == p * (c * r);
    assert c * (2 * (p * e)) == p * (2 * c * e);
    assert p * (c * r - 2 * c * e) == p * (c * r) - p * (2 * c * e);
  }

  /** Reducing modulo a multiple of p first changes nothing. */
  lemma CombinedModulus(F: nat, c: nat, p: nat, x: nat)
    requires p > 0 && c > 0 && c == p * x
    ensures (F % c) % p == F % p
  {
    ModSpec(F, c);
    MulAssoc(p, x, F / c);
    ModShift(F, F % c, p, x * (F / c));
  }

  lemma PrimeCoprimeResidue(F: nat, p: nat)
    requires Prime(p) && F % p != 0
    ensures (F % p) % p == F % p && (F % p) % p != 0
  {
    ModOf(F % p, p, 0, F % p);
  }

  lemma PrimeAboveTwoIsOdd(p: nat)
    requires Prime(p) && p > 2
    ensures OddPrime(p)
  {
    assert p % 2 != 0;
  }
}
