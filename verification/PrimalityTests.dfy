/** The Fermat and the Euler-Lagrange-Lifchitz probable-primality tests, base two. */
module PrimalityTests {
  import opened Words
  import opened Bits
  import opened NumberTheory
  import opened SmallInverse
  import opened EulerCriterion
  import opened Target

  /** Passed, failed with the fractional length recorded, or given up with an error message. */
  datatype Verdict = Passed | Failed | Invalid

  /** 2^e mod n, what mpz_powm computes */
  function PowMod(e: nat, n: nat): (R: nat)
    requires n > 0
    ensures R < n
  {
    Pow2(e) % n
  }

  predicate FermatPasses(n: nat)
    requires n > 0
  {
    PowMod(n - 1, n) == 1
  }

  /** The fractional length of a failed number: how far the Fermat remainder is from it. */
  function Fraction(n: nat, R: nat): nat
    requires R < n
  {
    ScaledQuotient(n - R, n);
    (n - R) * FRACTION / n
  }

  lemma ScaledQuotient(x: nat, n: nat)
    requires 0 < x <= n
    ensures 0 <= x * FRACTION / n <= FRACTION
    ensures x * FRACTION / n == FRACTION <==> x == n
  {
    if x == n {
      ModOf(x * FRACTION, n, FRACTION, 0);
    } else {
      QuotientLess(x * FRACTION, n, FRACTION);
      QuotientAtLeast(x * FRACTION, n, 0);
    }
  }

  /**
   What a failed test leaves in nLength': the eight bits of length it was given over
   the fraction f, the floor of the Fermat remainder's distance from n, in 2^24ths of n.
   */
  ghost predicate Recorded(n: nat, nLength: nat, nLength': nat)
    requires n > 0
  {
    var R, f := Pow2(n - 1) % n, nLength' % 0x100_0000;
    && nLength' / 0x100_0000 == nLength / 0x100_0000 % 256
    && f * n <= (n - R) * 0x100_0000 < (f + 1) * n
  }

  lemma FractionRecorded(n: nat, nLength: nat, nLength': nat)
    requires n > 0 && Fraction(n, PowMod(n - 1, n)) < FRACTION
    requires nLength' == LengthBits(nLength) + Fraction(n, PowMod(n - 1, n))
    ensures Recorded(n, nLength, nLength')
  {
    hide Pow2;
    var R := PowMod(n - 1, n);
    var f := Fraction(n, R);
    FractionFloor(n, R);
    ModOf(nLength', FRACTION, TargetGetLength(nLength), f);
  }

  lemma FractionFloor(n: nat, R: nat)
    requires R < n
    ensures Fraction(n, R) * n <= (n - R) * 0x100_0000 < (Fraction(n, R) + 1) * n
  {
    FloorBounds((n - R) * FRACTION, n);
  }

  /** An odd number above one divides no power of two. */
  lemma {:induction false} OddDividesNoPower(n: nat, e: nat)
    requires n % 2 == 1 && n > 1
    ensures PowMod(e, n) != 0
  {
    ModSpec(Pow2(e), n);
    if PowMod(e, n) == 0 {
      var k := Pow2(e) / n;
      if e == 0 {
        MultipleBounds(n, k);
        assert false;
      } else {
        OddFactor(n, k, Pow2(e - 1));
        ModOf(Pow2(e - 1), n, k / 2, 0);
        OddDividesNoPower(n, e - 1);
        assert false;
      }
    }
  }

  lemma OddFactor(n: nat, k: nat, h: nat)
    requires n % 2 == 1 && n * k == 2 * h
    ensures n * (k / 2) == h
  {
    var m := n / 2;
    assert (2 * m + 1) * k == 2 * (m * k) + k;
    assert k % 2 == 0;
    assert n * (2 * (k / 2)) == 2 * (n * (k / 2));
  }

  /**
   The Fermat test of n, for the plain and the fast variant: the only number
   it gives up on leaves the remainder zero.
   */
  method FermatProbablePrimalityTest(n: nat, nLength: nat, fFastFail: bool) returns (v: Verdict, nLength': nat)
    requires n > 0
    ensures v == Passed <==> FermatPasses(n)
    ensures v == Passed <==> Pow2(n - 1) % n == 1
    ensures v == Failed && !fFastFail ==> Recorded(n, nLength, nLength')
    ensures Prime(n) && n % 2 == 1 ==> v == Passed
    ensures v == Failed && !fFastFail ==> nLength' == LengthBits(nLength) + Fraction(n, PowMod(n - 1, n))
    ensures v == Failed && !fFastFail ==> Fraction(n, PowMod(n - 1, n)) < FRACTION
    ensures v != Failed || fFastFail ==> nLength' == nLength
    ensures v == Invalid <==> !fFastFail && PowMod(n - 1, n) == 0
  {
    FermatMeans(n);
    hide PowMod, LengthBits, Fraction, Recorded, FermatPasses, Prime, Pow2;
    nLength' := nLength;
    var R := PowMod(n - 1, n);
    if R == 1 {
      return Passed, nLength;
    }
    if fFastFail {
      return Failed, nLength;
    }
    var nFractionalLength := Fraction(n, R);
    FractionBound(n, R);
    if nFractionalLength >= FRACTION {
      return Invalid, nLength;
    }
    FractionRecorded(n, nLength, LengthBits(nLength) + nFractionalLength);
    return Failed, LengthBits(nLength) + nFractionalLength;
  }

  lemma FermatMeans(n: nat)
    requires n > 0
    ensures FermatPasses(n) == (Pow2(n - 1) % n == 1) == (PowMod(n - 1, n) == 1)
    ensures Prime(n) && n % 2 == 1 ==> FermatPasses(n)
  {
    hide Pow2, Prime;
    if Prime(n) && n % 2 == 1 {
      PrimePasses(n);
    }
  }

  /** No odd prime fails either test. */
  lemma PrimePasses(n: nat)
    requires Prime(n) && n % 2 == 1
    ensures EllPasses(n) && FermatPasses(n)
  {
    hide Pow2;
    TwoPowerModPrime(n);
    EllImpliesFermat(n);
  }

  lemma FractionBound(n: nat, R: nat)
    requires R < n
    ensures Fraction(n, R) < FRACTION <==> R != 0
  {
    ScaledQuotient(n - R, n);
  }

  /** The remainder the Euler-Lagrange-Lifchitz test asks of 2^((n - 1) / 2). */
  function Expected(n: nat): int {
    if n % 8 == 7 || n % 8 == 1 then 1 else n - 1
  }

  /** The cases the test knows: three modulo four in the first kind, one modulo four in the second. */
  predicate ValidCase(n: nat, fSophieGermain: bool) {
    n % 4 == if fSophieGermain then 3 else 1
  }

  predicate EllPasses(n: nat)
    requires n > 0
  {
    PowMod((n - 1) / 2, n) == Expected(n)
  }

  function SquareMod(R: nat, n: nat): (S: nat)
    requires n > 0
    ensures S < n
  {
    R * R % n
  }

  /** Squaring the half power gives the Fermat remainder. */
  lemma SquaredHalfPower(n: nat)
    requires n % 2 == 1
    ensures SquareMod(PowMod((n - 1) / 2, n), n) == PowMod(n - 1, n)
  {
    hide Pow2;
    var e := (n - 1) / 2;
    Pow2Add(e, e);
    SquareModulo(Pow2(e), n);
  }

  lemma SquareModulo(P: nat, n: nat)
    requires n > 0
    ensures SquareMod(P % n, n) == P * P % n
  {
    var k, R := P / n, P % n;
    ModSpec(P, n);
    SquareShift(R, n, k);
    ModShift(P * P, R * R, n, k * (n * k) + 2 * (k * R));
  }

  lemma SquareShift(R: nat, n: nat, k: nat)
    ensures (n * k + R) * (n * k + R) == R * R + n * (k * (n * k) + 2 * (k * R))
  {
    assert (n * k + R) * (n * k + R) == (n * k) * (n * k) + 2 * ((n * k) * R) + R * R;
    MulAssoc(n, k, n * k);
    MulAssoc(n, k, R);
    assert n * (k * (n * k) + 2 * (k * R)) == n * (k * (n * k)) + 2 * (n * (k * R));
  }

  /** Whoever passes also passes Fermat's test. */
  lemma EllImpliesFermat(n: nat)
    requires n % 2 == 1 && n > 1 && EllPasses(n)
    ensures FermatPasses(n)
  {
    hide PowMod;
    SquaredHalfPower(n);
    if Expected(n) == 1 {
      ModOf(1, n, 0, 1);
    } else {
      assert (n - 1) * (n - 1) == n * (n - 2) + 1;
      ModOf((n - 1) * (n - 1), n, n - 2, 1);
    }
  }

  /** The fraction after a failed test comes from the Fermat remainder, which is not zero. */
  lemma FailingFraction(n: nat, R: nat)
    requires n % 2 == 1 && R == SquareMod(PowMod((n - 1) / 2, n), n)
    ensures R == PowMod(n - 1, n)
    ensures n > 1 ==> Fraction(n, R) < FRACTION
  {
    hide PowMod, Fraction, SquareMod;
    SquaredHalfPower(n);
    FractionBound(n, R);
    if n > 1 {
      OddDividesNoPower(n, n - 1);
    }
  }

  lemma ValidIsOdd(n: nat, fSophieGermain: bool)
    requires ValidCase(n, fSophieGermain)
    ensures n % 2 == 1
  {
    ModSpec(n, 4);
    ModOf(n, 2, 2 * (n / 4) + (if fSophieGermain then 1 else 0), 1);
  }

  lemma EllMeans(n: nat, fSophieGermain: bool)
    requires n > 0 && ValidCase(n, fSophieGermain)
    ensures n % 2 == 1
    ensures PowMod((n - 1) / 2, n) == Pow2((n - 1) / 2) % n
    ensures EllPasses(n) <==> PowMod((n - 1) / 2, n) == if n % 8 == 1 || n % 8 == 7 then 1 else n - 1
    ensures Prime(n) ==> EllPasses(n) && n > 1
  {
    hide Pow2, Prime;
    ValidIsOdd(n, fSophieGermain);
    if Prime(n) {
      PrimePasses(n);
      PrimeAboveOne(n);
    }
  }

  lemma PrimeAboveOne(n: nat)
    requires Prime(n)
    ensures n > 1
  {
  }

  lemma CaseByResidue(n: nat, fSophieGermain: bool)
    ensures n % 4 == (if fSophieGermain then 3 else 1) <==> ValidCase(n, fSophieGermain)
    ensures ValidCase(n, fSophieGermain) <==>
            n % 8 == (if fSophieGermain then 3 else 1) || n % 8 == (if fSophieGermain then 7 else 5)
  {
    ModSpec(n, 8);
    ModShift(n, n % 8, 4, 2 * (n / 8));
  }

  /** Half the power against what the residue modulo 8 asks for; known is false on residues without a case. */
  method ResidueTest(n: nat, fSophieGermain: bool) returns (known: bool, fPassedTest: bool, R: nat)
    requires n > 0
    ensures known == ValidCase(n, fSophieGermain)
    ensures known ==> n % 2 == 1 && R == PowMod((n - 1) / 2, n)
    ensures known && n > 1 ==> fPassedTest == EllPasses(n)
    ensures fSophieGermain && n % 8 == 7 ==> known && (fPassedTest <==> Pow2((n - 1) / 2) % n == 1)
    ensures fSophieGermain && n % 8 == 3 ==> known && (fPassedTest <==> Pow2((n - 1) / 2) % n == n - 1)
    ensures !fSophieGermain && n % 8 == 5 ==> known && (fPassedTest <==> Pow2((n - 1) / 2) % n == n - 1)
    ensures !fSophieGermain && n % 8 == 1 ==> known && (fPassedTest <==> Pow2((n - 1) / 2) % n == 1)
    ensures Prime(n) && n % 4 == (if fSophieGermain then 3 else 1) ==> known && fPassedTest
  {
    CaseByResidue(n, fSophieGermain);
    if ValidCase(n, fSophieGermain) {
      EllMeans(n, fSophieGermain);
    }
    hide PowMod, Prime, EllPasses, Pow2, ValidCase;
    R := PowMod((n - 1) / 2, n);
    var nMod8 := n % 8;
    known, fPassedTest := true, false;
    if fSophieGermain && nMod8 == 7 {
      fPassedTest := R == 1;
    } else if fSophieGermain && nMod8 == 3 {
      fPassedTest := R + 1 == n;
    } else if !fSophieGermain && nMod8 == 5 {
      fPassedTest := R + 1 == n;
    } else if !fSophieGermain && nMod8 == 1 {
      fPassedTest := R == 1;
    } else {
      known := false;
    }
  }

  /** The plain and the fast variant. */
  method EulerLagrangeLifchitzPrimalityTest(n: nat, fSophieGermain: bool, nLength: nat) returns (v: Verdict, nLength': nat)
    requires n > 0
    ensures !ValidCase(n, fSophieGermain) ==> v == Invalid && nLength' == nLength
    ensures ValidCase(n, fSophieGermain) && n > 1 ==> v == if EllPasses(n) then Passed else Failed
    ensures v == Passed ==> nLength' == nLength
    ensures v == Failed ==> nLength' == LengthBits(nLength) + Fraction(n, PowMod(n - 1, n))
    ensures v == Failed ==> Fraction(n, PowMod(n - 1, n)) < FRACTION
    ensures v == Failed ==> Recorded(n, nLength, nLength')
    ensures fSophieGermain && n % 8 == 7 ==> (v == Passed <==> Pow2((n - 1) / 2) % n == 1)
    ensures fSophieGermain && n % 8 == 3 ==> (v == Passed <==> Pow2((n - 1) / 2) % n == n - 1)
    ensures !fSophieGermain && n % 8 == 5 ==> (v == Passed <==> Pow2((n - 1) / 2) % n == n - 1)
    ensures !fSophieGermain && n % 8 == 1 ==> (v == Passed <==> Pow2((n - 1) / 2) % n == 1)
    ensures Prime(n) && n % 4 == (if fSophieGermain then 3 else 1) ==> v == Passed
  {
    hide PowMod, LengthBits, Fraction, SquareMod, Recorded, Prime, EllPasses, ValidCase;
    nLength' := nLength;
    var known, fPassedTest, R := ResidueTest(n, fSophieGermain);
    if !known {
      return Invalid, nLength;
    }
    if fPassedTest {
      return Passed, nLength;
    }
    R := SquareMod(R, n);
    var nFractionalLength := Fraction(n, R);
    FailingFraction(n, R);
    if nFractionalLength >= FRACTION {
      return Invalid, nLength;
    }
    FractionRecorded(n, nLength, LengthBits(nLength) + nFractionalLength);
    return Failed, LengthBits(nLength) + nFractionalLength;
  }
}
