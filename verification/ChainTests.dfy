/** Cunningham and bi-twin chain tests: the plain ones, and the fast ones the miner runs. */
module ChainTests {
  import opened Words
  import opened Bits
  import opened NumberTheory
  import opened SmallInverse
  import opened Target
  import opened PrimalityTests
  import opened ChainTypes

  /** The k-th number after n in its chain: doubled, plus or minus one, k times. */
  function ChainMember(n: nat, k: nat, fSophieGermain: bool): nat
    requires n > 0
  {
    if fSophieGermain then
      MulMonotone(n + 1, 1, Pow2(k));
      (n + 1) * Pow2(k) - 1
    else
      (n - 1) * Pow2(k) + 1
  }

  /** One doubling step */
  function NextMember(N: nat, fSophieGermain: bool): int {
    if fSophieGermain then 2 * N + 1 else 2 * N - 1
  }

  lemma ChainMemberStep(n: nat, k: nat, fSophieGermain: bool)
    requires n > 0
    ensures ChainMember(n, k + 1, fSophieGermain) == NextMember(ChainMember(n, k, fSophieGermain), fSophieGermain)
    ensures ChainMember(n, 0, fSophieGermain) == n
  {
    var a, p := if fSophieGermain then n + 1 else n - 1, Pow2(k);
    assert Pow2(k + 1) == 2 * p && Pow2(0) == 1;
    assert a * (2 * p) == 2 * (a * p);
  }

  /** After an odd first number above one, every number is one the Euler-Lagrange-Lifchitz test has a case for. */
  lemma {:induction false} LaterMembersValid(n: nat, k: nat, fSophieGermain: bool)
    requires n % 2 == 1 && n > 1
    ensures var N := ChainMember(n, k, fSophieGermain); N > 1 && N % 2 == 1 && (k >= 1 ==> ValidCase(N, fSophieGermain))
  {
    hide ChainMember, NextMember, ValidCase;
    if k == 0 {
      ChainMemberStep(n, 0, fSophieGermain);
    } else {
      ChainMemberStep(n, k - 1, fSophieGermain);
      LaterMembersValid(n, k - 1, fSophieGermain);
      NextValid(ChainMember(n, k - 1, fSophieGermain), fSophieGermain);
    }
  }

  lemma NextValid(N: nat, fSophieGermain: bool)
    requires N % 2 == 1 && N > 1
    ensures var M := NextMember(N, fSophieGermain); M > 1 && M % 2 == 1 && ValidCase(M, fSophieGermain)
  {
    var h := N / 2;
    ModOf(NextMember(N, fSophieGermain), 4, h, if fSophieGermain then 3 else 1);
  }

  /** The test the loop applies to the k-th member. */
  predicate MemberPasses(n: nat, k: nat, fSophieGermain: bool, fFermatTest: bool)
    requires n % 2 == 1 && n > 1
  {
    LaterMembersValid(n, k, fSophieGermain);
    var N := ChainMember(n, k, fSophieGermain);
    if fFermatTest then FermatPasses(N) else EllPasses(N)
  }

  predicate FermatMember(n: nat, k: nat, fSophieGermain: bool)
    requires n % 2 == 1 && n > 1
  {
    MemberPasses(n, k, fSophieGermain, true)
  }

  /** The chain that starts at n has exactly L members: the L-th number after n is the first to fail. */
  ghost predicate EndsAt(n: nat, fSophieGermain: bool, fFermatTest: bool, L: nat)
    requires n % 2 == 1 && n > 1
  {
    && L >= 1 && !MemberPasses(n, L, fSophieGermain, fFermatTest)
    && forall j: nat :: 1 <= j < L ==> MemberPasses(n, j, fSophieGermain, fFermatTest)
  }

  /** A length and fraction as the tests report them: eight bits of length over the fraction of the failing member. */
  function Report(n: nat, L: nat, fSophieGermain: bool): nat
    requires n % 2 == 1 && n > 1
  {
    LaterMembersValid(n, L, fSophieGermain);
    var N := ChainMember(n, L, fSophieGermain);
    L % 256 * FRACTION + Fraction(N, PowMod(N - 1, N))
  }

  /**
   A report r of the number N, k places on in the chain: k in the top byte, and below
   it the floor of the Fermat remainder's distance from N, in 2^24ths of N.
   */
  ghost predicate Reported(n: nat, k: nat, fSophieGermain: bool, r: nat) {
    var N := if fSophieGermain then (n + 1) * Pow2(k) - 1 else (n - 1) * Pow2(k) + 1;
    var f := r % 0x100_0000;
    && N > 1 && r / 0x100_0000 == k % 256
    && f * N <= (N - Pow2(N - 1) % N) * 0x100_0000 < (f + 1) * N
  }

  lemma ReportMeans(n: nat, L: nat, fSophieGermain: bool)
    requires n % 2 == 1 && n > 1
    ensures Reported(n, L, fSophieGermain, Report(n, L, fSophieGermain))
  {
    LaterMembersValid(n, L, fSophieGermain);
    var N := ChainMember(n, L, fSophieGermain);
    assert N == if fSophieGermain then (n + 1) * Pow2(L) - 1 else (n - 1) * Pow2(L) + 1;
    hide Pow2, Fraction, ChainMember;
    OddDividesNoPower(N, N - 1);
    FractionBound(N, PowMod(N - 1, N));
    TopByte(L, Fraction(N, PowMod(N - 1, N)));
    FractionFloor(N, PowMod(N - 1, N));
  }

  lemma TopByte(L: nat, f: nat)
    requires f < 0x100_0000
    ensures (L % 256 * FRACTION + f) / 0x100_0000 == L % 256 && (L % 256 * FRACTION + f) % 0x100_0000 == f
  {
    ModOf(L % 256 * FRACTION + f, 0x100_0000, L % 256, f);
  }

  lemma ReportParts(n: nat, L: nat, fSophieGermain: bool)
    requires n % 2 == 1 && n > 1
    ensures TargetGetLength(Report(n, L, fSophieGermain)) == L % 256
    ensures L % 256 * FRACTION <= Report(n, L, fSophieGermain) < (L % 256 + 1) * FRACTION
  {
    hide TargetGetLength, Fraction, PowMod, ChainMember;
    LaterMembersValid(n, L, fSophieGermain);
    var N := ChainMember(n, L, fSophieGermain);
    OddDividesNoPower(N, N - 1);
    FractionBound(N, PowMod(N - 1, N));
    Parts(L % 256, Fraction(N, PowMod(N - 1, N)));
  }

  /** What both tests do to the k-th member, the fraction going below the length counted so far. */
  method TestMember(N: nat, fSophieGermain: bool, fFermatTest: bool, nLength: nat, ghost n: nat, ghost k: nat)
    returns (passed: bool, nLength': nat)
    requires n % 2 == 1 && n > 1 && k >= 1 && N == ChainMember(n, k, fSophieGermain)
    requires k * FRACTION <= nLength && nLength / FRACTION == k
    ensures passed == MemberPasses(n, k, fSophieGermain, fFermatTest)
    ensures nLength' == if passed then nLength else Report(n, k, fSophieGermain)
  {
    hide Fraction, PowMod, ChainMember;
    LaterMembersValid(n, k, fSophieGermain);
    OddDividesNoPower(N, N - 1);
    var v;
    if fFermatTest {
      v, nLength' := FermatProbablePrimalityTest(N, nLength, false);
    } else {
      v, nLength' := EulerLagrangeLifchitzPrimalityTest(N, fSophieGermain, nLength);
    }
    passed := v == Passed;
  }

  /** The length of the plain test: its fraction is the first number's when that one fails. */
  ghost function PlainReport(n: nat, L: nat, fSophieGermain: bool): nat
    requires n % 2 == 1 && n > 1
  {
    if FermatMember(n, 0, fSophieGermain) then Report(n, L, fSophieGermain) else Report(n, 0, fSophieGermain)
  }

  /** The plain test, for a chain that comes to an end. */
  method ProbableCunninghamChainTest(n: nat, fSophieGermain: bool, fFermatTest: bool, ghost L: nat)
    returns (r: bool, nProbableChainLength: nat)
    requires n % 2 == 1 && n > 1 && EndsAt(n, fSophieGermain, fFermatTest, L)
    ensures nProbableChainLength == PlainReport(n, L, fSophieGermain)
    ensures Reported(n, if FermatMember(n, 0, fSophieGermain) then L else 0, fSophieGermain, nProbableChainLength)
    ensures r == (FermatMember(n, 0, fSophieGermain) && L % 256 >= 2)
  {
    hide Fraction, PowMod, ChainMember, LengthBits, TargetGetLength, Report, Reported;
    FirstMember(n, fSophieGermain);
    ReportMeans(n, 0, fSophieGermain);
    ReportMeans(n, L, fSophieGermain);
    var v;
    v, nProbableChainLength := FermatProbablePrimalityTest(n, 0, false);
    if v != Passed {
      return false, nProbableChainLength;
    }
    var N := n;
    ghost var k := 0;
    var passed := true;
    while true
      invariant k < L && N == ChainMember(n, k, fSophieGermain) && nProbableChainLength == k * FRACTION
      decreases L - k
    {
      nProbableChainLength := TargetIncrementLength(nProbableChainLength);
      ChainMemberStep(n, k, fSophieGermain);
      N := N + N + (if fSophieGermain then 1 else -1);
      k := k + 1;
      passed, nProbableChainLength := TestMember(N, fSophieGermain, fFermatTest, nProbableChainLength, n, k);
      if !passed {
        break;
      }
    }
    ReportParts(n, L, fSophieGermain);
    r := TargetGetLength(nProbableChainLength) >= 2;
  }

  lemma FirstMember(n: nat, fSophieGermain: bool)
    requires n % 2 == 1 && n > 1
    ensures FermatMember(n, 0, fSophieGermain) == FermatPasses(n)
    ensures Report(n, 0, fSophieGermain) == LengthBits(0) + Fraction(n, PowMod(n - 1, n))
    ensures PowMod(n - 1, n) != 0 && ChainMember(n, 0, fSophieGermain) == n
  {
    hide Fraction, PowMod;
    ChainMemberStep(n, 0, fSophieGermain);
    OddDividesNoPower(n, n - 1);
  }

  // ---- the fast tests ----

  class CPrimalityTestParams {
    const nBits: nat
    const nTargetLength: nat
    const nHalfTargetLength: nat
    var nCandidateType: nat
    var nChainLength: nat

    constructor (nBits: nat)
      ensures this.nBits == nBits && nTargetLength == TargetGetLength(nBits) && nHalfTargetLength == nTargetLength / 2
      ensures nChainLength == 0
    {
      this.nBits := nBits;
      this.nTargetLength := TargetGetLength(nBits);
      this.nHalfTargetLength := TargetGetLength(nBits) / 2;
      this.nCandidateType := 0;
      this.nChainLength := 0;
    }

    ghost predicate Valid() {
      nTargetLength == TargetGetLength(nBits) && nHalfTargetLength == nTargetLength / 2
    }

    /** The tests agree around an origin, at the depth of the candidate's type. */
    ghost predicate Agreement(origin: nat)
      requires Origin(origin)
      reads this`nCandidateType
    {
      var q := Depth(nCandidateType !in {PRIME_CHAIN_CUNNINGHAM1, PRIME_CHAIN_CUNNINGHAM2});
      TestsAgree(origin - 1, true, false, q) && TestsAgree(origin + 1, false, false, q)
    }

    /** The depth a solo miner checks first. */
    function Depth(fBiTwinTest: bool): nat {
      if fBiTwinTest then nHalfTargetLength else nTargetLength
    }
  }

  /** A solo miner has tested the members q - 2 and q - 1 beforehand and steps over them. */
  predicate Skipped(bSoloMining: bool, q: nat, k: nat) {
    bSoloMining && (k + 2 == q || k + 1 == q)
  }

  /** Turned down before the loop. */
  predicate Rejected(n: nat, fSophieGermain: bool, bSoloMining: bool, q: nat)
    requires n % 2 == 1 && n > 1 && (bSoloMining ==> q >= 2)
  {
    || !FermatMember(n, 0, fSophieGermain)
    || (bSoloMining && !(FermatMember(n, q - 2, fSophieGermain) && FermatMember(n, q - 1, fSophieGermain)))
  }

  ghost predicate EndsSkipping(n: nat, fSophieGermain: bool, fFermatTest: bool, bSoloMining: bool, q: nat, L: nat)
    requires n % 2 == 1 && n > 1
  {
    && L >= 1 && !Skipped(bSoloMining, q, L) && !MemberPasses(n, L, fSophieGermain, fFermatTest)
    && forall j: nat :: 1 <= j < L ==> Skipped(bSoloMining, q, j) || MemberPasses(n, j, fSophieGermain, fFermatTest)
  }

  /** The pre-check's number, computed in one step from the first one. */
  lemma DeepMember(n: nat, k: nat, fSophieGermain: bool)
    requires n > 0
    ensures var inc := if fSophieGermain then 1 else -1; (n + inc) * Pow2(k) - inc == ChainMember(n, k, fSophieGermain)
  {
  }

  /** The fast test; L is where its loop stops when it is not rejected beforehand. */
  method ProbableCunninghamChainTestFast(n: nat, fSophieGermain: bool, fFermatTest: bool,
                                         testParams: CPrimalityTestParams, fBiTwinTest: bool, bSoloMining: bool, ghost L: nat)
    returns (r: bool, nProbableChainLength: nat)
    requires n % 2 == 1 && n > 1
    requires bSoloMining ==> 2 <= testParams.Depth(fBiTwinTest) <= 32  // the depth is a shift of a 32-bit one
    requires Rejected(n, fSophieGermain, bSoloMining, testParams.Depth(fBiTwinTest))
             || EndsSkipping(n, fSophieGermain, fFermatTest, bSoloMining, testParams.Depth(fBiTwinTest), L)
    ensures if Rejected(n, fSophieGermain, bSoloMining, testParams.Depth(fBiTwinTest))
            then !r && nProbableChainLength == 0
            else r == (L >= 2) && nProbableChainLength == Report(n, L, fSophieGermain)
                 && Reported(n, L, fSophieGermain, nProbableChainLength)
  {
    hide Fraction, PowMod, ChainMember, LengthBits, TargetGetLength, Report, Reported;
    FirstMember(n, fSophieGermain);
    ReportMeans(n, L, fSophieGermain);
    var v;
    v, nProbableChainLength := FermatProbablePrimalityTest(n, 0, true);
    if v != Passed {
      return false, nProbableChainLength;
    }
    var chainIncremental := if fSophieGermain then 1 else -1;
    var quickTargetCheck: nat := 0;
    if bSoloMining {
      quickTargetCheck := if !fBiTwinTest then testParams.nTargetLength else testParams.nHalfTargetLength;
      var M := (n + chainIncremental) * Pow2(quickTargetCheck - 2) - chainIncremental;
      DeepMember(n, quickTargetCheck - 2, fSophieGermain);
      LaterMembersValid(n, quickTargetCheck - 2, fSophieGermain);
      v, nProbableChainLength := FermatProbablePrimalityTest(M, nProbableChainLength, true);
      if v != Passed {
        return false, nProbableChainLength;
      }
      ChainMemberStep(n, quickTargetCheck - 2, fSophieGermain);
      LaterMembersValid(n, quickTargetCheck - 1, fSophieGermain);
      M := 2 * M + chainIncremental;
      v, nProbableChainLength := FermatProbablePrimalityTest(M, nProbableChainLength, true);
      if v != Passed {
        return false, nProbableChainLength;
      }
    }
    r, nProbableChainLength := CountMembers(n, fSophieGermain, fFermatTest, bSoloMining, quickTargetCheck, L);
  }

  /** The loop of the fast test. */
  method CountMembers(n: nat, fSophieGermain: bool, fFermatTest: bool, bSoloMining: bool, quickTargetCheck: nat, ghost L: nat)
    returns (r: bool, nProbableChainLength: nat)
    requires n % 2 == 1 && n > 1 && (bSoloMining ==> quickTargetCheck >= 2)
    requires EndsSkipping(n, fSophieGermain, fFermatTest, bSoloMining, quickTargetCheck, L)
    ensures r == (L >= 2) && nProbableChainLength == Report(n, L, fSophieGermain)
  {
    hide ChainMember, Report, MemberPasses;
    ChainMemberStep(n, 0, fSophieGermain);
    var N := n;
    var currentLength := 0;
    nProbableChainLength := 0;
    while true
      invariant currentLength < L && N == ChainMember(n, currentLength, fSophieGermain)
      invariant nProbableChainLength == currentLength * FRACTION
      decreases L - currentLength
    {
      nProbableChainLength := TargetIncrementLength(nProbableChainLength);
      ChainMemberStep(n, currentLength, fSophieGermain);
      N := 2 * N + (if fSophieGermain then 1 else -1);
      currentLength := currentLength + 1;
      if bSoloMining {
        if currentLength == quickTargetCheck - 2 { continue; }
        if currentLength == quickTargetCheck - 1 { continue; }
      }
      var passed;
      passed, nProbableChainLength := TestMember(N, fSophieGermain, fFermatTest, nProbableChainLength, n, currentLength);
      if !passed {
        break;
      }
    }
    r := currentLength >= 2;
  }

  // ---- the fast test against the plain one ----

  /** On the two members tested beforehand, Fermat's test lets nothing through that the loop's test would stop. */
  predicate TestsAgree(n: nat, fSophieGermain: bool, fFermatTest: bool, q: nat)
    requires n % 2 == 1 && n > 1
  {
    && (q >= 3 && FermatMember(n, q - 2, fSophieGermain) ==> MemberPasses(n, q - 2, fSophieGermain, fFermatTest))
    && (q >= 2 && FermatMember(n, q - 1, fSophieGermain) ==> MemberPasses(n, q - 1, fSophieGermain, fFermatTest))
  }

  /** Not rejected: the loops stop at the same member, so the reports are the same. */
  lemma FastStopsWherePlainStops(n: nat, fSophieGermain: bool, fFermatTest: bool, bSoloMining: bool, q: nat, L: nat)
    requires n % 2 == 1 && n > 1 && (bSoloMining ==> q >= 2 && TestsAgree(n, fSophieGermain, fFermatTest, q))
    requires !Rejected(n, fSophieGermain, bSoloMining, q) && EndsAt(n, fSophieGermain, fFermatTest, L)
    ensures EndsSkipping(n, fSophieGermain, fFermatTest, bSoloMining, q, L)
  {
    hide MemberPasses;
  }

  /** Rejected after a good first number: the chain is shorter than the depth. */
  lemma RejectedChainIsShort(n: nat, fSophieGermain: bool, fFermatTest: bool, bSoloMining: bool, q: nat, L: nat)
    requires n % 2 == 1 && n > 1 && (bSoloMining ==> q >= 2)
    requires Rejected(n, fSophieGermain, bSoloMining, q) && EndsAt(n, fSophieGermain, fFermatTest, L)
    requires FermatMember(n, 0, fSophieGermain)
    ensures bSoloMining && L < q
  {
    hide MemberPasses;
    if L >= q {
      LoopTestImpliesFermat(n, q - 1, fSophieGermain, fFermatTest);
      if q >= 3 {
        LoopTestImpliesFermat(n, q - 2, fSophieGermain, fFermatTest);
      }
    }
  }

  lemma LoopTestImpliesFermat(n: nat, k: nat, fSophieGermain: bool, fFermatTest: bool)
    requires n % 2 == 1 && n > 1 && MemberPasses(n, k, fSophieGermain, fFermatTest)
    ensures FermatMember(n, k, fSophieGermain)
  {
    hide EllPasses, FermatPasses, ChainMember;
    LaterMembersValid(n, k, fSophieGermain);
    if !fFermatTest {
      EllImpliesFermat(ChainMember(n, k, fSophieGermain));
    }
  }

  /** A chain ends at one place only. */
  lemma EndUnique(n: nat, fSophieGermain: bool, fFermatTest: bool, L: nat, L': nat)
    requires n % 2 == 1 && n > 1
    requires EndsAt(n, fSophieGermain, fFermatTest, L) && EndsAt(n, fSophieGermain, fFermatTest, L')
    ensures L == L'
  {
    hide MemberPasses;
  }

  /** Any failing member gives the chain its end. */
  lemma {:induction false} EndExists(n: nat, fSophieGermain: bool, fFermatTest: bool, end: nat) returns (L: nat)
    requires n % 2 == 1 && n > 1 && end >= 1 && !MemberPasses(n, end, fSophieGermain, fFermatTest)
    ensures EndsAt(n, fSophieGermain, fFermatTest, L) && L <= end
  {
    hide MemberPasses;
    L := end;
    if j: nat :| 1 <= j < end && !MemberPasses(n, j, fSophieGermain, fFermatTest) {
      L := EndExists(n, fSophieGermain, fFermatTest, j);
    }
  }

  /** A chain that starts with m primes is not reported shorter, and its first number passes. */
  lemma PrimeChainCounts(n: nat, fSophieGermain: bool, fFermatTest: bool, m: nat, L: nat)
    requires n % 2 == 1 && n > 1 && m >= 1 && EndsAt(n, fSophieGermain, fFermatTest, L)
    requires forall k: nat :: k < m ==> Prime(ChainMember(n, k, fSophieGermain))
    ensures L >= m && FermatMember(n, 0, fSophieGermain)
  {
    hide Prime, ChainMember, EllPasses, FermatPasses;
    LaterMembersValid(n, 0, fSophieGermain);
    PrimePasses(ChainMember(n, 0, fSophieGermain));
    if L < m {
      LaterMembersValid(n, L, fSophieGermain);
      PrimePasses(ChainMember(n, L, fSophieGermain));
    }
  }

  // ---- chains around an origin ----

  /** The bi-twin length: pairs count twice, and the longer side may add one number. */
  function BiTwin(c1: nat, c2: nat): nat {
    if TargetGetLength(c1) > TargetGetLength(c2) then c2 + TargetFromInt(TargetGetLength(c2) + 1)
    else c1 + TargetFromInt(TargetGetLength(c1))
  }

  /** Its whole part, from the lengths on both sides of the origin. */
  lemma BiTwinWholePart(c1: nat, c2: nat)
    requires c1 < 256 * FRACTION && c2 < 256 * FRACTION
    ensures BiTwin(c1, c2) / FRACTION == Min(2 * TargetGetLength(c1), 2 * TargetGetLength(c2) + 1)
    ensures BiTwin(c1, c2) % FRACTION ==
            if TargetGetLength(c1) > TargetGetLength(c2) then TargetGetFractional(c2) else TargetGetFractional(c1)
  {
    hide TargetGetLength, TargetGetFractional;
    FromParts(c1);
    FromParts(c2);
    var l1, l2 := TargetGetLength(c1), TargetGetLength(c2);
    if l1 > l2 {
      ModOf(BiTwin(c1, c2), FRACTION, 2 * l2 + 1, TargetGetFractional(c2));
    } else {
      ModOf(BiTwin(c1, c2), FRACTION, 2 * l1, TargetGetFractional(c1));
    }
  }

  /** Chains grow from both sides of an even number. */
  predicate Origin(origin: nat) {
    origin > 2 && (origin - 1) % 2 == 1 && (origin + 1) % 2 == 1
  }

  lemma EvenIsOrigin(origin: nat)
    requires origin > 2 && origin % 2 == 0
    ensures Origin(origin)
  {
  }

  /** Both chains come to an end, within the eight bits of a reported length. */
  ghost predicate ChainsEnd(origin: nat, fFermatTest: bool, L1: nat, L2: nat)
    requires Origin(origin)
  {
    && EndsAt(origin - 1, true, fFermatTest, L1) && EndsAt(origin + 1, false, fFermatTest, L2)
    && L1 < 256 && L2 < 256
  }

  ghost function First(origin: nat, L1: nat): nat
    requires Origin(origin)
  {
    PlainReport(origin - 1, L1, true)
  }

  ghost function Second(origin: nat, L2: nat): nat
    requires Origin(origin)
  {
    PlainReport(origin + 1, L2, false)
  }

  /** The plain test of an origin: asking for the full test changes what is reported, never the verdict. */
  method ProbablePrimeChainTest(bnPrimeChainOrigin: nat, nBits: nat, fFermatTest: bool, fullTest: bool,
                                ghost L1: nat, ghost L2: nat)
    returns (r: bool, nChainLengthCunningham1: nat, nChainLengthCunningham2: nat, nChainLengthBiTwin: nat)
    requires Origin(bnPrimeChainOrigin) && ChainsEnd(bnPrimeChainOrigin, fFermatTest, L1, L2)
    ensures (var c1, c2 := First(bnPrimeChainOrigin, L1), Second(bnPrimeChainOrigin, L2);
             && r == (c1 >= nBits || c2 >= nBits || BiTwin(c1, c2) >= nBits)
             && (fullTest || !r ==> nChainLengthCunningham1 == c1 && nChainLengthCunningham2 == c2
                                    && nChainLengthBiTwin == BiTwin(c1, c2)))
  {
    hide PlainReport, BiTwin, EndsAt, MemberPasses;
    nChainLengthCunningham1, nChainLengthBiTwin := 0, 0;
    var found;
    found, nChainLengthCunningham2 := ProbableCunninghamChainTest(bnPrimeChainOrigin + 1, false, fFermatTest, L2);
    if nChainLengthCunningham2 >= nBits && !fullTest {
      r := true;
      return;
    }
    found, nChainLengthCunningham1 := ProbableCunninghamChainTest(bnPrimeChainOrigin - 1, true, fFermatTest, L1);
    if nChainLengthCunningham1 >= nBits && !fullTest {
      r := true;
      return;
    }
    nChainLengthBiTwin := BiTwin(nChainLengthCunningham1, nChainLengthCunningham2);
    if fullTest {
      r := nChainLengthCunningham1 >= nBits || nChainLengthCunningham2 >= nBits || nChainLengthBiTwin >= nBits;
    } else {
      r := nChainLengthBiTwin >= nBits;
    }
  }

  /** The plain report of the chain type asked for. */
  ghost function Selected(origin: nat, nCandidateType: nat, L1: nat, L2: nat): nat
    requires Origin(origin)
  {
    if nCandidateType == PRIME_CHAIN_CUNNINGHAM1 then First(origin, L1)
    else if nCandidateType == PRIME_CHAIN_CUNNINGHAM2 then Second(origin, L2)
    else BiTwin(First(origin, L1), Second(origin, L2))
  }

  /** Targets long enough for the depth check of a solo miner, and for the bi-twin test to want two numbers first. */
  predicate DeepEnough(nBits: nat, nCandidateType: nat, bSoloMining: bool) {
    && nBits < (if bSoloMining then 33 else 256) * FRACTION
    && if nCandidateType in {PRIME_CHAIN_CUNNINGHAM1, PRIME_CHAIN_CUNNINGHAM2} then nBits >= (if bSoloMining then 2 else 1) * FRACTION
       else nBits >= (if bSoloMining then 4 else 3) * FRACTION
  }

  /** What the fast test of one chain reports. */
  ghost function FastReport(n: nat, fSophieGermain: bool, bSoloMining: bool, q: nat, L: nat): nat
    requires n % 2 == 1 && n > 1 && (bSoloMining ==> q >= 2)
  {
    if Rejected(n, fSophieGermain, bSoloMining, q) then 0 else Report(n, L, fSophieGermain)
  }

  /** The fast report is the plain one, or the plain one is too short to count. */
  lemma FastReportOrShort(n: nat, fSophieGermain: bool, bSoloMining: bool, q: nat, bound: nat, L: nat)
    requires n % 2 == 1 && n > 1 && L < 256 && bound >= 1 && (bSoloMining ==> 2 <= q <= bound)
    requires EndsAt(n, fSophieGermain, false, L)
    ensures PlainReport(n, L, fSophieGermain) < 256 * FRACTION
    ensures var c, f := PlainReport(n, L, fSophieGermain), FastReport(n, fSophieGermain, bSoloMining, q, L);
            f == c || (f == 0 && TargetGetLength(c) < bound && c < bound * FRACTION)
  {
    hide Report, EndsAt, TargetGetLength, MemberPasses;
    ReportParts(n, L, fSophieGermain);
    ReportParts(n, 0, fSophieGermain);
    if Rejected(n, fSophieGermain, bSoloMining, q) && FermatMember(n, 0, fSophieGermain) {
      RejectedChainIsShort(n, fSophieGermain, false, bSoloMining, q, L);
    }
  }

  /** One side that is too short makes the bi-twin chain too short. */
  lemma ShortBiTwin(c1: nat, c2: nat, T: nat)
    requires c1 < 256 * FRACTION && c2 < 256 * FRACTION
    requires 2 * TargetGetLength(c1) < T || 2 * TargetGetLength(c2) + 1 < T
    ensures BiTwin(c1, c2) < T * FRACTION
  {
    hide BiTwin, TargetGetLength;
    BiTwinWholePart(c1, c2);
    ModSpec(BiTwin(c1, c2), FRACTION);
  }

  /** A zero second report leaves a bi-twin chain of one. */
  lemma LonelyBiTwin(c1: nat)
    requires TargetGetLength(c1) >= 1
    ensures BiTwin(c1, 0) == FRACTION
  {
  }

  lemma TargetSplit(nBits: nat)
    requires nBits < 256 * FRACTION
    ensures TargetGetLength(nBits) * FRACTION <= nBits
    ensures forall m: nat :: m < 256 && m * FRACTION <= nBits ==> m <= TargetGetLength(nBits)
  {
  }

  /** The fast test of one chain, never rejecting or cutting short what the plain test would accept. */
  method TestOneChain(n: nat, fSophieGermain: bool, testParams: CPrimalityTestParams, fBiTwinTest: bool, bSoloMining: bool,
                      ghost L: nat)
    returns (r: bool, nLength: nat)
    requires n % 2 == 1 && n > 1 && L < 256 && EndsAt(n, fSophieGermain, false, L)
    requires bSoloMining ==> 2 <= testParams.Depth(fBiTwinTest) <= 32
    requires bSoloMining ==> TestsAgree(n, fSophieGermain, false, testParams.Depth(fBiTwinTest))
    ensures nLength == FastReport(n, fSophieGermain, bSoloMining, testParams.Depth(fBiTwinTest), L)
    ensures r == (TargetGetLength(nLength) >= 2)
  {
    hide MemberPasses, Report, TargetGetLength, EndsAt, EndsSkipping, TestsAgree;
    ghost var q := testParams.Depth(fBiTwinTest);
    if !Rejected(n, fSophieGermain, bSoloMining, q) {
      FastStopsWherePlainStops(n, fSophieGermain, false, bSoloMining, q, L);
    }
    r, nLength := ProbableCunninghamChainTestFast(n, fSophieGermain, false, testParams, fBiTwinTest, bSoloMining, L);
    ReportParts(n, L, fSophieGermain);
    Parts(0, 0);
  }

  lemma ZeroLength()
    ensures TargetGetLength(0) == 0
  {
  }

  /** The bi-twin branch reports nothing unless the first chain has two numbers. */
  function FastBiTwin(f1: nat, f2: nat): nat {
    if TargetGetLength(f1) < 2 then 0 else BiTwin(f1, f2)
  }

  /** The depth of the pre-check for a target of length T. */
  function DepthFor(T: nat, nCandidateType: nat): nat {
    if nCandidateType in {PRIME_CHAIN_CUNNINGHAM1, PRIME_CHAIN_CUNNINGHAM2} then T else T / 2
  }

  /** A solo miner's pre-check shifts a 32-bit one by the depth less two. */
  predicate CheckableDepth(T: nat, nCandidateType: nat, bSoloMining: bool) {
    bSoloMining ==> 2 <= DepthFor(T, nCandidateType) <= 32
  }

  /** The length the fast test reports, whatever the target. */
  ghost function FastSelected(origin: nat, nCandidateType: nat, bSoloMining: bool, T: nat, L1: nat, L2: nat): nat
    requires Origin(origin) && CheckableDepth(T, nCandidateType, bSoloMining)
  {
    var q := DepthFor(T, nCandidateType);
    if nCandidateType == PRIME_CHAIN_CUNNINGHAM1 then FastReport(origin - 1, true, bSoloMining, q, L1)
    else if nCandidateType == PRIME_CHAIN_CUNNINGHAM2 then FastReport(origin + 1, false, bSoloMining, q, L2)
    else FastBiTwin(FastReport(origin - 1, true, bSoloMining, q, L1), FastReport(origin + 1, false, bSoloMining, q, L2))
  }

  /**
   The test the miner runs on a candidate, for every target: the length it
   reports and the verdict. For deep enough targets it accepts exactly the origins
   whose chain of the wanted type reaches the target in the plain test, with the
   plain test's length.
   */
  method ProbablePrimeChainTestFast(mpzPrimeChainOrigin: nat, testParams: CPrimalityTestParams, bSoloMining: bool,
                                    ghost L1: nat, ghost L2: nat)
    returns (r: bool)
    requires Origin(mpzPrimeChainOrigin) && ChainsEnd(mpzPrimeChainOrigin, false, L1, L2)
    requires testParams.Valid() && CheckableDepth(testParams.nTargetLength, testParams.nCandidateType, bSoloMining)
    requires bSoloMining ==> testParams.Agreement(mpzPrimeChainOrigin)
    modifies testParams`nChainLength
    ensures testParams.nChainLength ==
            FastSelected(mpzPrimeChainOrigin, testParams.nCandidateType, bSoloMining, testParams.nTargetLength, L1, L2)
    ensures r == (testParams.nChainLength >= testParams.nBits)
    ensures DeepEnough(testParams.nBits, testParams.nCandidateType, bSoloMining) ==>
              (var plain := Selected(mpzPrimeChainOrigin, testParams.nCandidateType, L1, L2);
               r == (plain >= testParams.nBits) && (r ==> testParams.nChainLength == plain))
  {
    hide PlainReport, FastReport, BiTwin, EndsAt, TestsAgree, TargetGetLength, Selected, DeepEnough;
    var nBits := testParams.nBits;
    var nCandidateType := testParams.nCandidateType;
    testParams.nChainLength := 0;
    var found;
    if nCandidateType == PRIME_CHAIN_CUNNINGHAM1 {
      found, testParams.nChainLength :=
        TestOneChain(mpzPrimeChainOrigin - 1, true, testParams, false, bSoloMining, L1);
    } else if nCandidateType == PRIME_CHAIN_CUNNINGHAM2 {
      found, testParams.nChainLength :=
        TestOneChain(mpzPrimeChainOrigin + 1, false, testParams, false, bSoloMining, L2);
    } else {
      var nChainLengthCunningham1, nChainLengthCunningham2;
      found, nChainLengthCunningham1 := TestOneChain(mpzPrimeChainOrigin - 1, true, testParams, true, bSoloMining, L1);
      if found {
        found, nChainLengthCunningham2 := TestOneChain(mpzPrimeChainOrigin + 1, false, testParams, true, bSoloMining, L2);
        testParams.nChainLength := BiTwin(nChainLengthCunningham1, nChainLengthCunningham2);
      }
    }
    r := testParams.nChainLength >= nBits;
    if DeepEnough(nBits, nCandidateType, bSoloMining) {
      DeepTargetsAgree(mpzPrimeChainOrigin, nCandidateType, bSoloMining, nBits, L1, L2);
    }
  }

  // ---- for which targets the fast test and the plain one agree ----

  /** Nothing was rejected on the way to the wanted chain, and a bi-twin chain has two numbers on its first side. */
  ghost predicate NothingLost(origin: nat, nCandidateType: nat, bSoloMining: bool, T: nat, nBits: nat, L1: nat)
    requires Origin(origin) && CheckableDepth(T, nCandidateType, bSoloMining)
  {
    var q := DepthFor(T, nCandidateType);
    if nCandidateType == PRIME_CHAIN_CUNNINGHAM1 then !Rejected(origin - 1, true, bSoloMining, q)
    else if nCandidateType == PRIME_CHAIN_CUNNINGHAM2 then !Rejected(origin + 1, false, bSoloMining, q)
    else
      && !Rejected(origin - 1, true, bSoloMining, q) && TargetGetLength(First(origin, L1)) >= 2
      && (!Rejected(origin + 1, false, bSoloMining, q) || nBits <= FRACTION)
  }

  /** The fast report of one chain, against the plain one. */
  lemma FastReportCases(n: nat, fSophieGermain: bool, bSoloMining: bool, q: nat, L: nat)
    requires n % 2 == 1 && n > 1 && L < 256 && (bSoloMining ==> q >= 2)
    ensures PlainReport(n, L, fSophieGermain) < 256 * FRACTION
    ensures FastReport(n, fSophieGermain, bSoloMining, q, L)
         == if Rejected(n, fSophieGermain, bSoloMining, q) then 0 else PlainReport(n, L, fSophieGermain)
  {
    hide Report, TargetGetLength, MemberPasses;
    ReportParts(n, L, fSophieGermain);
    ReportParts(n, 0, fSophieGermain);
  }

  lemma BiTwinAtLeastOne(c1: nat, c2: nat)
    requires c1 < 256 * FRACTION && c2 < 256 * FRACTION && TargetGetLength(c1) >= 1
    ensures BiTwin(c1, c2) >= FRACTION
  {
    hide TargetGetLength;
  }

  /**
   The verdicts agree if and only if the target is zero, or out of the plain
   test's reach as well, or nothing was lost.
   */
  lemma VerdictsAgree(origin: nat, nCandidateType: nat, bSoloMining: bool, T: nat, nBits: nat, L1: nat, L2: nat)
    requires Origin(origin) && ChainsEnd(origin, false, L1, L2) && CheckableDepth(T, nCandidateType, bSoloMining)
    ensures (var fast, plain := FastSelected(origin, nCandidateType, bSoloMining, T, L1, L2),
                                Selected(origin, nCandidateType, L1, L2);
             (fast >= nBits <==> plain >= nBits)
             <==> nBits == 0 || nBits > plain || NothingLost(origin, nCandidateType, bSoloMining, T, nBits, L1))
  {
    hide PlainReport, FastReport, Rejected, BiTwin, EndsAt, TargetGetLength;
    var q := DepthFor(T, nCandidateType);
    FastReportCases(origin - 1, true, bSoloMining, q, L1);
    FastReportCases(origin + 1, false, bSoloMining, q, L2);
    ZeroLength();
    var c1, c2 := First(origin, L1), Second(origin, L2);
    if TargetGetLength(c1) >= 2 {
      LonelyBiTwin(c1);
      BiTwinAtLeastOne(c1, c2);
    }
  }

  /** Deep enough targets lose nothing that matters. */
  lemma DeepTargetsAgree(origin: nat, nCandidateType: nat, bSoloMining: bool, nBits: nat, L1: nat, L2: nat)
    requires Origin(origin) && ChainsEnd(origin, false, L1, L2) && DeepEnough(nBits, nCandidateType, bSoloMining)
    requires CheckableDepth(TargetGetLength(nBits), nCandidateType, bSoloMining)
    ensures (var fast, plain := FastSelected(origin, nCandidateType, bSoloMining, TargetGetLength(nBits), L1, L2),
                                Selected(origin, nCandidateType, L1, L2);
             (fast >= nBits <==> plain >= nBits) && (fast >= nBits ==> fast == plain))
  {
    hide PlainReport, FastReport, BiTwin, EndsAt, TargetGetLength;
    var T := TargetGetLength(nBits);
    var q := DepthFor(T, nCandidateType);
    var bound := if bSoloMining then q else 1;
    TargetSplit(nBits);
    FastReportOrShort(origin - 1, true, bSoloMining, q, bound, L1);
    FastReportOrShort(origin + 1, false, bSoloMining, q, bound, L2);
    ZeroLength();
    if nCandidateType !in {PRIME_CHAIN_CUNNINGHAM1, PRIME_CHAIN_CUNNINGHAM2} {
      DeepBiTwin(First(origin, L1), Second(origin, L2), FastReport(origin - 1, true, bSoloMining, q, L1),
                 FastReport(origin + 1, false, bSoloMining, q, L2), bound, T);
    }
  }

  lemma DeepBiTwin(c1: nat, c2: nat, f1: nat, f2: nat, bound: nat, T: nat)
    requires c1 < 256 * FRACTION && c2 < 256 * FRACTION && T >= 3 && 2 * bound <= T
    requires f1 == c1 || (f1 == 0 && TargetGetLength(c1) < bound)
    requires f2 == c2 || (f2 == 0 && TargetGetLength(c2) < bound)
    ensures FastBiTwin(f1, f2) == BiTwin(c1, c2)
            || (FastBiTwin(f1, f2) <= FRACTION && BiTwin(c1, c2) < T * FRACTION)
  {
    hide BiTwin, TargetGetLength;
    ZeroLength();
    if TargetGetLength(f1) < 2 {
      ShortBiTwin(c1, c2, T);
    } else if f2 != c2 {
      LonelyBiTwin(f1);
      ShortBiTwin(c1, c2, T);
    }
  }

  /** Powers of two modulo the numbers around eighteen. */
  lemma PowersAroundEighteen()
    ensures FermatPasses(17) && !EllPasses(35) && FermatPasses(19) && EllPasses(37) && EllPasses(73) && !EllPasses(145)
  {
    assert Pow2(8) == 0x100 && Pow2(1) == 2;
    Pow2Add(8, 8);
    Pow2Add(16, 1);
    Pow2Add(17, 1);
    Pow2Add(18, 18);
    Pow2Add(36, 36);
    assert Pow2(36) == 0x10_0000_0000;
    assert Pow2(72) == 0x10_0000_0000 * 0x10_0000_0000;
  }

  /**
   An origin the two tests disagree on, for a bi-twin target of length
   two: 17 stands alone on the first side, 19, 37 and 73 follow on the second.
   The plain test accepts, the fast one reports nothing.
   */
  lemma FastRejectsEighteen()
    ensures Origin(18) && ChainsEnd(18, false, 1, 3)
    ensures Selected(18, PRIME_CHAIN_BI_TWIN, 1, 3) >= 2 * FRACTION
    ensures FastSelected(18, PRIME_CHAIN_BI_TWIN, false, TargetGetLength(2 * FRACTION), 1, 3) == 0
  {
    hide FermatPasses, EllPasses, Fraction, PowMod, Report, TargetGetLength;
    EvenIsOrigin(18);
    PowersAroundEighteen();
    ChainsAroundEighteen();
    ReportParts(17, 1, true);
    ReportParts(19, 3, false);
    ZeroLength();
  }

  lemma ChainsAroundEighteen()
    ensures FermatMember(17, 0, true) && EndsAt(17, true, false, 1)
    ensures FermatMember(19, 0, false) && EndsAt(19, false, false, 3)
  {
    hide FermatPasses, EllPasses;
    PowersAroundEighteen();
    assert Pow2(0) == 1 && Pow2(1) == 2 && Pow2(2) == 4 && Pow2(3) == 8;
    assert ChainMember(17, 0, true) == 17 && ChainMember(17, 1, true) == 35;
    assert ChainMember(19, 0, false) == 19 && ChainMember(19, 1, false) == 37;
    assert ChainMember(19, 2, false) == 73 && ChainMember(19, 3, false) == 145;
  }
}
