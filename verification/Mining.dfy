/** One round of the miner: a new or reused sieve is woven, counted and scanned. */
module Mining {
  import opened Bits
  import opened NumberTheory
  import opened SmallInverse
  import opened SieveBits
  import opened SieveSpec
  import opened SieveLayer
  import opened SieveApply
  import opened SieveCandidates
  import opened SieveMeaning
  import opened SieveScanSpec
  import opened PrimeTable
  import opened Sieve

  /** The sizes the sieve is built for. */
  predicate Sizes(nMaxSieveSize: nat, nSieveExtensions: nat, lSieveTarget: nat, lSieveBTTarget: nat, nL1CacheElements: nat) {
    && nMaxSieveSize > 0 && nMaxSieveSize % (2 * WORD_BITS) == 0 && nMaxSieveSize <= SKIPPED
    && nMaxSieveSize * Pow2(nSieveExtensions) <= 0x1_0000_0000
    && (lSieveBTTarget + 1) / 2 <= lSieveTarget
    && nL1CacheElements > 0 && nL1CacheElements % WORD_BITS == 0 && nMaxSieveSize + nL1CacheElements <= 0x1_0000_0000
  }

  predicate Increasing(s: seq<nat>) {
    forall m, n :: 0 <= m < n < |s| ==> s[m] < s[n]
  }

  // ---- what a chain of primes means to the sieve ----

  /** A prime above all the given ones. */
  ghost predicate LargePrime(primes: seq<nat>, x: int) {
    x > 1 && Prime(x) && forall q :: q in primes && q >= 11 ==> q < x
  }

  ghost predicate FirstChain(primes: seq<nat>, F: nat, m: nat, len: nat) {
    forall k: nat :: k < len ==> LargePrime(primes, F * m * Pow2(k) - 1)
  }

  ghost predicate SecondChain(primes: seq<nat>, F: nat, m: nat, len: nat) {
    forall k: nat :: k < len ==> LargePrime(primes, F * m * Pow2(k) + 1)
  }

  /** A chain of one of the three types, as long as the sieve is built for, all of large primes. */
  ghost predicate HasPrimeChain(primes: seq<nat>, F: nat, m: nat, chain: nat, bt: nat) {
    || FirstChain(primes, F, m, chain)
    || SecondChain(primes, F, m, chain)
    || (FirstChain(primes, F, m, (bt + 1) / 2) && SecondChain(primes, F, m, bt / 2))
  }

  /** No smaller prime divides a prime. */
  lemma LargePrimeHasNoFactor(primes: seq<nat>, x: int)
    requires LargePrime(primes, x)
    ensures !HasFactor(primes, x)
  {
  }

  lemma FirstChainNotHit(primes: seq<nat>, F: nat, m: nat, len: nat)
    requires FirstChain(primes, F, m, len)
    ensures !FirstHit(primes, F, m, len)
  {
    hide LargePrime, HasFactor;
    if FirstHit(primes, F, m, len) {
      var k: nat :| k < len && HasFactor(primes, F * m * Pow2(k) - 1);
      LargePrimeHasNoFactor(primes, F * m * Pow2(k) - 1);
    }
  }

  lemma SecondChainNotHit(primes: seq<nat>, F: nat, m: nat, len: nat)
    requires SecondChain(primes, F, m, len)
    ensures !SecondHit(primes, F, m, len)
  {
    hide LargePrime, HasFactor;
    if SecondHit(primes, F, m, len) {
      var k: nat :| k < len && HasFactor(primes, F * m * Pow2(k) + 1);
      LargePrimeHasNoFactor(primes, F * m * Pow2(k) + 1);
    }
  }

  /** A sieve never removes a multiplier that has the chain it looks for. */
  lemma PrimeChainSurvives(primes: seq<nat>, F: nat, m: nat, chain: nat, bt: nat)
    requires HasPrimeChain(primes, F, m, chain, bt)
    ensures !AllHit(primes, F, m, chain, bt)
  {
    hide FirstChain, SecondChain, FirstHit, SecondHit;
    if FirstChain(primes, F, m, chain) {
      FirstChainNotHit(primes, F, m, chain);
    } else if SecondChain(primes, F, m, chain) {
      SecondChainNotHit(primes, F, m, chain);
    } else {
      FirstChainNotHit(primes, F, m, (bt + 1) / 2);
      SecondChainNotHit(primes, F, m, bt / 2);
    }
  }

  // ---- one round ----

  /** A sieve built for these sizes, over a table of so many primes. */
  ghost predicate BuiltFor(psieve: CSieveOfEratosthenes, nMaxSieveSize: nat, nSievePercentage: nat, nSieveExtensions: nat,
                           lSieveTarget: nat, lSieveBTTarget: nat, nTotalPrimes: nat)
  {
    && psieve.Shape() && psieve.nSieveSize == nMaxSieveSize && psieve.nSieveExtensions == nSieveExtensions
    && psieve.nChainLength == lSieveTarget && psieve.nBTChainLength == lSieveBTTarget
    && psieve.nPrimes == nTotalPrimes * nSievePercentage / 100
  }

  /** The storage a sieve writes to. */
  function Storage(sieve: CSieveOfEratosthenes?): set<object> {
    if sieve == null then {}
    else {sieve, sieve.vCunningham1Multipliers, sieve.vCunningham2Multipliers} + sieve.Bitmaps()
  }

  /** The sieve of this round, ready to weave. */
  method NewOrReused(earlier: CSieveOfEratosthenes?, nMaxSieveSize: nat, nSievePercentage: nat, nSieveExtensions: nat,
                     lSieveTarget: nat, lSieveBTTarget: nat, mpzHash: nat, mpzFixedMultiplier: nat, nTotalPrimes: nat)
    returns (psieve: CSieveOfEratosthenes)
    requires nMaxSieveSize % (2 * WORD_BITS) == 0
    requires earlier != null ==> BuiltFor(earlier, nMaxSieveSize, nSievePercentage, nSieveExtensions, lSieveTarget,
                                          lSieveBTTarget, nTotalPrimes)
    modifies Storage(earlier)
    ensures if earlier == null then fresh(Storage(psieve)) else psieve == earlier
    ensures BuiltFor(psieve, nMaxSieveSize, nSievePercentage, nSieveExtensions, lSieveTarget, lSieveBTTarget, nTotalPrimes)
    ensures psieve.Fresh() && psieve.AtStart() && psieve.nCandidateMultiplier == 0 && psieve.nCandidateActiveExtension == 0
    ensures !psieve.fCandidateIsExtended && psieve.mpzFixedFactor == mpzHash * mpzFixedMultiplier
  {
    hide CSieveOfEratosthenes.Shape, CSieveOfEratosthenes.Fresh;
    if earlier == null {
      psieve := new CSieveOfEratosthenes(nMaxSieveSize, nSievePercentage, nSieveExtensions, lSieveTarget, lSieveBTTarget,
                                         mpzHash, mpzFixedMultiplier, nTotalPrimes);
    } else {
      psieve := earlier;
      psieve.Init(mpzHash, mpzFixedMultiplier);
    }
  }

  /** The first of the three chain types that no prime rules out: bi-twin, first kind, second kind. */
  ghost function FirstTypeLeft(primes: seq<nat>, F: nat, m: nat, chain: nat, bt: nat): nat {
    if !(FirstHit(primes, F, m, (bt + 1) / 2) || SecondHit(primes, F, m, bt / 2)) then 3
    else if !FirstHit(primes, F, m, chain) then 1
    else 2
  }

  /** None of the primes, 11 or more, divides a number of the chain of type t at m. */
  ghost predicate NoFactors(primes: seq<nat>, F: nat, m: nat, chain: nat, bt: nat, t: nat) {
    forall q: nat, k: nat :: q in primes && q >= 11 ==>
                               && (t == 1 && k < chain ==> (F * m * Pow2(k) - 1) % q != 0)
                               && (t == 2 && k < chain ==> (F * m * Pow2(k) + 1) % q != 0)
                               && (t == 3 && k < (bt + 1) / 2 ==> (F * m * Pow2(k) - 1) % q != 0)
                               && (t == 3 && k < bt / 2 ==> (F * m * Pow2(k) + 1) % q != 0)
  }

  lemma LeftHasNoFactors(primes: seq<nat>, F: nat, m: nat, chain: nat, bt: nat)
    requires !AllHit(primes, F, m, chain, bt)
    ensures NoFactors(primes, F, m, chain, bt, FirstTypeLeft(primes, F, m, chain, bt))
  {
    var t := FirstTypeLeft(primes, F, m, chain, bt);
    hide Pow2;
    forall q: nat, k: nat | q in primes && q >= 11
      ensures t == 1 && k < chain ==> (F * m * Pow2(k) - 1) % q != 0
      ensures t == 2 && k < chain ==> (F * m * Pow2(k) + 1) % q != 0
      ensures t == 3 && k < (bt + 1) / 2 ==> (F * m * Pow2(k) - 1) % q != 0
      ensures t == 3 && k < bt / 2 ==> (F * m * Pow2(k) + 1) % q != 0
    {
      assert (F * m * Pow2(k) - 1) % q == 0 ==> HasFactor(primes, F * m * Pow2(k) - 1);
      assert (F * m * Pow2(k) + 1) % q == 0 ==> HasFactor(primes, F * m * Pow2(k) + 1);
    }
  }

  /** The use of a woven sieve. */
  method CountAndScan(psieve: CSieveOfEratosthenes, vPrimes: seq<nat>)
    returns (nCandidateCount: nat, multipliers: seq<nat>, types: seq<nat>)
    requires psieve.Scannable() && psieve.AtStart() && psieve.Exact(psieve.ThePlan(vPrimes), psieve.nSieveSize)
    requires psieve.ThePlan(vPrimes).w.Valid() && psieve.ThePlan(vPrimes).Valid() && vPrimes[..4] == [2, 3, 5, 7]
    requires psieve.nPrimes <= |vPrimes|
    requires forall i: nat :: i < psieve.nSieveSize ==> psieve.BitsMean(vPrimes[..psieve.nPrimes], i)
    modifies psieve`nCandidateIndex, psieve`fCandidateIsExtended, psieve`nCandidateActiveExtension, psieve`nCandidateMultiplier
    ensures nCandidateCount == |psieve.SetBits()| == |multipliers| + 1 && |types| == |multipliers| && Increasing(multipliers)
    ensures forall i: nat :: 0 < i < psieve.nSieveSize && BitAt(psieve.vfCandidates[..], 0, psieve.nSieveSize / 64, i) ==>
                               i in multipliers
    ensures forall e: nat, i: nat :: e < psieve.nSieveExtensions && i < psieve.nSieveSize ==>
                                       BitAt(psieve.vfExtendedCandidates[..], e, psieve.nSieveSize / 64, i) ==>
                                         i * Pow2(e + 1) in multipliers
    ensures RoundMeans(psieve, vPrimes[..psieve.nPrimes], psieve.mpzFixedFactor, psieve.nChainLength, psieve.nBTChainLength,
                       multipliers, types)
  {
    hide View.Rest, View.SetAt, Survives, CSieveOfEratosthenes.Shape, CSieveOfEratosthenes.Exact, Woven.Valid, Plan.Valid,
      CSieveOfEratosthenes.FirstLeft, CSieveOfEratosthenes.Reachable, Pow2, Increasing, BitAt,
      CSieveOfEratosthenes.ScanResult, RoundMeans, CSieveOfEratosthenes.BitsMean;
    ghost var p := psieve.ThePlan(vPrimes);
    psieve.WordsInSieve();
    psieve.PlanMeans(vPrimes, 0);
    psieve.NoLowerBits(vPrimes[..psieve.nPrimes]);
    psieve.ZeroCandidate(p);
    psieve.ScanCount();
    nCandidateCount := psieve.GetCandidateCount();
    label scan:
    multipliers, types := psieve.ScanAll();
    assert forall a :: a in psieve.Bitmaps() ==> unchanged@scan(a);
    Delivered(psieve, p, multipliers, types);
    DeliveredMeans(psieve, vPrimes, multipliers, types);
  }

  /**
   With a table of all primes below some limit, on a new sieve or on one of an
   earlier round: the count is the number of set bits of all candidate bitmaps, the
   scan delivers in strictly increasing order what they stand for, zero excepted.
   These are exactly the reachable multipliers with a chain type left, one that has
   no number divisible by a prime woven; it is the type delivered with them. No
   reachable chain of large primes is lost.
   */
  method SieveRound(earlier: CSieveOfEratosthenes?, vPrimes: seq<nat>, ghost limit: nat, nMaxSieveSize: nat,
                    nSievePercentage: nat, nSieveExtensions: nat, lSieveTarget: nat, lSieveBTTarget: nat,
                    nL1CacheElements: nat, mpzHash: nat, mpzFixedMultiplier: nat)
    returns (psieve: CSieveOfEratosthenes, nCandidateCount: nat, multipliers: seq<nat>, types: seq<nat>)
    requires PrimesBelow(vPrimes, limit) && PrimeTable.Ascending(vPrimes) && limit <= 0x8000_0000
    requires nMaxSieveSize + limit <= 0x1_0000_0000
    requires Sizes(nMaxSieveSize, nSieveExtensions, lSieveTarget, lSieveBTTarget, nL1CacheElements)
    requires 4 <= |vPrimes| * nSievePercentage / 100 && |vPrimes| * nSievePercentage / 100 + 9 <= |vPrimes|
    requires earlier != null ==> BuiltFor(earlier, nMaxSieveSize, nSievePercentage, nSieveExtensions, lSieveTarget,
                                          lSieveBTTarget, |vPrimes|)
    modifies Storage(earlier)
    ensures if earlier == null then fresh(Storage(psieve)) else psieve == earlier
    ensures BuiltFor(psieve, nMaxSieveSize, nSievePercentage, nSieveExtensions, lSieveTarget, lSieveBTTarget, |vPrimes|)
    ensures psieve.mpzFixedFactor == mpzHash * mpzFixedMultiplier
    ensures nCandidateCount == |psieve.SetBits()| == |multipliers| + 1 && |types| == |multipliers| && Increasing(multipliers)
    ensures forall i: nat :: 0 < i < nMaxSieveSize && BitAt(psieve.vfCandidates[..], 0, nMaxSieveSize / 64, i) ==>
                               i in multipliers
    ensures forall e: nat, i: nat :: e < nSieveExtensions && i < nMaxSieveSize ==>
                                       BitAt(psieve.vfExtendedCandidates[..], e, nMaxSieveSize / 64, i) ==>
                                         i * Pow2(e + 1) in multipliers
    ensures RoundMeans(psieve, vPrimes[..|vPrimes| * nSievePercentage / 100], mpzHash * mpzFixedMultiplier, lSieveTarget,
                       lSieveBTTarget, multipliers, types)
  {
    hide View.Rest, View.SetAt, Survives, CSieveOfEratosthenes.Shape, CSieveOfEratosthenes.Exact, Woven.Valid, Woven.Fits, PrimesBelow,
      PrimeTable.Ascending, CSieveOfEratosthenes.FirstLeft, CSieveOfEratosthenes.Reachable, Pow2, Increasing, BitAt,
      CSieveOfEratosthenes.ScanResult, CSieveOfEratosthenes.Fresh, RoundMeans, CSieveOfEratosthenes.BitsMean;
    psieve := NewOrReused(earlier, nMaxSieveSize, nSievePercentage, nSieveExtensions, lSieveTarget, lSieveBTTarget,
                          mpzHash, mpzFixedMultiplier, |vPrimes|);
    ghost var p := psieve.ThePlan(vPrimes);
    FirstFour(vPrimes, limit);
    TableServesSieve(vPrimes, limit, p.w.F, p.w.n);
    TableFits(vPrimes, limit, p.w.F, p.w.n, nMaxSieveSize);
    var r := psieve.Weave(vPrimes, nL1CacheElements);
    nCandidateCount, multipliers, types := CountAndScan(psieve, vPrimes);
  }

  /** What a round delivers, in terms of the primes woven and the origin F. */
  ghost predicate RoundMeans(psieve: CSieveOfEratosthenes, primes: seq<nat>, F: nat, chain: nat, bt: nat,
                             multipliers: seq<nat>, types: seq<nat>)
  {
    && |types| == |multipliers|
    && (forall m: nat :: m in multipliers <==> m > 0 && psieve.Reachable(m) && !AllHit(primes, F, m, chain, bt))
    && (forall n :: 0 <= n < |multipliers| ==>
                      && types[n] == FirstTypeLeft(primes, F, multipliers[n], chain, bt)
                      && NoFactors(primes, F, multipliers[n], chain, bt, types[n]))
    && (forall m: nat :: m > 0 && psieve.Reachable(m) && HasPrimeChain(primes, F, m, chain, bt) ==> m in multipliers)
  }

  lemma DeliveredMeans(psieve: CSieveOfEratosthenes, vPrimes: seq<nat>, multipliers: seq<nat>, types: seq<nat>)
    requires psieve.Shape() && psieve.ThePlan(vPrimes).w.Valid() && psieve.ThePlan(vPrimes).Valid()
    requires vPrimes[..4] == [2, 3, 5, 7] && |types| == |multipliers|
    requires forall m :: m in multipliers <==> m > 0 && psieve.Reachable(m) && Survives(psieve.ThePlan(vPrimes), 0, m)
    requires forall n :: 0 <= n < |multipliers| ==> types[n] == psieve.FirstLeft(psieve.ThePlan(vPrimes), multipliers[n])
    ensures psieve.nPrimes <= |vPrimes|
    ensures RoundMeans(psieve, vPrimes[..psieve.nPrimes], psieve.mpzFixedFactor, psieve.nChainLength, psieve.nBTChainLength,
                       multipliers, types)
  {
    hide Survives, CSieveOfEratosthenes.Shape, Woven.Valid, Plan.Valid, CSieveOfEratosthenes.Reachable, Plan.First1,
      Plan.Second1, Plan.Twin, AllHit, FirstHit, SecondHit, HasPrimeChain, NoFactors;
    psieve.PlanMeans(vPrimes, 0);
    ghost var primes, F, chain, bt := vPrimes[..psieve.nPrimes], psieve.mpzFixedFactor, psieve.nChainLength,
                                      psieve.nBTChainLength;
    forall m: nat
      ensures Survives(psieve.ThePlan(vPrimes), 0, m) == !AllHit(primes, F, m, chain, bt)
    {
      psieve.PlanMeans(vPrimes, m);
    }
    forall n | 0 <= n < |multipliers|
      ensures types[n] == FirstTypeLeft(primes, F, multipliers[n], chain, bt)
      ensures NoFactors(primes, F, multipliers[n], chain, bt, types[n])
    {
      psieve.PlanMeans(vPrimes, multipliers[n]);
      assert multipliers[n] in multipliers;
      LeftHasNoFactors(primes, F, multipliers[n], chain, bt);
    }
    forall m: nat | HasPrimeChain(primes, F, m, chain, bt)
      ensures !AllHit(primes, F, m, chain, bt)
    {
      PrimeChainSurvives(primes, F, m, chain, bt);
    }
  }

  /** What a whole scan of an exact sieve delivered. */
  lemma Delivered(psieve: CSieveOfEratosthenes, p: Plan, multipliers: seq<nat>, types: seq<nat>)
    requires psieve.Shape() && psieve.nSieveSize > 0 && psieve.Exact(p, psieve.nSieveSize) && p.Valid() && p.w.Valid()
    requires p.layers == psieve.nSieveLayers && p.chain == psieve.nChainLength
    requires psieve.TheView().Valid() && psieve.TheView().Size() > 0
    requires psieve.ScanResult(multipliers, types, psieve.TheView().Rest(0, 1))
    ensures |multipliers| == |types| == |psieve.TheView().Rest(0, 1)| && Increasing(multipliers)
    ensures forall m :: m in multipliers <==> m > 0 && psieve.Reachable(m) && Survives(p, 0, m)
    ensures forall n :: 0 <= n < |multipliers| ==> types[n] == psieve.FirstLeft(p, multipliers[n])
  {
    hide View.Rest, Survives, CSieveOfEratosthenes.Shape, CSieveOfEratosthenes.Exact, Woven.Valid, Multiplier,
      CSieveOfEratosthenes.FirstLeft, CSieveOfEratosthenes.Reachable, CSieveOfEratosthenes.TypeAt;
    forall m
      ensures m in multipliers <==> m > 0 && psieve.Reachable(m) && Survives(p, 0, m)
    {
      psieve.ScanExact(p, multipliers, types, m);
    }
    psieve.ScanExact(p, multipliers, types, 0);
    ghost var v := psieve.TheView();
    ghost var places := v.Rest(0, 1);
    forall m, n | 0 <= m < n < |multipliers|
      ensures multipliers[m] < multipliers[n]
    {
      RestIncreases(v, 0, 1, m, n);
      assert psieve.PlaceDelivered(multipliers[m], types[m], places[m]);
      assert psieve.PlaceDelivered(multipliers[n], types[n], places[n]);
    }
  }
}
