/** The table of small primes, by the sieve of Eratosthenes on a vector of flags. */
module PrimeTable {
  import opened NumberTheory
  import opened SmallInverse
  import opened SieveSpec
  import opened SieveLayer

  /** Past this limit the next factor to try is 65536, whose square is not a 32-bit number. */
  const LARGEST_LIMIT: nat := 65535 * 65535

  /** A factor d below f rules n out, starting from its square. */
  ghost predicate CrossedOut(n: nat, f: nat) {
    exists d :: 2 <= d < f && CrossedBy(n, d)
  }

  predicate CrossedBy(n: nat, d: nat) {
    d > 0 && d * d <= n && n % d == 0
  }

  ghost predicate Flags(vfComposite: seq<bool>, f: nat) {
    forall n :: 0 <= n < |vfComposite| ==> vfComposite[n] == CrossedOut(n, f)
  }

  ghost predicate PartFlags(vfComposite: seq<bool>, f: nat, m: nat) {
    forall n :: 0 <= n < |vfComposite| ==> vfComposite[n] == (CrossedOut(n, f) || (n < m && CrossedBy(n, f)))
  }

  lemma CrossedStep(n: nat, f: nat)
    requires f >= 2
    ensures CrossedOut(n, f + 1) <==> CrossedOut(n, f) || CrossedBy(n, f)
  {
    hide CrossedBy;
  }

  lemma DividesFurther(n: nat, f: nat, d: nat)
    requires f > 0 && d > 0 && n % f == 0 && f % d == 0
    ensures n % d == 0
  {
    ModSpec(n, f);
    ModSpec(f, d);
    assert d * ((f / d) * (n / f)) == (d * (f / d)) * (n / f);
    ModOf(n, d, (f / d) * (n / f), 0);
  }

  /** A crossed-out factor has nothing left to cross out. */
  lemma CompositeFactor(n: nat, f: nat)
    requires f >= 2 && CrossedOut(f, f) && CrossedBy(n, f)
    ensures CrossedOut(n, f)
  {
    var d :| 2 <= d < f && CrossedBy(f, d);
    DividesFurther(n, f, d);
    assert f <= f * f by { Square(f); }
    assert CrossedBy(n, d);
  }

  lemma Square(f: nat)
    requires f >= 1
    ensures f * f >= f
  {
    MultipleBounds(f, f);
  }

  lemma SkipComposite(vfComposite: seq<bool>, f: nat)
    requires 2 <= f < |vfComposite| && Flags(vfComposite, f) && vfComposite[f]
    ensures Flags(vfComposite, f + 1)
  {
    hide CrossedOut, CrossedBy;
    forall n | 0 <= n < |vfComposite|
      ensures vfComposite[n] == CrossedOut(n, f + 1)
    {
      CrossedStep(n, f);
      if CrossedBy(n, f) {
        CompositeFactor(n, f);
      }
    }
  }

  /** No multiple of f lies strictly between two neighbours, nor below its square by definition. */
  lemma MarkMultiple(vfComposite: seq<bool>, f: nat, m: nat)
    requires f >= 2 && m < |vfComposite| && PartFlags(vfComposite, f, m) && CrossedBy(m, f)
    ensures PartFlags(vfComposite[m := true], f, m + f)
  {
    hide CrossedOut;
    forall n | 0 <= n < |vfComposite|
      ensures vfComposite[m := true][n] == (CrossedOut(n, f) || (n < m + f && CrossedBy(n, f)))
    {
      if m < n < m + f {
        ModOf(0, f, 0, 0);
        WithinPeriod(m, n, f);
      }
    }
  }

  lemma NextMultiple(m: nat, f: nat)
    requires f >= 2 && CrossedBy(m, f)
    ensures CrossedBy(m + f, f)
  {
    ModShift(m + f, m, f, 1);
  }

  lemma AllMarked(vfComposite: seq<bool>, f: nat, m: nat)
    requires f >= 2 && m >= |vfComposite| && PartFlags(vfComposite, f, m)
    ensures Flags(vfComposite, f + 1)
  {
    hide CrossedOut, CrossedBy;
    forall n | 0 <= n < |vfComposite|
      ensures vfComposite[n] == CrossedOut(n, f + 1)
    {
      CrossedStep(n, f);
    }
  }

  lemma NothingMarked(vfComposite: seq<bool>, f: nat)
    requires f >= 2 && Flags(vfComposite, f)
    ensures PartFlags(vfComposite, f, f * f)
  {
    hide CrossedOut;
  }

  /** Once the square of the factor passes the limit, the unflagged numbers are the primes. */
  lemma {:induction false} UncrossedIsPrime(n: nat, f: nat)
    requires n >= 2 && f >= 2 && n < f * f
    ensures Prime(n) <==> !CrossedOut(n, f)
  {
    if CrossedOut(n, f) {
      var d :| 2 <= d < f && CrossedBy(n, d);
      Square(d);
      MultipleBounds(d, d - 1);
      assert d * d == d + d * (d - 1);
    }
    if !Prime(n) {
      var d :| 2 <= d < n && n % d == 0;
      SmallerFactor(n, d, f);
    }
  }

  lemma SmallerFactor(n: nat, d: nat, f: nat)
    requires 2 <= d < n && n % d == 0 && n < f * f
    ensures CrossedOut(n, f)
  {
    var e := n / d;
    ModSpec(n, d);
    MultipleBounds(d, e - 1);
    assert d * e == d + d * (e - 1);
    ModOf(n, e, d, 0) by { assert e * d == d * e; }
    var s := if d <= e then d else e;
    assert s * s <= n && s < f by { Products(d, e, f); }
    assert CrossedBy(n, s);
  }

  lemma Products(d: nat, e: nat, f: nat)
    ensures d <= e ==> d * d <= d * e
    ensures e <= d ==> e * e <= d * e
    ensures d >= f && e >= f ==> d * e >= f * f
  {
    if d <= e {
      assert d * e == d * d + d * (e - d);
    } else {
      assert d * e == e * e + e * (d - e);
    }
    if d >= f && e >= f {
      assert d * e == d * f + d * (e - f);
      assert d * f == f * f + (d - f) * f;
    }
  }

  predicate Ascending(s: seq<nat>) {
    forall i, j :: 0 <= i < j < |s| ==> s[i] < s[j]
  }

  /** Exactly the primes below the limit. */
  ghost predicate PrimesBelow(vPrimes: seq<nat>, limit: nat) {
    forall p: nat :: p in vPrimes <==> Prime(p) && p < limit
  }

  /** The unflagged numbers from two up to n. */
  ghost predicate Unflagged(vPrimes: seq<nat>, vfComposite: seq<bool>, n: nat) {
    forall p: nat :: p in vPrimes <==> 2 <= p < n && p < |vfComposite| && !vfComposite[p]
  }

  lemma OneMore(vPrimes: seq<nat>, vfComposite: seq<bool>, n: nat)
    requires 2 <= n < |vfComposite| && Unflagged(vPrimes, vfComposite, n) && Ascending(vPrimes)
    ensures var next := if vfComposite[n] then vPrimes else vPrimes + [n];
            Unflagged(next, vfComposite, n + 1) && Ascending(next)
  {
    var next := if vfComposite[n] then vPrimes else vPrimes + [n];
    forall p: nat
      ensures p in next <==> 2 <= p < n + 1 && !vfComposite[p]
    {
      assert p in next <==> p in vPrimes || (!vfComposite[n] && p == n);
    }
    forall i | 0 <= i < |vPrimes|
      ensures vPrimes[i] < n
    {
      assert vPrimes[i] in vPrimes;
    }
  }

  /** When the last factor's square has passed the limit, what is left unflagged are the primes. */
  lemma UnflaggedArePrimes(vPrimes: seq<nat>, vfComposite: seq<bool>, f: nat)
    requires f >= 2 && |vfComposite| <= f * f && Flags(vfComposite, f)
    requires Unflagged(vPrimes, vfComposite, |vfComposite|)
    ensures PrimesBelow(vPrimes, |vfComposite|)
  {
    hide CrossedOut, Prime;
    forall p: nat
      ensures p in vPrimes <==> Prime(p) && p < |vfComposite|
    {
      if 2 <= p < |vfComposite| {
        UncrossedIsPrime(p, f);
      }
      if Prime(p) {
        PrimeAtLeastTwo(p);
      }
    }
  }

  /** uint32_t product */
  function Mul32(a: nat, b: nat): nat {
    (a * b) % 0x1_0000_0000
  }

  lemma FactorFits(f: nat, limit: nat)
    requires limit <= LARGEST_LIMIT && (f < 3 || (f - 1) * (f - 1) < limit)
    ensures f <= 65535 && Mul32(f, f) == f * f
  {
    if f > 65535 {
      Products(f - 1, f - 1, 65535);
    }
    Products(65535 - f, 65535 - f, 0);
    assert f * f <= 65535 * 65535 by {
      assert 65535 * 65535 == f * f + (65535 - f) * (65535 + f);
      Products(65535 - f, 65535 + f, 0);
    }
  }

  // ---- limits whose square roots do not fit 16 bits ----

  /** What a limit above the largest one leads to: one of two primes is flagged. */
  ghost predicate Spoiled(vfComposite: seq<bool>) {
    |vfComposite| > 262147 && (vfComposite[65537] || vfComposite[262147])
  }

  /** None of the eight numbers from 30 * b + 7 on that are prime to thirty divides n. */
  predicate BlockClear(n: nat, b: nat) {
    && n % (30 * b + 7) != 0 && n % (30 * b + 11) != 0 && n % (30 * b + 13) != 0 && n % (30 * b + 17) != 0
    && n % (30 * b + 19) != 0 && n % (30 * b + 23) != 0 && n % (30 * b + 29) != 0 && n % (30 * b + 31) != 0
  }

  /** Trial division by two, three, five and the blocks from lo to hi. */
  predicate Clear(n: nat, lo: nat, hi: nat) {
    n % 2 != 0 && n % 3 != 0 && n % 5 != 0 && forall b: nat :: lo <= b < hi ==> BlockClear(n, b)
  }

  lemma FourBlocks(n: nat, lo: nat)
    requires Clear(n, 0, lo)
    requires BlockClear(n, lo) && BlockClear(n, lo + 1) && BlockClear(n, lo + 2) && BlockClear(n, lo + 3)
    ensures Clear(n, 0, lo + 4)
  {
    hide BlockClear;
  }

  lemma ResidueOfThirty(r: nat)
    requires 7 <= r < 37 && r % 2 != 0 && r % 3 != 0 && r % 5 != 0
    ensures r in {7, 11, 13, 17, 19, 23, 29, 31}
  {
  }

  lemma ClearMeans(n: nat, hi: nat, d: nat)
    requires Clear(n, 0, hi) && 2 <= d < 30 * hi + 7
    ensures n % d != 0
  {
    hide BlockClear;
    if d % 2 == 0 || d % 3 == 0 || d % 5 == 0 {
      if n % d == 0 {
        DividesFurther(n, d, if d % 2 == 0 then 2 else if d % 3 == 0 then 3 else 5);
      }
    } else {
      var b := (d - 7) / 30;
      var r := d - 30 * b;
      ModShift(d, r, 2, 15 * b);
      ModShift(d, r, 3, 10 * b);
      ModShift(d, r, 5, 6 * b);
      ResidueOfThirty(r);
      InBlock(n, b, r);
    }
  }

  lemma InBlock(n: nat, b: nat, r: nat)
    requires BlockClear(n, b) && r in {7, 11, 13, 17, 19, 23, 29, 31}
    ensures n % (30 * b + r) != 0
  {
  }

  lemma PrimeByTrial(n: nat, hi: nat)
    requires n > 1 && Clear(n, 0, hi) && n < (30 * hi + 7) * (30 * hi + 7)
    ensures Prime(n)
  {
    hide Prime, Clear;
    var f := 30 * hi + 7;
    if CrossedOut(n, f) {
      var d :| 2 <= d < f && CrossedBy(n, d);
      ClearMeans(n, hi, d);
    }
    UncrossedIsPrime(n, f);
  }

  lemma First65537()
    ensures BlockClear(65537, 0) && BlockClear(65537, 1) && BlockClear(65537, 2) && BlockClear(65537, 3)
  {
  }

  lemma Second65537()
    ensures BlockClear(65537, 4) && BlockClear(65537, 5) && BlockClear(65537, 6) && BlockClear(65537, 7)
  {
  }

  lemma Third65537()
    ensures BlockClear(65537, 8) && BlockClear(65537, 9) && BlockClear(65537, 10) && BlockClear(65537, 11)
  {
  }

  lemma First262147()
    ensures BlockClear(262147, 0) && BlockClear(262147, 1) && BlockClear(262147, 2) && BlockClear(262147, 3)
  {
  }

  lemma Second262147()
    ensures BlockClear(262147, 4) && BlockClear(262147, 5) && BlockClear(262147, 6) && BlockClear(262147, 7)
  {
  }

  lemma Third262147()
    ensures BlockClear(262147, 8) && BlockClear(262147, 9) && BlockClear(262147, 10) && BlockClear(262147, 11)
  {
  }

  lemma Fourth262147()
    ensures BlockClear(262147, 12) && BlockClear(262147, 13) && BlockClear(262147, 14) && BlockClear(262147, 15)
  {
  }

  lemma Fifth262147()
    ensures BlockClear(262147, 16) && BlockClear(262147, 17) && BlockClear(262147, 18) && BlockClear(262147, 19)
  {
  }

  lemma Prime65537()
    ensures Prime(65537)
  {
    hide Prime, BlockClear;
    First65537();
    FourBlocks(65537, 0);
    Second65537();
    FourBlocks(65537, 4);
    Third65537();
    FourBlocks(65537, 8);
    PrimeByTrial(65537, 12);
  }

  lemma Prime262147()
    ensures Prime(262147)
  {
    hide Prime, BlockClear;
    First262147();
    FourBlocks(262147, 0);
    Second262147();
    FourBlocks(262147, 4);
    Third262147();
    FourBlocks(262147, 8);
    Fourth262147();
    FourBlocks(262147, 12);
    Fifth262147();
    FourBlocks(262147, 16);
    PrimeByTrial(262147, 20);
  }

  lemma SpoiledTable(vPrimes: seq<nat>, vfComposite: seq<bool>)
    requires Spoiled(vfComposite) && Unflagged(vPrimes, vfComposite, |vfComposite|)
    ensures !PrimesBelow(vPrimes, |vfComposite|)
  {
    hide Prime;
    Prime65537();
    Prime262147();
  }

  /** Above the largest limit the loop cannot stop before factor 65537: 65536 squared is zero and 65537 squared is 131073. */
  lemma KeepsGoing(f: nat, limit: nat)
    requires 2 <= f <= 65537 && limit > LARGEST_LIMIT
    ensures Mul32(f, f) < limit
  {
    if f <= 65535 {
      FactorFits(f, LARGEST_LIMIT) by { Products(f - 1, f - 1, 65535); SmallerSquare(f); }
      SmallerSquare(f);
    } else if f == 65536 {
      ModOf(65536 * 65536, 0x1_0000_0000, 1, 0);
    } else {
      ModOf(65537 * 65537, 0x1_0000_0000, 1, 131073);
    }
  }

  lemma SmallerSquare(f: nat)
    requires 2 <= f <= 65535
    ensures (f - 1) * (f - 1) < LARGEST_LIMIT && f * f <= LARGEST_LIMIT
  {
    assert 65535 * 65535 == f * f + (65535 - f) * (65535 + f);
    Products(65535 - f, 65535 + f, 0);
    assert f * f == (f - 1) * (f - 1) + 2 * f - 1;
  }

  // ---- the table ----

  /**
   The table for any 32-bit limit. wraps bounds how often 32-bit arithmetic may
   wrap around, or a factor too large to have a square may be tried, before the
   run is given up as not returning; so does a factor beyond the flags. The table
   is right exactly for limits up to the largest one, which never get that far.
   */
  method GeneratePrimeTable(nSieveSize: nat, wraps: nat) returns (returned: bool, vPrimes: seq<nat>)
    requires nSieveSize < 0x1_0000_0000
    ensures nSieveSize <= LARGEST_LIMIT ==> returned
    ensures returned ==> Ascending(vPrimes) && (PrimesBelow(vPrimes, nSieveSize) <==> nSieveSize <= LARGEST_LIMIT)
  {
    hide CrossedOut, CrossedBy, Prime, Mul32, Flags, Unflagged, PrimesBelow, Ascending;
    var vfComposite := new bool[nSieveSize](_ => false);
    assert Flags(vfComposite[..], 2) by { NothingCrossed(vfComposite[..]); }
    ghost var small := nSieveSize <= LARGEST_LIMIT;
    var left := wraps;
    var nFactor := 2;
    if small {
      FactorFits(2, nSieveSize);
    }
    while Mul32(nFactor, nFactor) < nSieveSize
      invariant 2 <= nFactor
      invariant small ==> nFactor <= 65535 && Mul32(nFactor, nFactor) == nFactor * nFactor
      invariant small ==> Flags(vfComposite[..], nFactor)
      invariant !small && nFactor > 65537 ==> Spoiled(vfComposite[..])
      decreases if nFactor < 65536 then 65536 - nFactor else 0, left
    {
      if nFactor >= 65536 {
        if left == 0 || nFactor >= nSieveSize {
          return false, [];
        }
        left := left - 1;
      }
      Square(nFactor);
      if vfComposite[nFactor] {
        if small {
          SkipComposite(vfComposite[..], nFactor);
        }
      } else {
        returned, left := MarkMultiples(vfComposite, nFactor, left);
        if !returned {
          return false, [];
        }
      }
      if small {
        FactorFits(nFactor + 1, nSieveSize);
      }
      nFactor := nFactor + 1;
    }
    vPrimes := Collect(vfComposite);
    returned := true;
    if small {
      UnflaggedArePrimes(vPrimes, vfComposite[..], nFactor);
    } else {
      if nFactor <= 65537 {
        KeepsGoing(nFactor, nSieveSize);
      }
      SpoiledTable(vPrimes, vfComposite[..]);
    }
  }

  lemma NothingCrossed(vfComposite: seq<bool>)
    requires forall n :: 0 <= n < |vfComposite| ==> !vfComposite[n]
    ensures Flags(vfComposite, 2)
  {
  }

  /** The inner loop: every multiple from the square on, for as long as the sums fit. */
  method MarkMultiples(vfComposite: array<bool>, nFactor: nat, wraps: nat) returns (returned: bool, left: nat)
    requires 2 <= nFactor < vfComposite.Length < 0x1_0000_0000
    requires vfComposite.Length <= LARGEST_LIMIT ==>
               nFactor <= 65535 && Mul32(nFactor, nFactor) == nFactor * nFactor && Flags(vfComposite[..], nFactor)
    modifies vfComposite
    ensures left <= wraps && forall n :: 0 <= n < vfComposite.Length && old(vfComposite[n]) ==> vfComposite[n]
    ensures vfComposite.Length <= LARGEST_LIMIT ==> returned && Flags(vfComposite[..], nFactor + 1)
    ensures vfComposite.Length > LARGEST_LIMIT && nFactor == 65537 && returned ==> vfComposite[262147]
  {
    hide CrossedOut, CrossedBy, Mul32, Flags, PartFlags;
    ghost var small := vfComposite.Length <= LARGEST_LIMIT;
    var nComposite: nat := Mul32(nFactor, nFactor);
    left := wraps;
    if small {
      NothingMarked(vfComposite[..], nFactor);
      SquareCrossed(nFactor);
    } else if nFactor == 65537 {
      SquareOf65537();
    }
    while nComposite < vfComposite.Length
      invariant left <= wraps && forall n :: 0 <= n < vfComposite.Length && old(vfComposite[n]) ==> vfComposite[n]
      invariant small ==> CrossedBy(nComposite, nFactor) && PartFlags(vfComposite[..], nFactor, nComposite)
      invariant !small && nFactor == 65537 ==> vfComposite[262147] || nComposite in {131073, 196610, 262147}
      decreases left, vfComposite.Length - nComposite
    {
      if small {
        MarkMultiple(vfComposite[..], nFactor, nComposite);
        NextMultiple(nComposite, nFactor);
      }
      vfComposite[nComposite] := true;
      if nComposite + nFactor >= 0x1_0000_0000 {
        if left == 0 {
          return false, left;
        }
        left := left - 1;
        nComposite := nComposite + nFactor - 0x1_0000_0000;
      } else {
        nComposite := nComposite + nFactor;
      }
    }
    if small {
      AllMarked(vfComposite[..], nFactor, nComposite);
    }
    returned := true;
  }

  lemma SquareOf65537()
    ensures Mul32(65537, 65537) == 131073
  {
    ModOf(65537 * 65537, 0x1_0000_0000, 1, 131073);
  }

  lemma SquareCrossed(f: nat)
    requires f > 0
    ensures CrossedBy(f * f, f)
  {
    ModOf(f * f, f, f, 0);
  }

  /** Collects what is not flagged. */
  method Collect(vfComposite: array<bool>) returns (vPrimes: seq<nat>)
    ensures Unflagged(vPrimes, vfComposite[..], vfComposite.Length) && Ascending(vPrimes)
  {
    hide Unflagged, Ascending;
    vPrimes := [];
    NothingUnflagged(vfComposite[..]);
    var n := 2;
    while n < vfComposite.Length
      invariant 2 <= n <= (if vfComposite.Length < 2 then 2 else vfComposite.Length)
      invariant Unflagged(vPrimes, vfComposite[..], n) && Ascending(vPrimes) && (n == 2 ==> vPrimes == [])
    {
      OneMore(vPrimes, vfComposite[..], n);
      if !vfComposite[n] {
        vPrimes := vPrimes + [n];
      }
      n := n + 1;
    }
  }

  lemma NothingUnflagged(vfComposite: seq<bool>)
    ensures Unflagged([], vfComposite, 2) && Ascending([])
    ensures |vfComposite| < 2 ==> Unflagged([], vfComposite, |vfComposite|)
  {
  }

  // ---- what the sieve needs of the table ----

  lemma SmallComposites()
    ensures !Prime(4) && !Prime(6) && !Prime(8) && !Prime(9) && !Prime(10)
  {
    assert 4 % 2 == 0 && 6 % 2 == 0 && 8 % 2 == 0 && 9 % 3 == 0 && 10 % 2 == 0;
  }

  /** The table starts 2, 3, 5, 7: from the fifth entry on every prime is odd and at least 11. */
  lemma TableServesSieve(vPrimes: seq<nat>, limit: nat, F: nat, n: nat)
    requires PrimesBelow(vPrimes, limit) && Ascending(vPrimes) && limit <= 0x8000_0000
    requires MIN_PRIME_SEQ <= n <= |vPrimes|
    ensures Woven(F, vPrimes, n).Valid()
  {
    hide Prime;
    forall s | MIN_PRIME_SEQ <= s < |vPrimes|
      ensures OddPrime(vPrimes[s]) && 11 <= vPrimes[s] < 0x8000_0000
    {
      FifthPrime(vPrimes, limit);
      assert vPrimes[s] in vPrimes;
      PrimeAboveTwoIsOdd(vPrimes[s]);
    }
  }

  lemma TableFits(vPrimes: seq<nat>, limit: nat, F: nat, n: nat, size: nat)
    requires PrimesBelow(vPrimes, limit) && size + limit <= 0x1_0000_0000
    ensures Woven(F, vPrimes, n).Fits(size)
  {
    hide Prime;
    forall s | MIN_PRIME_SEQ <= s < n && s < |vPrimes|
      ensures size + vPrimes[s] <= 0x1_0000_0000
    {
      assert vPrimes[s] in vPrimes;
    }
  }

  lemma FirstFour(vPrimes: seq<nat>, limit: nat)
    requires PrimesBelow(vPrimes, limit) && Ascending(vPrimes) && |vPrimes| >= 4
    ensures vPrimes[..4] == [2, 3, 5, 7]
  {
    hide Prime;
    SmallComposites();
    SmallPrimes();
    assert vPrimes[0] in vPrimes && vPrimes[1] in vPrimes && vPrimes[2] in vPrimes && vPrimes[3] in vPrimes;
    PrimeAtLeastTwo(vPrimes[0]);
    assert 2 in vPrimes && 3 in vPrimes && 5 in vPrimes && 7 in vPrimes;
  }

  lemma SmallPrimes()
    ensures Prime(2) && Prime(3) && Prime(5) && Prime(7)
  {
  }

  lemma FifthPrime(vPrimes: seq<nat>, limit: nat)
    requires PrimesBelow(vPrimes, limit) && Ascending(vPrimes) && |vPrimes| > 4
    ensures vPrimes[4] >= 11
  {
    hide Prime;
    SmallComposites();
    assert vPrimes[0] in vPrimes && vPrimes[1] in vPrimes && vPrimes[2] in vPrimes && vPrimes[3] in vPrimes
           && vPrimes[4] in vPrimes;
    PrimeAtLeastTwo(vPrimes[0]);
  }
}
