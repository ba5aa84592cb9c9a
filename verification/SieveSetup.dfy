/** The first part of Weave: the residue of every prime at every layer. */
module SieveSetup {
  import opened Words
  import opened Bits
  import opened NumberTheory
  import opened SmallInverse
  import opened SieveSpec
  import opened SieveLayer

  const UINT_MAX: nat := 0xFFFF_FFFF

  // ---- one reduction for several primes ----

  function Power11(k: nat): (p: nat)
    ensures p >= 1
  {
    if k == 0 then 1 else 11 * Power11(k - 1)
  }

  lemma Power11Nine()
    ensures Power11(9) == 2357947691
  {
    assert Power11(3) == 1331;
    assert Power11(6) == 1771561;
  }

  lemma {:induction false} Power11Monotone(m: nat, n: nat)
    requires m <= n
    ensures Power11(m) <= Power11(n)
    decreases n
  {
    if m < n {
      Power11Monotone(m, n - 1);
    }
  }

  lemma ProductWithin(c: nat, p: nat)
    requires p > 0 && c < UINT_MAX / p
    ensures c * p <= UINT_MAX
  {
    ModSpec(UINT_MAX, p);
    MulMonotone(p, c, UINT_MAX / p);
  }

  lemma GroupGrows(c: nat, p: nat, k: nat)
    requires c >= Power11(k) && p >= 11
    ensures c * p >= Power11(k + 1)
  {
    MulMonotone(c, 11, p);
  }

  /** Ten primes of at least eleven never fit 32 bits. */
  lemma GroupBound(c: nat, p: nat, k: nat)
    requires c >= Power11(k) && p >= 11 && c < UINT_MAX / p
    ensures k < 9
  {
    if k >= 9 {
      Power11Nine();
      Power11Monotone(9, k);
      ProductWithin(c, p);
      MulMonotone(c, 11, p);
    }
  }

  lemma DividesProduct(x: nat, c: nat, p: nat)
    requires Divides(x, c) || x == p
    ensures Divides(x, c * p)
  {
    if Divides(x, c) {
      var k :| c == x * k;
      MulAssoc(x, k, p);
      assert c * p == x * (k * p);
    } else {
      assert c * p == x * c;
    }
  }

  /** A product of the primes from start on that fits 32 bits, at least one of them. */
  method CombinePrimes(vPrimes: seq<nat>, start: nat, ghost w: Woven) returns (end: nat, combined: nat)
    requires w.Valid() && w.primes == vPrimes && MIN_PRIME_SEQ <= start < w.n && w.n + 9 <= |vPrimes|
    ensures start < end <= |vPrimes| && 0 < combined <= UINT_MAX
    ensures forall t :: start <= t < end ==> Divides(vPrimes[t], combined)
  {
    hide Divides, Prime;
    end, combined := start, 1;
    ghost var k := 0;
    while combined < UINT_MAX / vPrimes[end]
      invariant start <= end == start + k && k <= 9
      invariant 0 < combined <= UINT_MAX && combined >= Power11(k)
      invariant end == start ==> combined == 1
      invariant forall t :: start <= t < end ==> Divides(vPrimes[t], combined)
      decreases |vPrimes| - end
    {
      var p := vPrimes[end];
      GroupBound(combined, p, k);
      ProductWithin(combined, p);
      GroupGrows(combined, p, k);
      forall t | start <= t < end + 1
        ensures Divides(vPrimes[t], combined * p)
      {
        DividesProduct(vPrimes[t], combined, p);
      }
      combined := combined * p;
      end := end + 1;
      k := k + 1;
    }
    if end == start {
      QuotientOfMax(vPrimes[start]);
    }
  }

  lemma QuotientOfMax(p: nat)
    requires 0 < p < 0x8000_0000
    ensures UINT_MAX / p >= 2
  {
    ModSpec(UINT_MAX, p);
    if UINT_MAX / p <= 1 {
      MulMonotone(p, UINT_MAX / p, 1);
    }
  }

  lemma ReducedAlike(F: nat, combined: nat, p: nat)
    requires p > 0 && combined > 0 && Divides(p, combined)
    ensures (F % combined) % p == F % p
  {
    var x :| combined == p * x;
    MultipleBounds(p, x);
    CombinedModulus(F, combined, p, x);
  }

  // ---- one prime's row ----

  /** Halving modulo p, in 32-bit arithmetic when the product is known to fit. */
  method NextInverse(r: nat, p: nat) returns (r': nat)
    requires 2 < p < 0x8000_0000 && r < p
    ensures r' == (r * ((p + 1) / 2)) % p
  {
    var nTwoInverse := (p + 1) / 2;
    var fUse32BArithmetic := UINT_MAX / nTwoInverse >= p;
    if fUse32BArithmetic {
      FitsWord(r, p, nTwoInverse);
      r' := ((r * nTwoInverse) % 0x1_0000_0000) % p;
    } else {
      FitsLong(r, nTwoInverse);
      BelowModulus(r * nTwoInverse, 0x1_0000_0000_0000_0000);
      r' := ((r * nTwoInverse) % 0x1_0000_0000_0000_0000) % p;
    }
  }

  lemma FitsWord(r: nat, p: nat, h: nat)
    requires h > 0 && r < p && UINT_MAX / h >= p
    ensures (r * h) % 0x1_0000_0000 == r * h
  {
    ModSpec(UINT_MAX, h);
    MulMonotone(h, r, UINT_MAX / h);
    ModOf(r * h, 0x1_0000_0000, 0, r * h);
  }

  lemma BelowModulus(x: nat, n: nat)
    requires x < n
    ensures x % n == x
  {
    ModOf(x, n, 0, x);
  }

  lemma FitsLong(r: nat, h: nat)
    requires r < 0x8000_0000 && h < 0x8000_0000
    ensures r * h < 0x1_0000_0000_0000_0000
  {
    MulMonotone(r, h, 0x8000_0000);
  }

  /** Entries of row s that are ready: those of layers before k. */
  ghost predicate RowReady(M: seq<nat>, w: Woven, layers: nat, kind: Kind, s: nat, k: nat) {
    forall l :: 0 <= l < k ==> PrimeOnTrack(M, w, layers, l, kind, 0, s)
  }

  ghost predicate RowsReady(M: seq<nat>, w: Woven, layers: nat, kind: Kind, to: nat) {
    forall s :: MIN_PRIME_SEQ <= s < to ==> RowReady(M, w, layers, kind, s, layers)
  }

  ghost predicate RowUntouched(M: seq<nat>, layers: nat, s: nat, from: nat) {
    forall l :: from <= l < layers ==> Pos(s, l, layers) < |M| && M[Pos(s, l, layers)] == SKIPPED
  }

  ghost predicate RowsUntouched(M: seq<nat>, layers: nat, from: nat, to: nat) {
    forall s :: from <= s < to ==> RowUntouched(M, layers, s, 0)
  }

  lemma EntryElsewhere(M: seq<nat>, layers: nat, s: nat, k: nat, m: nat, t: nat, l: nat)
    requires k < layers && l < layers && (s != t || k != l)
    requires Pos(s, k, layers) < |M| && Pos(t, l, layers) < |M|
    ensures M[Pos(s, k, layers) := m][Pos(t, l, layers)] == M[Pos(t, l, layers)]
  {
    if Pos(s, k, layers) == Pos(t, l, layers) {
      PosInjective(s, k, t, l, layers);
    }
  }

  /** Writing the next entry of row s keeps the rows before it and leaves the rest untouched. */
  lemma WriteEntry(M: seq<nat>, w: Woven, layers: nat, kind: Kind, s: nat, k: nat, m: nat)
    requires w.Valid() && MIN_PRIME_SEQ <= s < w.n && k < layers && |M| == w.n * layers
    requires RowsReady(M, w, layers, kind, s) && RowReady(M, w, layers, kind, s, k)
    requires RowsUntouched(M, layers, s + 1, w.n)
    requires OnTrack(w.F, w.primes[s], k, kind, m, 0)
    ensures Pos(s, k, layers) < |M|
    ensures var M' := M[Pos(s, k, layers) := m];
            RowsReady(M', w, layers, kind, s) && RowReady(M', w, layers, kind, s, k + 1)
            && RowsUntouched(M', layers, s + 1, w.n)
  {
    hide Pos, OnTrack;
    PosRange(s, k, layers, w.n);
    var M' := M[Pos(s, k, layers) := m];
    forall t | MIN_PRIME_SEQ <= t < s
      ensures RowReady(M', w, layers, kind, t, layers)
    {
      assert RowReady(M, w, layers, kind, t, layers);
      forall l | 0 <= l < layers
        ensures PrimeOnTrack(M', w, layers, l, kind, 0, t)
      {
        assert PrimeOnTrack(M, w, layers, l, kind, 0, t);
        EntryElsewhere(M, layers, s, k, m, t, l);
      }
    }
    forall l | 0 <= l < k + 1
      ensures PrimeOnTrack(M', w, layers, l, kind, 0, s)
    {
      if l < k {
        assert PrimeOnTrack(M, w, layers, l, kind, 0, s);
        EntryElsewhere(M, layers, s, k, m, s, l);
      }
    }
    UntouchedElsewhere(M, layers, s, k, m, w.n);
  }

  lemma UntouchedElsewhere(M: seq<nat>, layers: nat, s: nat, k: nat, m: nat, to: nat)
    requires k < layers && Pos(s, k, layers) < |M| && RowsUntouched(M, layers, s + 1, to)
    ensures RowsUntouched(M[Pos(s, k, layers) := m], layers, s + 1, to)
  {
    hide Pos;
    var M' := M[Pos(s, k, layers) := m];
    forall t | s + 1 <= t < to
      ensures RowUntouched(M', layers, t, 0)
    {
      assert RowUntouched(M, layers, t, 0);
      forall l | 0 <= l < layers
        ensures Pos(t, l, layers) < |M'| && M'[Pos(t, l, layers)] == SKIPPED
      {
        EntryElsewhere(M, layers, s, k, m, t, l);
      }
    }
  }

  /** A prime dividing F keeps its row as it was. */
  lemma SkipRow(M: seq<nat>, w: Woven, layers: nat, kind: Kind, s: nat)
    requires w.Valid() && MIN_PRIME_SEQ <= s < w.n && w.F % w.primes[s] == 0
    requires RowsReady(M, w, layers, kind, s) && RowsUntouched(M, layers, s, w.n)
    ensures RowsReady(M, w, layers, kind, s + 1) && RowsUntouched(M, layers, s + 1, w.n)
  {
    assert RowUntouched(M, layers, s, 0);
    assert RowReady(M, w, layers, kind, s, layers);
  }

  /** The entry for the residue r of layer k, of either kind. */
  lemma EntryOnTrack(F: nat, p: nat, k: nat, r: nat)
    requires OddPrime(p) && F % p != 0 && 0 < r < p && SolvesLayer(F, p, k, r)
    ensures OnTrack(F, p, k, First, r, 0) && OnTrack(F, p, k, Second, p - r, 0)
  {
    HitIffResidue(F, p, r, k, r);
    HitIffResidue(F, p, p - r, k, r);
    ModOf(r, p, 0, r);
    ModOf(p - r, p, 0, p - r);
  }

  /** The layers of one prime, written side by side. */
  method WriteRow(m1: array<nat>, m2: array<nat>, s: nat, nPrime: nat, nFixedInverse0: nat, nSieveLayers: nat, ghost w: Woven)
    requires m1 != m2 && w.Valid() && MIN_PRIME_SEQ <= s < w.n && nPrime == w.primes[s]
    requires m1.Length == w.n * nSieveLayers && m2.Length == w.n * nSieveLayers
    requires w.F % nPrime != 0 && 0 < nFixedInverse0 < nPrime && SolvesLayer(w.F, nPrime, 0, nFixedInverse0)
    requires RowsReady(m1[..], w, nSieveLayers, First, s) && RowsUntouched(m1[..], nSieveLayers, s + 1, w.n)
    requires RowsReady(m2[..], w, nSieveLayers, Second, s) && RowsUntouched(m2[..], nSieveLayers, s + 1, w.n)
    modifies m1, m2
    ensures RowsReady(m1[..], w, nSieveLayers, First, s + 1) && RowsUntouched(m1[..], nSieveLayers, s + 1, w.n)
    ensures RowsReady(m2[..], w, nSieveLayers, Second, s + 1) && RowsUntouched(m2[..], nSieveLayers, s + 1, w.n)
  {
    hide RowReady, RowsReady, RowsUntouched, OnTrack, SolvesLayer, Pos, Prime;
    var nFixedInverse: nat := nFixedInverse0;
    var multiplierPos: nat := s * nSieveLayers;
    RowStart(m1[..], w, nSieveLayers, First, s);
    RowStart(m2[..], w, nSieveLayers, Second, s);
    for nChainSeq := 0 to nSieveLayers
      invariant multiplierPos == s * nSieveLayers + nChainSeq
      invariant 0 < nFixedInverse < nPrime && SolvesLayer(w.F, nPrime, nChainSeq, nFixedInverse)
      invariant RowsReady(m1[..], w, nSieveLayers, First, s) && RowReady(m1[..], w, nSieveLayers, First, s, nChainSeq)
      invariant RowsReady(m2[..], w, nSieveLayers, Second, s) && RowReady(m2[..], w, nSieveLayers, Second, s, nChainSeq)
      invariant RowsUntouched(m1[..], nSieveLayers, s + 1, w.n) && RowsUntouched(m2[..], nSieveLayers, s + 1, w.n)
    {
      PosIs(s, nChainSeq, nSieveLayers);
      EntryOnTrack(w.F, nPrime, nChainSeq, nFixedInverse);
      ghost var M1, M2 := m1[..], m2[..];
      WriteEntry(M1, w, nSieveLayers, First, s, nChainSeq, nFixedInverse);
      WriteEntry(M2, w, nSieveLayers, Second, s, nChainSeq, nPrime - nFixedInverse);
      var negated: nat := nPrime - nFixedInverse;
      m1[multiplierPos] := nFixedInverse;
      m2[multiplierPos] := negated;
      assert m1[..] == M1[multiplierPos := nFixedInverse];
      assert m2[..] == M2[multiplierPos := negated];
      NextLayer(w.F, nPrime, nChainSeq, nFixedInverse);
      nFixedInverse := NextInverse(nFixedInverse, nPrime);
      multiplierPos := multiplierPos + 1;
    }
    RowDone(m1[..], w, nSieveLayers, First, s);
    RowDone(m2[..], w, nSieveLayers, Second, s);
  }

  lemma RowStart(M: seq<nat>, w: Woven, layers: nat, kind: Kind, s: nat)
    ensures RowReady(M, w, layers, kind, s, 0)
  {
  }

  lemma RowDone(M: seq<nat>, w: Woven, layers: nat, kind: Kind, s: nat)
    requires RowsReady(M, w, layers, kind, s) && RowReady(M, w, layers, kind, s, layers)
    ensures RowsReady(M, w, layers, kind, s + 1)
  {
  }

  // ---- the table ----

  lemma ReadyLayers(M: seq<nat>, w: Woven, layers: nat, kind: Kind, k: nat)
    requires RowsReady(M, w, layers, kind, w.n) && k < layers
    ensures LayerOnTrack(M, w, layers, k, kind, 0)
  {
    forall s | MIN_PRIME_SEQ <= s < w.n
      ensures PrimeOnTrack(M, w, layers, k, kind, 0, s)
    {
      assert RowReady(M, w, layers, kind, s, layers);
    }
  }

  lemma FreshUntouched(M: seq<nat>, layers: nat, n: nat, from: nat)
    requires |M| == n * layers && forall i :: 0 <= i < |M| ==> M[i] == SKIPPED
    ensures RowsUntouched(M, layers, from, n)
  {
    forall s | from <= s < n
      ensures RowUntouched(M, layers, s, 0)
    {
      forall l | 0 <= l < layers
        ensures Pos(s, l, layers) < |M|
      {
        PosRange(s, l, layers, n);
      }
    }
  }

  lemma UntouchedTail(M: seq<nat>, layers: nat, s: nat, to: nat)
    requires RowsUntouched(M, layers, s, to)
    ensures RowsUntouched(M, layers, s + 1, to)
  {
  }

  /** All residues: every prime of the range, every layer, both kinds. */
  method SetUpResidues(vPrimes: seq<nat>, nPrimeSeq: nat, nPrimes: nat, nSieveLayers: nat, mpzFixedFactor: nat,
                       m1: array<nat>, m2: array<nat>, ghost w: Woven) returns (ok: bool)
    requires m1 != m2 && w == Woven(mpzFixedFactor, vPrimes, nPrimes) && w.Valid()
    requires nPrimeSeq == MIN_PRIME_SEQ && nPrimes + 9 <= |vPrimes|
    requires m1.Length == nPrimes * nSieveLayers && m2.Length == nPrimes * nSieveLayers
    requires forall i :: 0 <= i < m1.Length ==> m1[i] == SKIPPED
    requires forall i :: 0 <= i < m2.Length ==> m2[i] == SKIPPED
    modifies m1, m2
    ensures ok
    ensures forall k :: 0 <= k < nSieveLayers ==> LayerOnTrack(m1[..], w, nSieveLayers, k, First, 0)
    ensures forall k :: 0 <= k < nSieveLayers ==> LayerOnTrack(m2[..], w, nSieveLayers, k, Second, 0)
  {
    hide RowReady, RowsReady, RowsUntouched, LayerOnTrack, SolvesLayer, Divides, Prime, IsInverse;
    FreshUntouched(m1[..], nSieveLayers, nPrimes, MIN_PRIME_SEQ);
    FreshUntouched(m2[..], nSieveLayers, nPrimes, MIN_PRIME_SEQ);
    NothingReady(m1[..], w, nSieveLayers, First);
    NothingReady(m2[..], w, nSieveLayers, Second);
    var nCombinedEndSeq, nFixedFactorCombinedMod := nPrimeSeq, 0;
    var s := nPrimeSeq;
    while s < nPrimes
      invariant MIN_PRIME_SEQ <= s <= nPrimes && nCombinedEndSeq <= |vPrimes|
      invariant forall t :: s <= t < nCombinedEndSeq ==> nFixedFactorCombinedMod % vPrimes[t] == mpzFixedFactor % vPrimes[t]
      invariant RowsReady(m1[..], w, nSieveLayers, First, s) && RowsUntouched(m1[..], nSieveLayers, s, nPrimes)
      invariant RowsReady(m2[..], w, nSieveLayers, Second, s) && RowsUntouched(m2[..], nSieveLayers, s, nPrimes)
    {
      var nPrime := vPrimes[s];
      if s >= nCombinedEndSeq {
        nCombinedEndSeq, nFixedFactorCombinedMod := CombinedResidue(vPrimes, s, mpzFixedFactor, w);
      }
      var nFixedFactorMod := nFixedFactorCombinedMod % nPrime;
      if nFixedFactorMod == 0 {
        SkipRow(m1[..], w, nSieveLayers, First, s);
        SkipRow(m2[..], w, nSieveLayers, Second, s);
        s := s + 1;
        continue;
      }
      ResidueSmall(mpzFixedFactor, nPrime);
      var nFixedInverse := IntInvert(nFixedFactorMod, nPrime);
      if nFixedInverse == 0 {
        return false;
      }
      FirstLayer(mpzFixedFactor, nPrime, nFixedFactorMod, nFixedInverse);
      UntouchedTail(m1[..], nSieveLayers, s, nPrimes);
      UntouchedTail(m2[..], nSieveLayers, s, nPrimes);
      WriteRow(m1, m2, s, nPrime, nFixedInverse, nSieveLayers, w);
      s := s + 1;
    }
    forall k | 0 <= k < nSieveLayers
      ensures LayerOnTrack(m1[..], w, nSieveLayers, k, First, 0) && LayerOnTrack(m2[..], w, nSieveLayers, k, Second, 0)
    {
      ReadyLayers(m1[..], w, nSieveLayers, First, k);
      ReadyLayers(m2[..], w, nSieveLayers, Second, k);
    }
    return true;
  }

  lemma NothingReady(M: seq<nat>, w: Woven, layers: nat, kind: Kind)
    ensures RowsReady(M, w, layers, kind, MIN_PRIME_SEQ)
  {
  }

  lemma ResidueSmall(F: nat, p: nat)
    requires OddPrime(p) && F % p != 0
    ensures F % p < p && (F % p) % p == F % p
  {
    PrimeCoprimeResidue(F, p);
  }

  /** One reduction of F that serves a whole group of primes. */
  method CombinedResidue(vPrimes: seq<nat>, start: nat, F: nat, ghost w: Woven) returns (end: nat, residue: nat)
    requires w.Valid() && w.primes == vPrimes && MIN_PRIME_SEQ <= start < w.n && w.n + 9 <= |vPrimes|
    ensures start < end <= |vPrimes|
    ensures forall t :: start <= t < end ==> residue % vPrimes[t] == F % vPrimes[t]
  {
    hide Divides, Prime;
    var combined;
    end, combined := CombinePrimes(vPrimes, start, w);
    residue := F % combined;
    forall t | start <= t < end
      ensures residue % vPrimes[t] == F % vPrimes[t]
    {
      ReducedAlike(F, combined, vPrimes[t]);
    }
  }
}
