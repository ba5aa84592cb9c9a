/**
 What an exact sieve says about numbers: its bitmaps in terms of the prime
 table and of divisibility alone.
 */
module SieveMeaning {
  import opened Bits
  import opened NumberTheory
  import opened SieveBits
  import opened SieveSpec
  import opened SieveLayer
  import opened SieveApply
  import opened SieveCandidates

  /** One of the primes, 11 or more, divides x. */
  ghost predicate HasFactor(primes: seq<nat>, x: int) {
    exists q :: q in primes && q >= 11 && x % q == 0
  }

  /** Some number F * i * 2^k - 1 with k < len has such a factor. */
  ghost predicate FirstHit(primes: seq<nat>, F: nat, i: nat, len: nat) {
    exists k: nat :: k < len && HasFactor(primes, F * i * Pow2(k) - 1)
  }

  /** Some number F * i * 2^k + 1 with k < len has one. */
  ghost predicate SecondHit(primes: seq<nat>, F: nat, i: nat, len: nat) {
    exists k: nat :: k < len && HasFactor(primes, F * i * Pow2(k) + 1)
  }

  /** No chain type is left for i: not one of chain numbers, nor a bi-twin chain of bt. */
  ghost predicate AllHit(primes: seq<nat>, F: nat, i: nat, chain: nat, bt: nat) {
    FirstHit(primes, F, i, chain) && SecondHit(primes, F, i, chain)
    && (FirstHit(primes, F, i, (bt + 1) / 2) || SecondHit(primes, F, i, bt / 2))
  }

  /** Bit i of a row of words, 64 bits to a word. */
  predicate BitAt(X: seq<SieveWord>, row: nat, words: nat, i: nat) {
    row * words + i / 64 < |X| && X[row * words + i / 64][i % 64]
  }

  lemma BitOfRow(X: seq<SieveWord>, row: nat, words: nat, i: nat)
    requires row * words + words <= |X| && GetWordNum(i) < words
    ensures BitAt(X, row, words, i) == Bit(Row(X, row, words), i)
  {
    var base := row * words;
    assert Row(X, row, words) == X[base..base + words];
  }

  lemma BitOfBitmap(X: seq<SieveWord>, i: nat)
    requires GetWordNum(i) < |X|
    ensures BitAt(X, 0, |X|, i) == Bit(X, i)
  {
  }

  lemma PastTheFirst(primes: seq<nat>, s: nat)
    requires |primes| >= 4 && primes[..4] == [2, 3, 5, 7] && s < |primes|
    ensures primes[s] >= 11 ==> s >= 4
  {
    if s < 4 {
      assert primes[s] == primes[..4][s];
    }
  }

  /** The first four primes have no part in a sieve over a table that starts with 2, 3, 5 and 7. */
  lemma FactorIffRuled(w: Woven, i: nat, k: nat, kind: Kind)
    requires w.Valid() && w.primes[..4] == [2, 3, 5, 7]
    ensures w.Ruled(i, k, kind) <==> HasFactor(w.primes[..w.n], Member(w.F, i, k, kind))
  {
    hide Member;
    var x := Member(w.F, i, k, kind);
    var woven := w.primes[..w.n];
    if w.Ruled(i, k, kind) {
      var s :| MIN_PRIME_SEQ <= s < w.n && w.HitBy(s, i, k, kind);
      assert woven[s] in woven;
    }
    if HasFactor(woven, x) {
      var q :| q in woven && q >= 11 && x % q == 0;
      var s :| 0 <= s < |woven| && woven[s] == q;
      PastTheFirst(w.primes, s);
      assert w.HitBy(s, i, k, kind);
    }
  }

  lemma FirstHits(p: Plan, i: nat, len: nat)
    requires p.w.Valid() && p.w.primes[..4] == [2, 3, 5, 7]
    ensures p.RuledIn(0, len, i, First) <==> FirstHit(p.w.primes[..p.w.n], p.w.F, i, len)
  {
    var woven := p.w.primes[..p.w.n];
    hide HasFactor, Woven.Valid, Woven.Ruled;
    forall k: nat
      ensures p.w.Ruled(i, k, First) <==> HasFactor(woven, p.w.F * i * Pow2(k) - 1)
    {
      FactorIffRuled(p.w, i, k, First);
    }
  }

  lemma SecondHits(p: Plan, i: nat, len: nat)
    requires p.w.Valid() && p.w.primes[..4] == [2, 3, 5, 7]
    ensures p.RuledIn(0, len, i, Second) <==> SecondHit(p.w.primes[..p.w.n], p.w.F, i, len)
  {
    var woven := p.w.primes[..p.w.n];
    hide HasFactor, Woven.Valid, Woven.Ruled;
    forall k: nat
      ensures p.w.Ruled(i, k, Second) <==> HasFactor(woven, p.w.F * i * Pow2(k) + 1)
    {
      FactorIffRuled(p.w, i, k, Second);
    }
  }

  /** The sieve's conditions on a multiplier, as divisibility. */
  lemma ConditionsMean(p: Plan, i: nat, bt: nat)
    requires p.w.Valid() && p.w.primes[..4] == [2, 3, 5, 7] && p.Valid() && p.chain <= p.layers
    requires p.cc1 == (bt + 1) / 2 && p.cc2 == bt / 2
    ensures (var woven := p.w.primes[..p.w.n];
             && p.First1(0, p.layers, i) == FirstHit(woven, p.w.F, i, p.chain)
             && p.Second1(0, p.layers, i) == SecondHit(woven, p.w.F, i, p.chain)
             && p.Twin(0, p.layers, i)
                == (FirstHit(woven, p.w.F, i, (bt + 1) / 2) || SecondHit(woven, p.w.F, i, bt / 2))
             && Survives(p, 0, i) == !AllHit(woven, p.w.F, i, p.chain, bt))
  {
    hide Woven.Valid, Plan.RuledIn, FirstHit, SecondHit;
    FirstHits(p, i, p.chain);
    SecondHits(p, i, p.chain);
    FirstHits(p, i, (bt + 1) / 2);
    SecondHits(p, i, bt / 2);
  }
}
