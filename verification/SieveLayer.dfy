/** ProcessMultiplier: marking one layer of one segment, prime by prime, resuming where the last segment stopped. */
module SieveLayer {
  import opened Bits
  import opened NumberTheory
  import opened SmallInverse
  import opened SieveBits
  import opened SieveSpec

  const MIN_PRIME_SEQ: nat := 4    // prime 11, the first with unknown factor status
  const SKIPPED: nat := 0xFFFF_FFFF  // multiplier of a prime that rules nothing out

  /** What is woven: the origin F against primes [MIN_PRIME_SEQ, n) of the table. */
  datatype Woven = Woven(F: nat, primes: seq<nat>, n: nat) {
    ghost predicate Valid() {
      && MIN_PRIME_SEQ <= n <= |primes|
      && forall s :: MIN_PRIME_SEQ <= s < |primes| ==> OddPrime(primes[s]) && 11 <= primes[s] < 0x8000_0000
    }

    /** Multipliers up to size can be stepped by every woven prime within 32 bits. */
    ghost predicate Fits(size: nat) {
      forall s :: MIN_PRIME_SEQ <= s < n && s < |primes| ==> size + primes[s] <= 0x1_0000_0000
    }

    lemma FitsBelow(size: nat, smaller: nat)
      requires Fits(size) && smaller <= size
      ensures Fits(smaller)
    {
    }

    ghost predicate Ruled(i: nat, k: nat, kind: Kind) {
      RuledBelow(n, i, k, kind)
    }

    /** Ruled out by a prime before position m. */
    ghost predicate RuledBelow(m: nat, i: nat, k: nat, kind: Kind) {
      exists s :: MIN_PRIME_SEQ <= s < m && HitBy(s, i, k, kind)
    }

    ghost predicate HitBy(s: nat, i: nat, k: nat, kind: Kind) {
      s < |primes| && primes[s] > 0 && Hit(F, primes[s], i, k, kind)
    }

    lemma RuledStep(m: nat, i: nat, k: nat, kind: Kind)
      requires MIN_PRIME_SEQ <= m
      ensures RuledBelow(m + 1, i, k, kind) <==> RuledBelow(m, i, k, kind) || HitBy(m, i, k, kind)
    {
    }
  }

  /** The flat index of column l in row s of a table with width columns. */
  function Pos(s: nat, l: nat, width: nat): nat {
    s * width + l
  }

  lemma PosRange(s: nat, l: nat, width: nat, rows: nat)
    requires s < rows && l < width
    ensures Pos(s, l, width) < rows * width
  {
    assert rows * width == s * width + width + (rows - s - 1) * width;
  }

  lemma PosInjective(s: nat, l: nat, s': nat, l': nat, width: nat)
    requires l < width && l' < width && Pos(s, l, width) == Pos(s', l', width)
    ensures s == s' && l == l'
  {
    ModOf(Pos(s, l, width), width, s, l) by { assert s * width == width * s; }
    ModOf(Pos(s, l, width), width, s', l') by { assert s' * width == width * s'; }
  }

  /**
   Multiplier m is the next one to mark for prime p at layer k: it is ruled out,
   and no other multiplier at or above lo comes before it.
   */
  ghost predicate OnTrack(F: nat, p: nat, k: nat, kind: Kind, m: nat, lo: nat)
    requires p > 0
  {
    if F % p == 0 then m == SKIPPED else Hit(F, p, m, k, kind) && (m < p || m < lo + p)
  }

  /** c * m == s + p * t with s a sign: then m is a unit's multiple, and solutions repeat with period p. */
  lemma SolutionsRepeat(c: int, m: int, i: int, s: int, p: nat, t: int)
    requires p > 0 && (s == 1 || s == -1) && c * m == s + p * t
    ensures (c * i - s) % p == 0 <==> i % p == m % p
  {
    ModOf(0, p, 0, 0);
    assert c * (i - m) == c * i - c * m;
    if i % p == m % p {
      var e := ModEqual(i, m, p);
      assert c * (p * e) == p * (c * e);
      assert p * (t + c * e) == p * t + p * (c * e);
      ModShift(c * i - s, 0, p, t + c * e);
    }
    if (c * i - s) % p == 0 {
      var u := ModEqual(c * i - s, 0, p);
      SolutionDifference(c, m, i, s, p, t, u);
      ModShift(i, m, p, s * (m * (u - t) - t * (i - m)));
    }
  }

  lemma SolutionDifference(c: int, m: int, i: int, s: int, p: nat, t: int, u: int)
    requires (s == 1 || s == -1) && c * m == s + p * t && c * i - s == p * u
    ensures i == m + p * (s * (m * (u - t) - t * (i - m)))
  {
    var d := i - m;
    assert c * d == p * (u - t) by {
      assert c * d == c * i - c * m;
      assert p * (u - t) == p * u - p * t;
    }
    calc {
      s * d;
      { assert (c * m - p * t) * d == (c * m) * d - (p * t) * d; }
      (c * m) * d - (p * t) * d;
      { assert (c * m) * d == m * (c * d); assert (p * t) * d == p * (t * d); }
      m * (p * (u - t)) - p * (t * d);
      { assert m * (p * (u - t)) == p * (m * (u - t)); }
      p * (m * (u - t)) - p * (t * d);
      { assert p * (m * (u - t) - t * d) == p * (m * (u - t)) - p * (t * d); }
      p * (m * (u - t) - t * d);
    }
    var w := m * (u - t) - t * d;
    assert s * (p * w) == p * (s * w);
    assert s * (s * d) == d;
  }

  /** The multipliers a prime rules out in one layer repeat with the prime as period. */
  lemma HitPeriod(F: nat, p: nat, m: nat, i: nat, k: nat, kind: Kind)
    requires p > 0 && Hit(F, p, m, k, kind)
    ensures Hit(F, p, i, k, kind) <==> i % p == m % p
  {
    var c, s := F * Pow2(k), if kind == First then 1 else -1;
    ScaledOrigin(F, m, Pow2(k));
    ScaledOrigin(F, i, Pow2(k));
    ModSpec(c * m - s, p);
    SolutionsRepeat(c, m, i, s, p, (c * m - s) / p);
  }

  lemma WithinPeriod(v: nat, i: nat, p: nat)
    requires p > 0 && v < i < v + p
    ensures i % p != v % p
  {
    if i % p == v % p {
      var k := ModEqual(i, v, p);
      SmallDifference(i - v, p, k);
    }
  }

  /** Between one hit and the next there is none. */
  lemma NoHitBetween(F: nat, p: nat, v: nat, i: nat, k: nat, kind: Kind)
    requires p > 0 && Hit(F, p, v, k, kind) && i != v && v < i + p && i < v + p
    ensures !Hit(F, p, i, k, kind)
  {
    HitPeriod(F, p, v, i, k, kind);
    if v < i {
      WithinPeriod(v, i, p);
    } else {
      WithinPeriod(i, v, p);
    }
  }

  lemma NextHit(F: nat, p: nat, v: nat, n: nat, k: nat, kind: Kind)
    requires p > 0 && Hit(F, p, v, k, kind)
    ensures Hit(F, p, v + p * n, k, kind)
  {
    HitPeriod(F, p, v, v + p * n, k, kind);
    ModShift(v + p * n, v, p, n);
  }

  /** Catching up: the least multiple of p that brings m to at least lo. */
  lemma CatchUp(m: nat, lo: nat, p: nat) returns (n: nat)
    requires p > 0 && m < lo
    ensures (lo - m + p - 1) / p * p == p * n
    ensures lo <= m + p * n < lo + p
  {
    n := (lo - m + p - 1) / p;
    ModSpec(lo - m + p - 1, p);
    assert n * p == p * n;
  }

  // ---- one prime ----

  /** In [lo, hi), the bitmap has the bits of old and every multiplier below v that p rules out. */
  ghost predicate Marked(bits: seq<SieveWord>, old_: seq<SieveWord>, lo: nat, hi: nat,
                         F: nat, p: nat, k: nat, kind: Kind, v: nat)
    requires p > 0 && |bits| == |old_| && hi <= |bits| * WORD_BITS
  {
    forall i :: lo <= i < hi ==> Bit(bits, i) == (Bit(old_, i) || (i < v && Hit(F, p, i, k, kind)))
  }

  lemma MarkStart(bits: seq<SieveWord>, lo: nat, hi: nat, F: nat, p: nat, k: nat, kind: Kind, v: nat)
    requires p > 0 && hi <= |bits| * WORD_BITS
    requires Hit(F, p, v, k, kind) && (v < p || v < lo + p)
    ensures Marked(bits, bits, lo, hi, F, p, k, kind, v)
  {
    forall i | lo <= i < hi && i < v
      ensures !Hit(F, p, i, k, kind)
    {
      NoHitBetween(F, p, v, i, k, kind);
    }
  }

  lemma MarkStep(bits: seq<SieveWord>, old_: seq<SieveWord>, lo: nat, hi: nat,
                 F: nat, p: nat, k: nat, kind: Kind, v: nat)
    requires p > 0 && |bits| == |old_| && hi <= |bits| * WORD_BITS && v < hi
    requires Hit(F, p, v, k, kind) && Marked(bits, old_, lo, hi, F, p, k, kind, v)
    ensures Marked(bits[GetWordNum(v) := Or(bits[GetWordNum(v)], GetBitMask(v))], old_, lo, hi,
                   F, p, k, kind, v + p)
  {
    var bits' := bits[GetWordNum(v) := Or(bits[GetWordNum(v)], GetBitMask(v))];
    forall i | lo <= i < hi
      ensures Bit(bits', i) == (Bit(old_, i) || (i < v + p && Hit(F, p, i, k, kind)))
    {
      OrMaskSetsBit(bits, v, i);
      if v < i < v + p {
        NoHitBetween(F, p, v, i, k, kind);
      }
    }
  }

  /** The state of the marking loop: v is next. */
  ghost predicate Marking(bits: seq<SieveWord>, was: seq<SieveWord>, lo: nat, hi: nat,
                          F: nat, p: nat, k: nat, kind: Kind, v: nat)
    requires p > 0
  {
    && |bits| == |was| && hi <= |bits| * WORD_BITS && lo <= v
    && (forall w :: 0 <= w < |bits| && !(GetWordNum(lo) <= w < GetWordNum(hi)) ==> bits[w] == was[w])
    && if F % p == 0 then v == SKIPPED && bits == was
       else Hit(F, p, v, k, kind) && (v < p || v < lo + p || v < hi + p)
            && Marked(bits, was, lo, hi, F, p, k, kind, v)
  }

  lemma MarkingStart(was: seq<SieveWord>, lo: nat, hi: nat, F: nat, p: nat, k: nat, kind: Kind, m: nat, v: nat)
    requires p > 0 && hi <= |was| * WORD_BITS && lo <= SKIPPED && OnTrack(F, p, k, kind, m, lo)
    requires v == if m < lo then m + (lo - m + p - 1) / p * p else m
    ensures Marking(was, was, lo, hi, F, p, k, kind, v)
  {
    if F % p != 0 {
      if m < lo {
        var n := CatchUp(m, lo, p);
        NextHit(F, p, m, n, k, kind);
      }
      MarkStart(was, lo, hi, F, p, k, kind, v);
    }
  }

  lemma MarkingStep(bits: seq<SieveWord>, was: seq<SieveWord>, lo: nat, hi: nat,
                    F: nat, p: nat, k: nat, kind: Kind, v: nat)
    requires p > 0 && hi <= SKIPPED && Marking(bits, was, lo, hi, F, p, k, kind, v) && v < hi
    requires lo % WORD_BITS == 0 && hi % WORD_BITS == 0
    ensures GetWordNum(v) < |bits|
    ensures Marking(bits[GetWordNum(v) := Or(bits[GetWordNum(v)], GetBitMask(v))], was, lo, hi, F, p, k, kind, v + p)
  {
    MarkStep(bits, was, lo, hi, F, p, k, kind, v);
    NextHit(F, p, v, 1, k, kind);
    AlignedWord(v, lo, hi);
  }

  lemma MarkingEnd(bits: seq<SieveWord>, was: seq<SieveWord>, lo: nat, hi: nat,
                   F: nat, p: nat, k: nat, kind: Kind, v: nat)
    requires p > 1 && Marking(bits, was, lo, hi, F, p, k, kind, v) && hi <= v
    ensures OnTrack(F, p, k, kind, v, if lo < hi then hi else lo)
    ensures forall i :: lo <= i < hi ==> Bit(bits, i) == (Bit(was, i) || Hit(F, p, i, k, kind))
  {
    if F % p == 0 {
      forall i | lo <= i < hi
        ensures !Hit(F, p, i, k, kind)
      {
        NoHit(F, p, i, k, kind);
      }
    }
  }

  lemma RoundedUp(d: nat, p: nat)
    requires p > 0
    ensures (d + p - 1) / p * p <= d + p - 1
  {
    ModSpec(d + p - 1, p);
    assert (d + p - 1) / p * p == p * ((d + p - 1) / p);
  }

  /** Marks every multiplier of [lo, hi) that p rules out, starting from m; returns where to resume. */
  method MarkPrime(vf: array<SieveWord>, lo: nat, hi: nat, p: nat, m: nat, ghost F: nat, ghost k: nat, ghost kind: Kind)
    returns (m': nat)
    requires OddPrime(p) && OnTrack(F, p, k, kind, m, lo)
    requires lo % WORD_BITS == 0 && hi % WORD_BITS == 0 && hi <= vf.Length * WORD_BITS
    requires lo + p <= 0x1_0000_0000 && hi + p <= 0x1_0000_0000
    modifies vf
    ensures OnTrack(F, p, k, kind, m', if lo < hi then hi else lo)
    ensures forall i :: lo <= i < hi ==> Bit(vf[..], i) == (old(Bit(vf[..], i)) || Hit(F, p, i, k, kind))
    ensures forall w :: 0 <= w < vf.Length && !(GetWordNum(lo) <= w < GetWordNum(hi)) ==> vf[w] == old(vf[w])
  {
    hide Marking, OnTrack, Hit, Or, ShiftLeft, ShiftRight, GetBitMask, Bit;
    ghost var was := vf[..];
    m' := m;
    if m' < lo {
      RoundedUp(lo - m', p);
      assert lo - m' + p - 1 < 0x1_0000_0000 && m' + (lo - m' + p - 1) / p * p < 0x1_0000_0000;  // 32-bit sums are exact
      m' := m' + (lo - m' + p - 1) / p * p;
    }
    MarkingStart(was, lo, hi, F, p, k, kind, m, m');
    var nRotateBits := p % WORD_BITS;
    var lBitMask := GetBitMask(m');
    while m' < hi
      invariant lBitMask == GetBitMask(m')
      invariant Marking(vf[..], was, lo, hi, F, p, k, kind, m')
      decreases hi - m'
    {
      ghost var bits := vf[..];
      MarkingStep(bits, was, lo, hi, F, p, k, kind, m');
      RotateMask(m', p);
      vf[GetWordNum(m')] := Or(vf[GetWordNum(m')], lBitMask);
      assert vf[..] == bits[GetWordNum(m') := Or(bits[GetWordNum(m')], GetBitMask(m'))];
      lBitMask := Or(ShiftLeft(lBitMask, nRotateBits), ShiftRight(lBitMask, WORD_BITS - nRotateBits));
      assert m' + p < 0x1_0000_0000;
      m' := m' + p;
    }
    MarkingEnd(vf[..], was, lo, hi, F, p, k, kind, m');
    MarkingOutside(vf[..], was, lo, hi, F, p, k, kind, m');
  }

  lemma MarkingOutside(bits: seq<SieveWord>, was: seq<SieveWord>, lo: nat, hi: nat,
                       F: nat, p: nat, k: nat, kind: Kind, v: nat)
    requires p > 0 && Marking(bits, was, lo, hi, F, p, k, kind, v)
    ensures |bits| == |was|
    ensures forall w :: 0 <= w < |bits| && !(GetWordNum(lo) <= w < GetWordNum(hi)) ==> bits[w] == was[w]
  {
  }

  // ---- one layer of one segment ----

  /** Every prime of the layer is on track to resume at lo. */
  ghost predicate LayerOnTrack(M: seq<nat>, w: Woven, layers: nat, k: nat, kind: Kind, lo: nat) {
    RangeOnTrack(M, w, layers, k, kind, lo, MIN_PRIME_SEQ, w.n)
  }

  ghost predicate RangeOnTrack(M: seq<nat>, w: Woven, layers: nat, k: nat, kind: Kind, lo: nat, from: nat, to: nat) {
    forall s :: from <= s < to ==> PrimeOnTrack(M, w, layers, k, kind, lo, s)
  }

  ghost predicate PrimeOnTrack(M: seq<nat>, w: Woven, layers: nat, k: nat, kind: Kind, lo: nat, s: nat) {
    s < |w.primes| && w.primes[s] > 0 && Pos(s, k, layers) < |M|
    && OnTrack(w.F, w.primes[s], k, kind, M[Pos(s, k, layers)], lo)
  }

  /** M and M' agree on every layer but k. */
  ghost predicate OtherLayersKept(M: seq<nat>, M': seq<nat>, n: nat, layers: nat, k: nat) {
    |M| == |M'| && forall s: nat, l: nat :: s < n && l < layers && l != k && Pos(s, l, layers) < |M| ==>
                                              M'[Pos(s, l, layers)] == M[Pos(s, l, layers)]
  }

  lemma OtherLayerOnTrack(M: seq<nat>, M': seq<nat>, w: Woven, layers: nat, k: nat, l: nat, kind: Kind, lo: nat)
    requires OtherLayersKept(M, M', w.n, layers, k) && l != k && l < layers
    requires LayerOnTrack(M, w, layers, l, kind, lo)
    ensures LayerOnTrack(M', w, layers, l, kind, lo)
  {
    forall s | MIN_PRIME_SEQ <= s < w.n
      ensures PrimeOnTrack(M', w, layers, l, kind, lo, s)
    {
      assert PrimeOnTrack(M, w, layers, l, kind, lo, s);
    }
  }

  /** Starting later is always sound. */
  lemma OnTrackLater(M: seq<nat>, w: Woven, layers: nat, k: nat, kind: Kind, lo: nat, lo': nat)
    requires LayerOnTrack(M, w, layers, k, kind, lo) && lo <= lo'
    ensures LayerOnTrack(M, w, layers, k, kind, lo')
  {
    forall s | MIN_PRIME_SEQ <= s < w.n
      ensures PrimeOnTrack(M, w, layers, k, kind, lo', s)
    {
      assert PrimeOnTrack(M, w, layers, k, kind, lo, s);
    }
  }

  lemma EntryUpdate(M: seq<nat>, w: Woven, layers: nat, k: nat, kind: Kind, lo: nat, s: nat, m: nat, t: nat)
    requires k < layers && Pos(s, k, layers) < |M| && s != t && PrimeOnTrack(M, w, layers, k, kind, lo, t)
    ensures PrimeOnTrack(M[Pos(s, k, layers) := m], w, layers, k, kind, lo, t)
  {
    if Pos(t, k, layers) == Pos(s, k, layers) {
      PosInjective(t, k, s, k, layers);
    }
  }

  /** Updating the entry of prime s at layer k. */
  lemma LayerUpdate(M: seq<nat>, w: Woven, layers: nat, k: nat, kind: Kind, lo: nat, lo': nat, s: nat, m: nat)
    requires w.Valid() && MIN_PRIME_SEQ <= s < w.n && k < layers && Pos(s, k, layers) < |M|
    requires RangeOnTrack(M, w, layers, k, kind, lo', MIN_PRIME_SEQ, s)
    requires RangeOnTrack(M, w, layers, k, kind, lo, s, w.n)
    requires OnTrack(w.F, w.primes[s], k, kind, m, lo')
    ensures RangeOnTrack(M[Pos(s, k, layers) := m], w, layers, k, kind, lo', MIN_PRIME_SEQ, s + 1)
    ensures RangeOnTrack(M[Pos(s, k, layers) := m], w, layers, k, kind, lo, s + 1, w.n)
  {
    hide OnTrack, Pos;
    var M' := M[Pos(s, k, layers) := m];
    assert PrimeOnTrack(M', w, layers, k, kind, lo', s);
    forall t | MIN_PRIME_SEQ <= t < s
      ensures PrimeOnTrack(M', w, layers, k, kind, lo', t)
    {
      assert PrimeOnTrack(M, w, layers, k, kind, lo', t);
      EntryUpdate(M, w, layers, k, kind, lo', s, m, t);
    }
    forall t | s + 1 <= t < w.n
      ensures PrimeOnTrack(M', w, layers, k, kind, lo, t)
    {
      assert PrimeOnTrack(M, w, layers, k, kind, lo, t);
      EntryUpdate(M, w, layers, k, kind, lo, s, m, t);
    }
  }

  lemma LayerUpdateKeeps(M0: seq<nat>, M: seq<nat>, n: nat, layers: nat, k: nat, s: nat, m: nat)
    requires OtherLayersKept(M0, M, n, layers, k) && k < layers && Pos(s, k, layers) < |M|
    ensures OtherLayersKept(M0, M[Pos(s, k, layers) := m], n, layers, k)
  {
    hide Pos;
    forall t: nat, l: nat | t < n && l < layers && l != k && Pos(t, l, layers) == Pos(s, k, layers)
      ensures false
    {
      PosInjective(t, l, s, k, layers);
    }
  }

  /** The layer bitmap over a segment: exactly the multipliers some prime before position s rules out. */
  ghost predicate LayerMarked(bits: seq<SieveWord>, w: Woven, s: nat, lo: nat, hi: nat, k: nat, kind: Kind)
    requires hi <= |bits| * WORD_BITS
  {
    forall i :: lo <= i < hi ==> Bit(bits, i) == w.RuledBelow(s, i, k, kind)
  }

  lemma LayerMarkedStep(bits: seq<SieveWord>, bits': seq<SieveWord>, w: Woven, s: nat, lo: nat, hi: nat, k: nat, kind: Kind)
    requires |bits| == |bits'| && hi <= |bits| * WORD_BITS && MIN_PRIME_SEQ <= s < w.n && w.Valid()
    requires LayerMarked(bits, w, s, lo, hi, k, kind)
    requires forall i :: lo <= i < hi ==> Bit(bits', i) == (Bit(bits, i) || Hit(w.F, w.primes[s], i, k, kind))
    ensures LayerMarked(bits', w, s + 1, lo, hi, k, kind)
  {
    forall i | lo <= i < hi
      ensures Bit(bits', i) == w.RuledBelow(s + 1, i, k, kind)
    {
      w.RuledStep(s, i, k, kind);
    }
  }

  /** Clears the words of the segment. */
  method Wipe(vf: array<SieveWord>, from: nat, count: nat)
    requires from + count <= vf.Length
    modifies vf
    ensures forall i :: 0 <= i < vf.Length ==> vf[i] == if from <= i < from + count then ZeroWord() else old(vf[i])
  {
    for i := 0 to count
      invariant forall j :: 0 <= j < vf.Length ==> vf[j] == if from <= j < from + i then ZeroWord() else old(vf[j])
    {
      vf[from + i] := ZeroWord();
    }
  }

  lemma WipedIsUnmarked(bits: seq<SieveWord>, w: Woven, lo: nat, hi: nat, k: nat, kind: Kind)
    requires hi <= |bits| * WORD_BITS && lo % WORD_BITS == 0 && hi % WORD_BITS == 0
    requires forall i :: GetWordNum(lo) <= i < GetWordNum(hi) ==> bits[i] == ZeroWord()
    ensures LayerMarked(bits, w, MIN_PRIME_SEQ, lo, hi, k, kind)
  {
    forall i | lo <= i < hi
      ensures Bit(bits, i) == w.RuledBelow(MIN_PRIME_SEQ, i, k, kind)
    {
      AlignedWord(i, lo, hi);
    }
  }

  /**
   ProcessMultiplier: afterwards the words of [lo, hi) hold exactly the layer's
   ruled-out multipliers, other words are untouched, and the layer resumes at hi.
   */
  method ProcessMultiplier(vfComposites: array<SieveWord>, lo: nat, hi: nat, vPrimes: seq<nat>, vMultipliers: array<nat>,
                           nLayerSeq: nat, nPrimes: nat, nSieveLayers: nat, ghost w: Woven, ghost kind: Kind)
    requires w.Valid() && w.primes == vPrimes && w.n == nPrimes && nLayerSeq < nSieveLayers
    requires vMultipliers.Length == nPrimes * nSieveLayers
    requires lo % WORD_BITS == 0 && hi % WORD_BITS == 0 && hi <= vfComposites.Length * WORD_BITS
    requires w.Fits(lo) && w.Fits(hi)
    requires LayerOnTrack(vMultipliers[..], w, nSieveLayers, nLayerSeq, kind, lo)
    modifies vfComposites, vMultipliers
    ensures LayerMarked(vfComposites[..], w, w.n, lo, hi, nLayerSeq, kind)
    ensures forall i :: 0 <= i < vfComposites.Length && !(GetWordNum(lo) <= i < GetWordNum(hi)) ==>
                          vfComposites[i] == old(vfComposites[i])
    ensures LayerOnTrack(vMultipliers[..], w, nSieveLayers, nLayerSeq, kind, if lo < hi then hi else lo)
    ensures OtherLayersKept(old(vMultipliers[..]), vMultipliers[..], nPrimes, nSieveLayers, nLayerSeq)
  {
    hide Hit, OnTrack, Bit, OtherLayersKept, Pos, LayerMarked, ZeroWord;
    if lo < hi {
      WipeWords(lo, hi);
      Wipe(vfComposites, GetWordNum(lo), (hi - lo + WORD_BITS - 1) / WORD_BITS);
    }
    ghost var M0 := vMultipliers[..];
    ghost var lo' := if lo < hi then hi else lo;
    WipedIsUnmarked(vfComposites[..], w, lo, hi, nLayerSeq, kind);
    KeptSelf(M0, nPrimes, nSieveLayers, nLayerSeq);
    var nPrimeSeqLocal := MIN_PRIME_SEQ;
    while nPrimeSeqLocal < nPrimes
      invariant MIN_PRIME_SEQ <= nPrimeSeqLocal <= nPrimes
      invariant LayerMarked(vfComposites[..], w, nPrimeSeqLocal, lo, hi, nLayerSeq, kind)
      invariant forall i :: 0 <= i < vfComposites.Length && !(GetWordNum(lo) <= i < GetWordNum(hi)) ==>
                              vfComposites[i] == old(vfComposites[i])
      invariant RangeOnTrack(vMultipliers[..], w, nSieveLayers, nLayerSeq, kind, lo', MIN_PRIME_SEQ, nPrimeSeqLocal)
      invariant RangeOnTrack(vMultipliers[..], w, nSieveLayers, nLayerSeq, kind, lo, nPrimeSeqLocal, nPrimes)
      invariant OtherLayersKept(M0, vMultipliers[..], nPrimes, nSieveLayers, nLayerSeq)
    {
      var nPrime := vPrimes[nPrimeSeqLocal];
      var nMultiplierPos := nPrimeSeqLocal * nSieveLayers + nLayerSeq;
      PosIs(nPrimeSeqLocal, nLayerSeq, nSieveLayers);
      ghost var bits, M := vfComposites[..], vMultipliers[..];
      assert PrimeOnTrack(M, w, nSieveLayers, nLayerSeq, kind, lo, nPrimeSeqLocal);
      var m' := MarkPrime(vfComposites, lo, hi, nPrime, vMultipliers[nMultiplierPos], w.F, nLayerSeq, kind);
      vMultipliers[nMultiplierPos] := m';
      assert vMultipliers[..] == M[nMultiplierPos := m'];
      LayerMarkedStep(bits, vfComposites[..], w, nPrimeSeqLocal, lo, hi, nLayerSeq, kind);
      LayerUpdate(M, w, nSieveLayers, nLayerSeq, kind, lo, lo', nPrimeSeqLocal, m');
      LayerUpdateKeeps(M0, M, nPrimes, nSieveLayers, nLayerSeq, nPrimeSeqLocal, m');
      nPrimeSeqLocal := nPrimeSeqLocal + 1;
    }
  }

  lemma PosIs(s: nat, l: nat, width: nat)
    ensures Pos(s, l, width) == s * width + l
  {
  }

  lemma KeptSelf(M: seq<nat>, n: nat, layers: nat, k: nat)
    ensures OtherLayersKept(M, M, n, layers, k)
  {
  }
}
