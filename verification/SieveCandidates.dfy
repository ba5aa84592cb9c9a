/** The final bitmaps: a multiplier survives when some chain type is not ruled out. */
module SieveCandidates {
  import Words
  import Bits
  import opened NumberTheory
  import opened SieveBits
  import opened SieveSpec
  import opened SieveLayer
  import opened SieveApply

  /** Not ruled out for all three chain types. */
  ghost predicate Survives(p: Plan, off: nat, i: nat) {
    !(p.First1(off, p.layers, i) && p.Second1(off, p.layers, i) && p.Twin(off, p.layers, i))
  }

  function Combined(a: SieveWord, b: SieveWord, c: SieveWord): SieveWord {
    Not(And(And(a, b), c))
  }

  function CombineInto(C: seq<SieveWord>, D1: seq<SieveWord>, D2: seq<SieveWord>, DT: seq<SieveWord>,
                       base: nat, lo: nat, hi: nat): (r: seq<SieveWord>)
    requires |C| == |D1| == |D2| == |DT| && base + hi <= |C|
    ensures |r| == |C|
  {
    seq(|C|, j requires 0 <= j < |C| => if base + lo <= j < base + hi then Combined(D1[j], D2[j], DT[j]) else C[j])
  }

  lemma CombineStep(C: seq<SieveWord>, D1: seq<SieveWord>, D2: seq<SieveWord>, DT: seq<SieveWord>, base: nat, lo: nat, w: nat)
    requires |C| == |D1| == |D2| == |DT| && lo <= w && base + w < |C|
    ensures CombineInto(C, D1, D2, DT, base, lo, w)[base + w := Combined(D1[base + w], D2[base + w], DT[base + w])]
         == CombineInto(C, D1, D2, DT, base, lo, w + 1)
  {
    hide Combined;
  }

  lemma CombineNone(C: seq<SieveWord>, D1: seq<SieveWord>, D2: seq<SieveWord>, DT: seq<SieveWord>, base: nat, lo: nat)
    requires |C| == |D1| == |D2| == |DT| && base + lo <= |C|
    ensures CombineInto(C, D1, D2, DT, base, lo, lo) == C
  {
    hide Combined;
  }

  /** The loop over the words [lo, hi) of one bitmap. */
  method Combine(cand: array<SieveWord>, d1: array<SieveWord>, d2: array<SieveWord>, dt: array<SieveWord>,
                 base: nat, lo: nat, hi: nat)
    requires cand !in {d1, d2, dt} && cand.Length == d1.Length == d2.Length == dt.Length
    requires lo <= hi && base + hi <= cand.Length
    modifies cand
    ensures cand[..] == CombineInto(old(cand[..]), d1[..], d2[..], dt[..], base, lo, hi)
  {
    hide CombineInto, Not, And;
    ghost var C, D1, D2, DT := cand[..], d1[..], d2[..], dt[..];
    CombineNone(C, D1, D2, DT, base, lo);
    var i := lo;
    while i < hi
      invariant lo <= i <= hi
      invariant cand[..] == CombineInto(C, D1, D2, DT, base, lo, i)
    {
      CombineStep(C, D1, D2, DT, base, lo, i);
      cand[base + i] := Not(And(And(d1[base + i], d2[base + i]), dt[base + i]));
      i := i + 1;
    }
  }

  /** Candidate bits below lo and from start on are the survivors; all others are clear. */
  ghost predicate CandidateState(C: seq<SieveWord>, p: Plan, off: nat, start: nat, lo: nat) {
    forall i :: 0 <= i < |C| * WORD_BITS ==> Bit(C, i) == (start <= i < lo && Survives(p, off, i))
  }

  ghost predicate RowCandidates(X: seq<SieveWord>, e: nat, words: nat, p: Plan, off: nat, start: nat, lo: nat) {
    e * words + words <= |X| && CandidateState(Row(X, e, words), p, off, start, lo)
  }

  lemma CombineOwn(C: seq<SieveWord>, D1: seq<SieveWord>, D2: seq<SieveWord>, DT: seq<SieveWord>,
                   base: nat, words: nat, lo: nat, hi: nat)
    requires |C| == |D1| == |D2| == |DT| && base + words <= |C| && lo <= hi <= words
    ensures CombineInto(C, D1, D2, DT, base, lo, hi)[base..base + words]
         == CombineInto(C[base..base + words], D1[base..base + words], D2[base..base + words], DT[base..base + words], 0, lo, hi)
  {
    hide Combined;
  }

  lemma CombineApart(C: seq<SieveWord>, D1: seq<SieveWord>, D2: seq<SieveWord>, DT: seq<SieveWord>,
                     base: nat, other: nat, words: nat, lo: nat, hi: nat)
    requires |C| == |D1| == |D2| == |DT| && base + words <= |C| && other + words <= |C| && lo <= hi <= words
    requires other + words <= base || base + words <= other
    ensures CombineInto(C, D1, D2, DT, base, lo, hi)[other..other + words] == C[other..other + words]
  {
    hide Combined;
  }

  lemma CombineRow(C: seq<SieveWord>, D1: seq<SieveWord>, D2: seq<SieveWord>, DT: seq<SieveWord>,
                   e: nat, words: nat, lo: nat, hi: nat)
    requires |C| == |D1| == |D2| == |DT| && e * words + words <= |C| && lo <= hi <= words
    ensures Row(CombineInto(C, D1, D2, DT, e * words, lo, hi), e, words)
         == CombineInto(Row(C, e, words), Row(D1, e, words), Row(D2, e, words), Row(DT, e, words), 0, lo, hi)
  {
    hide CombineInto;
    CombineOwn(C, D1, D2, DT, e * words, words, lo, hi);
  }

  lemma CombineOtherRow(C: seq<SieveWord>, D1: seq<SieveWord>, D2: seq<SieveWord>, DT: seq<SieveWord>,
                        e: nat, f: nat, words: nat, lo: nat, hi: nat)
    requires |C| == |D1| == |D2| == |DT| && e * words + words <= |C| && f * words + words <= |C| && lo <= hi <= words
    requires f != e
    ensures Row(CombineInto(C, D1, D2, DT, e * words, lo, hi), f, words) == Row(C, f, words)
  {
    hide CombineInto;
    RowsApart(e, f, words);
    RowsApart(f, e, words);
    CombineApart(C, D1, D2, DT, e * words, f * words, words, lo, hi);
  }

  lemma CombineOtherRows(C: seq<SieveWord>, D1: seq<SieveWord>, D2: seq<SieveWord>, DT: seq<SieveWord>,
                         e: nat, words: nat, lo: nat, hi: nat)
    requires |C| == |D1| == |D2| == |DT| && e * words + words <= |C| && lo <= hi <= words
    ensures OtherRowsKept(C, CombineInto(C, D1, D2, DT, e * words, lo, hi), e, words)
  {
    hide CombineInto;
    forall f: nat | f != e && f * words + words <= |C|
      ensures Row(CombineInto(C, D1, D2, DT, e * words, lo, hi), f, words) == Row(C, f, words)
    {
      CombineOtherRow(C, D1, D2, DT, e, f, words, lo, hi);
    }
  }

  lemma CombineBit(C: seq<SieveWord>, D1: seq<SieveWord>, D2: seq<SieveWord>, DT: seq<SieveWord>, lo: nat, hi: nat, i: nat)
    requires |C| == |D1| == |D2| == |DT| && hi <= |C| && GetWordNum(i) < |C|
    ensures Bit(CombineInto(C, D1, D2, DT, 0, lo, hi), i) ==
            if lo <= GetWordNum(i) < hi then !(Bit(D1, i) && Bit(D2, i) && Bit(DT, i)) else Bit(C, i)
  {
  }

  /** Combining a finished segment extends the survivors to its end. */
  lemma CombineKeeps(C: seq<SieveWord>, D1: seq<SieveWord>, D2: seq<SieveWord>, DT: seq<SieveWord>,
                     p: Plan, off: nat, start: nat, lo: nat, hi: nat, a: nat, b: nat)
    requires |C| == |D1| && CandidateState(C, p, off, start, lo)
    requires State(D1, D2, DT, p, off, start, lo, hi, p.layers)
    requires a <= b <= |C| && lo <= hi <= |C| * WORD_BITS
    requires forall i :: 0 <= i < |C| * WORD_BITS ==> (a <= GetWordNum(i) < b <==> InRun(i, start, lo, hi))
    ensures CandidateState(CombineInto(C, D1, D2, DT, 0, a, b), p, off, start, hi)
  {
    hide CombineInto, Bit, Plan.First1, Plan.Second1, Plan.Twin;
    forall i | 0 <= i < |C| * WORD_BITS
      ensures Bit(CombineInto(C, D1, D2, DT, 0, a, b), i) == (start <= i < hi && Survives(p, off, i))
    {
      CombineBit(C, D1, D2, DT, a, b, i);
      if start <= i {
        assert BitsAt(D1, D2, DT, p, off, Collected(p, lo, hi, p.layers, i), i);
      }
    }
  }

  /** The combining loop on row e, with its effect on the survivors. */
  method CombineRowMethod(cand: array<SieveWord>, d1: array<SieveWord>, d2: array<SieveWord>, dt: array<SieveWord>,
                          e: nat, words: nat, a: nat, b: nat,
                          ghost p: Plan, ghost off: nat, ghost start: nat, ghost lo: nat, ghost hi: nat)
    requires cand !in {d1, d2, dt} && cand.Length == d1.Length
    requires RowState(d1[..], d2[..], dt[..], e, words, p, off, start, lo, hi, p.layers)
    requires RowCandidates(cand[..], e, words, p, off, start, lo)
    requires a <= b <= words && lo <= hi <= words * WORD_BITS
    requires forall i :: 0 <= i < words * WORD_BITS ==> (a <= GetWordNum(i) < b <==> InRun(i, start, lo, hi))
    modifies cand
    ensures RowCandidates(cand[..], e, words, p, off, start, hi)
    ensures OtherRowsKept(old(cand[..]), cand[..], e, words)
  {
    hide CombineInto, State, CandidateState, Row, OtherRowsKept;
    ghost var C, D1, D2, DT := cand[..], d1[..], d2[..], dt[..];
    CombineRow(C, D1, D2, DT, e, words, a, b);
    CombineOtherRows(C, D1, D2, DT, e, words, a, b);
    CombineKeeps(Row(C, e, words), Row(D1, e, words), Row(D2, e, words), Row(DT, e, words), p, off, start, lo, hi, a, b);
    Combine(cand, d1, d2, dt, e * words, a, b);
  }

  // ---- what the extensions mean ----

  lemma Regroup(F: nat, i: nat, a: nat, b: nat)
    ensures F * i * (a * b) == F * (i * a) * b
  {
    Words.MulAssoc(F * i, a, b);
    Words.MulAssoc(F, i, a);
  }

  /** A member of extension layer off + k is the default member of the scaled multiplier. */
  lemma MemberScaled(F: nat, i: nat, off: nat, k: nat, kind: Kind)
    ensures Member(F, i, off + k, kind) == Member(F, i * Bits.Pow2(off), k, kind)
  {
    hide Bits.Pow2;
    Bits.Pow2Add(off, k);
    Regroup(F, i, Bits.Pow2(off), Bits.Pow2(k));
  }

  lemma RuledScaled(w: Woven, i: nat, off: nat, k: nat, kind: Kind)
    ensures w.Ruled(i, off + k, kind) == w.Ruled(i * Bits.Pow2(off), k, kind)
  {
    hide Bits.Pow2, Member;
    var j, o := i * Bits.Pow2(off), off + k;
    MemberScaled(w.F, i, off, k, kind);
    if w.Ruled(i, o, kind) {
      var s :| MIN_PRIME_SEQ <= s < w.n && w.HitBy(s, i, o, kind);
      assert w.HitBy(s, j, k, kind);
    }
    if w.Ruled(j, k, kind) {
      var s :| MIN_PRIME_SEQ <= s < w.n && w.HitBy(s, j, k, kind);
      assert w.HitBy(s, i, o, kind);
    }
  }

  lemma RuledInScaled(p: Plan, i: nat, off: nat, cnt: nat, kind: Kind)
    ensures p.RuledIn(off, off + cnt, i, kind) == p.RuledIn(0, cnt, i * Bits.Pow2(off), kind)
  {
    hide Bits.Pow2;
    var j := i * Bits.Pow2(off);
    if p.RuledIn(off, off + cnt, i, kind) {
      var k :| off <= k < off + cnt && p.w.Ruled(i, k, kind);
      RuledScaled(p.w, i, off, k - off, kind);
      assert 0 <= k - off < cnt && p.w.Ruled(j, k - off, kind);
    }
    if p.RuledIn(0, cnt, j, kind) {
      var k :| 0 <= k < cnt && p.w.Ruled(j, k, kind);
      RuledScaled(p.w, i, off, k, kind);
      assert off <= off + k < off + cnt && p.w.Ruled(i, off + k, kind);
    }
  }

  /**
   Extension bits are the default bits of the multiplier they are scanned as:
   each of the three conditions at offset off, and survival itself, for i is the
   default condition for i * 2^off.
   */
  lemma ExtensionMeaning(p: Plan, off: nat, i: nat)
    requires p.Valid() && off + p.chain <= p.layers
    ensures p.First1(off, p.layers, i) == p.First1(0, p.layers, i * Bits.Pow2(off))
    ensures p.Second1(off, p.layers, i) == p.Second1(0, p.layers, i * Bits.Pow2(off))
    ensures p.Twin(off, p.layers, i) == p.Twin(0, p.layers, i * Bits.Pow2(off))
    ensures Survives(p, off, i) == Survives(p, 0, i * Bits.Pow2(off))
  {
    hide Plan.RuledIn, Bits.Pow2;
    RuledInScaled(p, i, off, p.chain, First);
    RuledInScaled(p, i, off, p.chain, Second);
    RuledInScaled(p, i, off, p.cc1, First);
    RuledInScaled(p, i, off, p.cc2, Second);
  }

  /** Multiplier zero survives every sieve: its members are -1 and 1. */
  lemma ZeroSurvives(p: Plan)
    requires p.w.Valid()
    ensures Survives(p, 0, 0)
  {
    if p.First1(0, p.layers, 0) {
      var k :| 0 <= k < Min(p.layers, p.chain) && p.w.Ruled(0, k, First);
      var s :| MIN_PRIME_SEQ <= s < p.w.n && p.w.HitBy(s, 0, k, First);
      MinusOneResidue(p.w.primes[s]);
    }
  }

  lemma MinusOneResidue(p: nat)
    requires p > 1
    ensures (-1) % p != 0
  {
    ModOf(-1, p, -1, p - 1);
  }
}
