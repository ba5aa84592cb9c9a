/** Combining a marked layer into the sieve's bitmaps, for the default part and for extensions alike. */
module SieveApply {
  import opened NumberTheory
  import opened SieveBits
  import opened SieveSpec
  import opened SieveLayer

  /** The shape of a sieve: what is woven, the chain lengths and the number of layers. */
  datatype Plan = Plan(w: Woven, chain: nat, cc1: nat, cc2: nat, layers: nat) {
    /** cc2 <= cc1 <= chain: bi-twin chains use no more layers than the others. */
    predicate Valid() {
      cc2 <= cc1 <= chain
    }

    /** Ruled out by a layer in [from, to). */
    ghost predicate RuledIn(from: nat, to: nat, i: nat, kind: Kind) {
      exists k :: from <= k < to && w.Ruled(i, k, kind)
    }

    /** The three conditions a bitmap at offset off collects from the first cnt layers. */
    ghost predicate First1(off: nat, cnt: nat, i: nat) {
      RuledIn(off, Min(cnt, off + chain), i, First)
    }

    ghost predicate Second1(off: nat, cnt: nat, i: nat) {
      RuledIn(off, Min(cnt, off + chain), i, Second)
    }

    ghost predicate Twin(off: nat, cnt: nat, i: nat) {
      RuledIn(off, Min(cnt, off + cc1), i, First) || RuledIn(off, Min(cnt, off + cc2), i, Second)
    }

    lemma RuledInStep(from: nat, to: nat, i: nat, kind: Kind)
      ensures RuledIn(from, to + 1, i, kind) <==> RuledIn(from, to, i, kind) || (from <= to && w.Ruled(i, to, kind))
    {
    }
  }

  // ---- or-ing words into a bitmap ----

  /** dst with words [lo, hi) of src or-ed in at base. */
  function OrInto(dst: seq<SieveWord>, src: seq<SieveWord>, base: nat, lo: nat, hi: nat): (r: seq<SieveWord>)
    requires lo <= hi <= |src| && base + hi <= |dst|
    ensures |r| == |dst|
  {
    seq(|dst|, j requires 0 <= j < |dst| => if base + lo <= j < base + hi then Or(dst[j], src[j - base]) else dst[j])
  }

  lemma OrIntoStep(dst: seq<SieveWord>, src: seq<SieveWord>, base: nat, lo: nat, w: nat)
    requires lo <= w < |src| && base + w < |dst|
    ensures OrInto(dst, src, base, lo, w)[base + w := Or(OrInto(dst, src, base, lo, w)[base + w], src[w])]
         == OrInto(dst, src, base, lo, w + 1)
  {
  }

  lemma OrIntoNone(dst: seq<SieveWord>, src: seq<SieveWord>, base: nat, lo: nat)
    requires lo <= |src| && base + lo <= |dst|
    ensures OrInto(dst, src, base, lo, lo) == dst
  {
  }

  lemma OrAssociates(a: SieveWord, x: SieveWord, y: SieveWord)
    ensures Or(a, Or(x, y)) == Or(Or(a, x), y)
  {
  }

  /** The combining loop for layers both kinds of bi-twin members use. */
  method OrBoth(d1: array<SieveWord>, d2: array<SieveWord>, dt: array<SieveWord>, l1: array<SieveWord>, l2: array<SieveWord>,
                base: nat, lo: nat, hi: nat)
    requires d1 != d2 && d1 != dt && d2 != dt && {d1, d2, dt} !! {l1, l2}
    requires lo <= hi <= l1.Length == l2.Length && base + hi <= d1.Length == d2.Length == dt.Length
    modifies d1, d2, dt
    ensures d1[..] == OrInto(old(d1[..]), l1[..], base, lo, hi)
    ensures d2[..] == OrInto(old(d2[..]), l2[..], base, lo, hi)
    ensures dt[..] == OrInto(OrInto(old(dt[..]), l1[..], base, lo, hi), l2[..], base, lo, hi)
  {
    hide Or, OrInto;
    ghost var D1, D2, DT, L1, L2 := d1[..], d2[..], dt[..], l1[..], l2[..];
    OrIntoNone(D1, L1, base, lo);
    OrIntoNone(D2, L2, base, lo);
    OrIntoNone(DT, L1, base, lo);
    OrIntoNone(DT, L2, base, lo);
    var w := lo;
    while w < hi
      invariant lo <= w <= hi
      invariant d1[..] == OrInto(D1, L1, base, lo, w)
      invariant d2[..] == OrInto(D2, L2, base, lo, w)
      invariant dt[..] == OrInto(OrInto(DT, L1, base, lo, w), L2, base, lo, w)
    {
      OrIntoStep(D1, L1, base, lo, w);
      OrIntoStep(D2, L2, base, lo, w);
      OrIntoTwice(DT, L1, L2, base, lo, w);
      OrAssociates(dt[base + w], l1[w], l2[w]);
      d1[base + w] := Or(d1[base + w], l1[w]);
      d2[base + w] := Or(d2[base + w], l2[w]);
      dt[base + w] := Or(dt[base + w], Or(l1[w], l2[w]));
      w := w + 1;
    }
  }

  lemma OrIntoTwice(dst: seq<SieveWord>, s1: seq<SieveWord>, s2: seq<SieveWord>, base: nat, lo: nat, w: nat)
    requires lo <= w < |s1| == |s2| && base + w < |dst|
    ensures (var was := OrInto(OrInto(dst, s1, base, lo, w), s2, base, lo, w);
             was[base + w := Or(Or(was[base + w], s1[w]), s2[w])])
         == OrInto(OrInto(dst, s1, base, lo, w + 1), s2, base, lo, w + 1)
  {
    hide Or;
  }

  /** The combining loop for layers only the first kind of bi-twin members uses. */
  method OrFirst(d1: array<SieveWord>, d2: array<SieveWord>, dt: array<SieveWord>, l1: array<SieveWord>, l2: array<SieveWord>,
                 base: nat, lo: nat, hi: nat)
    requires d1 != d2 && d1 != dt && d2 != dt && {d1, d2, dt} !! {l1, l2}
    requires lo <= hi <= l1.Length == l2.Length && base + hi <= d1.Length == d2.Length == dt.Length
    modifies d1, d2, dt
    ensures d1[..] == OrInto(old(d1[..]), l1[..], base, lo, hi)
    ensures d2[..] == OrInto(old(d2[..]), l2[..], base, lo, hi)
    ensures dt[..] == OrInto(old(dt[..]), l1[..], base, lo, hi)
  {
    hide Or, OrInto;
    ghost var D1, D2, DT, L1, L2 := d1[..], d2[..], dt[..], l1[..], l2[..];
    OrIntoNone(D1, L1, base, lo);
    OrIntoNone(D2, L2, base, lo);
    OrIntoNone(DT, L1, base, lo);
    var w := lo;
    while w < hi
      invariant lo <= w <= hi
      invariant d1[..] == OrInto(D1, L1, base, lo, w)
      invariant d2[..] == OrInto(D2, L2, base, lo, w)
      invariant dt[..] == OrInto(DT, L1, base, lo, w)
    {
      OrIntoStep(D1, L1, base, lo, w);
      OrIntoStep(D2, L2, base, lo, w);
      OrIntoStep(DT, L1, base, lo, w);
      d1[base + w] := Or(d1[base + w], l1[w]);
      d2[base + w] := Or(d2[base + w], l2[w]);
      dt[base + w] := Or(dt[base + w], l1[w]);
      w := w + 1;
    }
  }

  /** The combining loop for layers no bi-twin member uses. */
  method OrSingles(d1: array<SieveWord>, d2: array<SieveWord>, l1: array<SieveWord>, l2: array<SieveWord>,
                   base: nat, lo: nat, hi: nat)
    requires d1 != d2 && {d1, d2} !! {l1, l2}
    requires lo <= hi <= l1.Length == l2.Length && base + hi <= d1.Length == d2.Length
    modifies d1, d2
    ensures d1[..] == OrInto(old(d1[..]), l1[..], base, lo, hi)
    ensures d2[..] == OrInto(old(d2[..]), l2[..], base, lo, hi)
  {
    hide Or, OrInto;
    ghost var D1, D2, L1, L2 := d1[..], d2[..], l1[..], l2[..];
    OrIntoNone(D1, L1, base, lo);
    OrIntoNone(D2, L2, base, lo);
    var w := lo;
    while w < hi
      invariant lo <= w <= hi
      invariant d1[..] == OrInto(D1, L1, base, lo, w)
      invariant d2[..] == OrInto(D2, L2, base, lo, w)
    {
      OrIntoStep(D1, L1, base, lo, w);
      OrIntoStep(D2, L2, base, lo, w);
      d1[base + w] := Or(d1[base + w], l1[w]);
      d2[base + w] := Or(d2[base + w], l2[w]);
      w := w + 1;
    }
  }

  // ---- rows of a table of bitmaps ----

  /** Bitmap e of a table of bitmaps with words words each. */
  function Row(X: seq<SieveWord>, e: nat, words: nat): (r: seq<SieveWord>)
    requires e * words + words <= |X|
    ensures |r| == words
  {
    X[e * words..e * words + words]
  }

  lemma RowRange(e: nat, rows: nat, words: nat)
    requires e < rows
    ensures e * words + words <= rows * words
  {
    assert rows * words == (e * words + words) + (rows - e - 1) * words;
  }

  lemma RowsApart(e: nat, f: nat, words: nat)
    ensures f < e ==> f * words + words <= e * words
  {
    if f < e {
      RowRange(f, e, words);
    }
  }

  lemma OrIntoOwn(X: seq<SieveWord>, src: seq<SieveWord>, base: nat, lo: nat, hi: nat)
    requires base + |src| <= |X| && lo <= hi <= |src|
    ensures OrInto(X, src, base, lo, hi)[base..base + |src|] == OrInto(X[base..base + |src|], src, 0, lo, hi)
  {
    hide Or;
  }

  lemma OrIntoApart(X: seq<SieveWord>, src: seq<SieveWord>, base: nat, other: nat, lo: nat, hi: nat)
    requires base + |src| <= |X| && other + |src| <= |X| && lo <= hi <= |src|
    requires other + |src| <= base || base + |src| <= other
    ensures OrInto(X, src, base, lo, hi)[other..other + |src|] == X[other..other + |src|]
  {
    hide Or;
  }

  /** Or-ing into one row is or-ing into that bitmap... */
  lemma OrIntoRow(X: seq<SieveWord>, src: seq<SieveWord>, e: nat, words: nat, lo: nat, hi: nat)
    requires e * words + words <= |X| && lo <= hi <= |src| == words
    ensures Row(OrInto(X, src, e * words, lo, hi), e, words) == OrInto(Row(X, e, words), src, 0, lo, hi)
  {
    hide OrInto;
    OrIntoOwn(X, src, e * words, lo, hi);
  }

  /** ...and leaves the other rows alone. */
  lemma OrIntoOtherRow(X: seq<SieveWord>, src: seq<SieveWord>, e: nat, f: nat, words: nat, lo: nat, hi: nat)
    requires e * words + words <= |X| && f * words + words <= |X| && lo <= hi <= |src| == words && f != e
    ensures Row(OrInto(X, src, e * words, lo, hi), f, words) == Row(X, f, words)
  {
    hide OrInto;
    RowsApart(e, f, words);
    RowsApart(f, e, words);
    OrIntoApart(X, src, e * words, f * words, lo, hi);
  }

  /** Bits after or-ing whole words in. */
  lemma OrIntoBit(dst: seq<SieveWord>, src: seq<SieveWord>, lo: nat, hi: nat, i: nat)
    requires lo <= hi <= |src| && hi <= |dst| && GetWordNum(i) < |dst| && GetWordNum(i) < |src|
    ensures Bit(OrInto(dst, src, 0, lo, hi), i) ==
            (Bit(dst, i) || (lo <= GetWordNum(i) < hi && Bit(src, i)))
  {
  }

  // ---- the state of three bitmaps ----

  /** The number of layers bit i has collected when [lo, hi) is being woven with k layers done. */
  function Collected(p: Plan, lo: nat, hi: nat, k: nat, i: nat): nat {
    if i < lo then p.layers else if i < hi then k else 0
  }

  ghost predicate BitsAt(d1: seq<SieveWord>, d2: seq<SieveWord>, dt: seq<SieveWord>, p: Plan, off: nat, cnt: nat, i: nat)
    requires GetWordNum(i) < |d1| == |d2| == |dt|
  {
    && Bit(d1, i) == p.First1(off, cnt, i)
    && Bit(d2, i) == p.Second1(off, cnt, i)
    && Bit(dt, i) == p.Twin(off, cnt, i)
  }

  /** Bits from start on have collected the layers their place in the segmentation says. */
  ghost predicate State(d1: seq<SieveWord>, d2: seq<SieveWord>, dt: seq<SieveWord>, p: Plan, off: nat, start: nat,
                        lo: nat, hi: nat, k: nat)
  {
    |d1| == |d2| == |dt|
    && forall i :: start <= i < |d1| * WORD_BITS ==> BitsAt(d1, d2, dt, p, off, Collected(p, lo, hi, k, i), i)
  }

  /** What one layer adds to the three conditions of a bit. */
  lemma LayerAdds(p: Plan, off: nat, k: nat, i: nat)
    requires p.Valid()
    ensures p.First1(off, k + 1, i) <==> p.First1(off, k, i) || (off <= k < off + p.chain && p.w.Ruled(i, k, First))
    ensures p.Second1(off, k + 1, i) <==> p.Second1(off, k, i) || (off <= k < off + p.chain && p.w.Ruled(i, k, Second))
    ensures p.Twin(off, k + 1, i) <==> p.Twin(off, k, i) || (off <= k < off + p.cc1 && p.w.Ruled(i, k, First))
                                       || (off <= k < off + p.cc2 && p.w.Ruled(i, k, Second))
  {
    p.RuledInStep(off, k, i, First);
    p.RuledInStep(off, k, i, Second);
  }

  /** Whether a bit lies in the words [max(start, lo), hi) being combined. */
  ghost predicate InRun(i: nat, start: nat, lo: nat, hi: nat) {
    start <= i && lo <= i < hi
  }

  /** Three bitmaps with the marked layer k combined in as the source's three cases do. */
  lemma ApplyKeepsState(d1: seq<SieveWord>, d2: seq<SieveWord>, dt: seq<SieveWord>,
                        d1': seq<SieveWord>, d2': seq<SieveWord>, dt': seq<SieveWord>,
                        l1: seq<SieveWord>, l2: seq<SieveWord>, p: Plan, off: nat, start: nat, lo: nat, hi: nat, k: nat,
                        a: nat, b: nat)
    requires p.Valid() && State(d1, d2, dt, p, off, start, lo, hi, k)
    requires |l1| == |l2| == |d1| == |d1'| == |d2'| == |dt'| && a <= b <= |d1| && hi <= |d1| * WORD_BITS
    requires off <= k < off + p.chain
    requires forall i :: start <= i < |d1| * WORD_BITS ==> (a <= GetWordNum(i) < b <==> InRun(i, start, lo, hi))
    requires forall i :: InRun(i, start, lo, hi) ==> Bit(l1, i) == p.w.Ruled(i, k, First)
    requires forall i :: InRun(i, start, lo, hi) ==> Bit(l2, i) == p.w.Ruled(i, k, Second)
    requires d1' == OrInto(d1, l1, 0, a, b) && d2' == OrInto(d2, l2, 0, a, b)
    requires dt' == if k - off < p.cc2 then OrInto(OrInto(dt, l1, 0, a, b), l2, 0, a, b)
                    else if k - off < p.cc1 then OrInto(dt, l1, 0, a, b) else dt
    ensures State(d1', d2', dt', p, off, start, lo, hi, k + 1)
  {
    hide OrInto, Bit, Or, Plan.First1, Plan.Second1, Plan.Twin;
    var k' := k + 1;
    forall i | start <= i < |d1'| * WORD_BITS
      ensures BitsAt(d1', d2', dt', p, off, Collected(p, lo, hi, k', i), i)
    {
      assert BitsAt(d1, d2, dt, p, off, Collected(p, lo, hi, k, i), i);
      OrIntoBit(d1, l1, a, b, i);
      OrIntoBit(d2, l2, a, b, i);
      OrIntoBit(dt, l1, a, b, i);
      OrIntoBit(OrInto(dt, l1, 0, a, b), l2, a, b, i);
      LayerAdds(p, off, k, i);
    }
  }

  /** A layer outside the range of the bitmaps changes nothing. */
  lemma SkipKeepsState(d1: seq<SieveWord>, d2: seq<SieveWord>, dt: seq<SieveWord>, p: Plan, off: nat, start: nat,
                       lo: nat, hi: nat, k: nat)
    requires p.Valid() && State(d1, d2, dt, p, off, start, lo, hi, k) && !(off <= k < off + p.chain)
    ensures State(d1, d2, dt, p, off, start, lo, hi, k + 1)
  {
    hide Bit, Plan.First1, Plan.Second1, Plan.Twin;
    var k' := k + 1;
    forall i | start <= i < |d1| * WORD_BITS
      ensures BitsAt(d1, d2, dt, p, off, Collected(p, lo, hi, k', i), i)
    {
      assert BitsAt(d1, d2, dt, p, off, Collected(p, lo, hi, k, i), i);
      LayerAdds(p, off, k, i);
    }
  }

  /** With every layer done, the segment joins the finished part. */
  lemma SegmentDone(d1: seq<SieveWord>, d2: seq<SieveWord>, dt: seq<SieveWord>, p: Plan, off: nat, start: nat,
                    lo: nat, hi: nat, hi': nat)
    requires State(d1, d2, dt, p, off, start, lo, hi, p.layers) && lo <= hi <= hi'
    ensures State(d1, d2, dt, p, off, start, hi, hi', 0)
  {
    hide Bit, Plan.First1, Plan.Second1, Plan.Twin;
    forall i | start <= i < |d1| * WORD_BITS
      ensures BitsAt(d1, d2, dt, p, off, Collected(p, hi, hi', 0, i), i)
    {
      assert BitsAt(d1, d2, dt, p, off, Collected(p, lo, hi, p.layers, i), i);
    }
  }

  /** Cleared bitmaps have collected nothing. */
  lemma ClearedState(d: seq<SieveWord>, p: Plan, off: nat, start: nat, hi: nat)
    requires forall j :: 0 <= j < |d| ==> d[j] == ZeroWord()
    ensures State(d, d, d, p, off, start, 0, hi, 0)
  {
    forall i | start <= i < |d| * WORD_BITS
      ensures BitsAt(d, d, d, p, off, Collected(p, 0, hi, 0, i), i)
    {
    }
  }

  // ---- one layer into row e of three tables ----

  /** The rows of three tables, as bitmaps. */
  ghost predicate RowState(D1: seq<SieveWord>, D2: seq<SieveWord>, DT: seq<SieveWord>, e: nat, words: nat,
                           p: Plan, off: nat, start: nat, lo: nat, hi: nat, k: nat)
  {
    && e * words + words <= |D1| == |D2| == |DT|
    && State(Row(D1, e, words), Row(D2, e, words), Row(DT, e, words), p, off, start, lo, hi, k)
  }

  /** X and X' differ at most in row e. */
  ghost predicate OtherRowsKept(X: seq<SieveWord>, X': seq<SieveWord>, e: nat, words: nat) {
    |X| == |X'| && forall f: nat :: f != e && f * words + words <= |X| ==> Row(X', f, words) == Row(X, f, words)
  }

  lemma OrIntoOtherRows(X: seq<SieveWord>, src: seq<SieveWord>, e: nat, words: nat, lo: nat, hi: nat)
    requires e * words + words <= |X| && lo <= hi <= |src| == words
    ensures OtherRowsKept(X, OrInto(X, src, e * words, lo, hi), e, words)
  {
    hide OrInto;
    forall f: nat | f != e && f * words + words <= |X|
      ensures Row(OrInto(X, src, e * words, lo, hi), f, words) == Row(X, f, words)
    {
      OrIntoOtherRow(X, src, e, f, words, lo, hi);
    }
  }

  lemma KeptTwice(X: seq<SieveWord>, Y: seq<SieveWord>, Z: seq<SieveWord>, e: nat, words: nat)
    requires OtherRowsKept(X, Y, e, words) && OtherRowsKept(Y, Z, e, words)
    ensures OtherRowsKept(X, Z, e, words)
  {
  }

  /** What ApplyLayer has to know of the layer bitmaps and the run of words. */
  ghost predicate LayerReady(L1: seq<SieveWord>, L2: seq<SieveWord>, words: nat, p: Plan, k: nat,
                             start: nat, lo: nat, hi: nat, a: nat, b: nat)
  {
    && |L1| == |L2| == words && a <= b <= words && hi <= words * WORD_BITS
    && (forall i :: start <= i < words * WORD_BITS ==> (a <= GetWordNum(i) < b <==> InRun(i, start, lo, hi)))
    && (forall i :: InRun(i, start, lo, hi) ==> Bit(L1, i) == p.w.Ruled(i, k, First))
    && (forall i :: InRun(i, start, lo, hi) ==> Bit(L2, i) == p.w.Ruled(i, k, Second))
  }

  /** Combines layer k into row e, by the case its distance from the bitmap's offset selects. */
  method ApplyLayer(d1: array<SieveWord>, d2: array<SieveWord>, dt: array<SieveWord>, l1: array<SieveWord>, l2: array<SieveWord>,
                    e: nat, words: nat, off: nat, k: nat, nChainLength: nat, nBiTwinCC1Layers: nat, nBiTwinCC2Layers: nat,
                    a: nat, b: nat, ghost p: Plan, ghost start: nat, ghost lo: nat, ghost hi: nat)
    requires d1 != d2 && d1 != dt && d2 != dt && {d1, d2, dt} !! {l1, l2}
    requires p.Valid() && p.chain == nChainLength && p.cc1 == nBiTwinCC1Layers && p.cc2 == nBiTwinCC2Layers
    requires RowState(d1[..], d2[..], dt[..], e, words, p, off, start, lo, hi, k)
    requires off <= k < off + nChainLength ==> LayerReady(l1[..], l2[..], words, p, k, start, lo, hi, a, b)
    modifies d1, d2, dt
    ensures RowState(d1[..], d2[..], dt[..], e, words, p, off, start, lo, hi, k + 1)
    ensures OtherRowsKept(old(d1[..]), d1[..], e, words)
    ensures OtherRowsKept(old(d2[..]), d2[..], e, words)
    ensures OtherRowsKept(old(dt[..]), dt[..], e, words)
  {
    hide OrInto, Row, State, Bit, OtherRowsKept;
    ghost var D1, D2, DT, L1, L2 := d1[..], d2[..], dt[..], l1[..], l2[..];
    ghost var r1, r2, rt := Row(D1, e, words), Row(D2, e, words), Row(DT, e, words);
    if off <= k < off + nChainLength {
      OrIntoRow(D1, L1, e, words, a, b);
      OrIntoRow(D2, L2, e, words, a, b);
      OrIntoRow(DT, L1, e, words, a, b);
      OrIntoRow(OrInto(DT, L1, e * words, a, b), L2, e, words, a, b);
      OrIntoOtherRows(D1, L1, e, words, a, b);
      OrIntoOtherRows(D2, L2, e, words, a, b);
      OrIntoOtherRows(DT, L1, e, words, a, b);
      OrIntoOtherRows(OrInto(DT, L1, e * words, a, b), L2, e, words, a, b);
      KeptTwice(DT, OrInto(DT, L1, e * words, a, b), OrInto(OrInto(DT, L1, e * words, a, b), L2, e * words, a, b), e, words);
      KeptItself(DT, e, words);
      if k - off < nBiTwinCC2Layers {
        OrBoth(d1, d2, dt, l1, l2, e * words, a, b);
      } else if k - off < nBiTwinCC1Layers {
        OrFirst(d1, d2, dt, l1, l2, e * words, a, b);
      } else {
        OrSingles(d1, d2, l1, l2, e * words, a, b);
      }
      ApplyKeepsState(r1, r2, rt, Row(d1[..], e, words), Row(d2[..], e, words), Row(dt[..], e, words),
                      L1, L2, p, off, start, lo, hi, k, a, b);
    } else {
      SkipKeepsState(r1, r2, rt, p, off, start, lo, hi, k);
      KeptItself(D1, e, words);
      KeptItself(D2, e, words);
      KeptItself(DT, e, words);
    }
  }

  lemma KeptItself(X: seq<SieveWord>, e: nat, words: nat)
    ensures OtherRowsKept(X, X, e, words)
  {
  }
}
