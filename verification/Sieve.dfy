/** The prime-chain sieve: weaving cache-sized segments layer by layer, and scanning the survivors. */
module Sieve {
  import Words
  import opened Bits
  import opened NumberTheory
  import opened SmallInverse
  import opened SieveBits
  import opened SieveSpec
  import opened SieveLayer
  import opened SieveSetup
  import opened SieveApply
  import opened SieveCandidates
  import opened SieveMeaning
  import opened SieveScanSpec
  import opened ChainTypes

  class CSieveOfEratosthenes {
    const nSieveSize: nat
    const nSieveExtensions: nat
    const nChainLength: nat
    const nBTChainLength: nat
    const nSieveLayers: nat
    const nPrimes: nat
    const nCandidatesWords: nat

    const vfCandidates: array<SieveWord>
    const vfCompositeBiTwin: array<SieveWord>
    const vfCompositeCunningham1: array<SieveWord>
    const vfCompositeCunningham2: array<SieveWord>
    const vfCompositeLayerCC1: array<SieveWord>
    const vfCompositeLayerCC2: array<SieveWord>
    const vfExtendedCandidates: array<SieveWord>
    const vfExtendedCompositeBiTwin: array<SieveWord>
    const vfExtendedCompositeCunningham1: array<SieveWord>
    const vfExtendedCompositeCunningham2: array<SieveWord>
    const vCunningham1Multipliers: array<nat>
    const vCunningham2Multipliers: array<nat>

    var mpzFixedFactor: nat  // hash of the block header times the fixed multiplier
    var nPrimeSeq: nat
    var nCandidateMultiplier: nat
    var nCandidateIndex: nat
    var fCandidateIsExtended: bool
    var nCandidateActiveExtension: nat

    function Bitmaps(): set<array<SieveWord>> {
      {vfCandidates, vfCompositeBiTwin, vfCompositeCunningham1, vfCompositeCunningham2, vfCompositeLayerCC1,
       vfCompositeLayerCC2, vfExtendedCandidates, vfExtendedCompositeBiTwin, vfExtendedCompositeCunningham1,
       vfExtendedCompositeCunningham2}
    }

    /** Storage of the right sizes, nothing shared, sizes in whole words. */
    predicate Shape() {
      && nSieveSize % (2 * WORD_BITS) == 0 && nSieveSize == nCandidatesWords * WORD_BITS
      && nSieveLayers == nChainLength + nSieveExtensions
      && vfCandidates.Length == vfCompositeBiTwin.Length == vfCompositeCunningham1.Length
      == vfCompositeCunningham2.Length == vfCompositeLayerCC1.Length == vfCompositeLayerCC2.Length == nCandidatesWords
      && vfExtendedCandidates.Length == vfExtendedCompositeBiTwin.Length == vfExtendedCompositeCunningham1.Length
      == vfExtendedCompositeCunningham2.Length == nSieveExtensions * nCandidatesWords
      && vCunningham1Multipliers.Length == vCunningham2Multipliers.Length == nPrimes * nSieveLayers
      && vCunningham1Multipliers != vCunningham2Multipliers
      && vfCandidates !in {vfCompositeBiTwin, vfCompositeCunningham1, vfCompositeCunningham2, vfCompositeLayerCC1,
                           vfCompositeLayerCC2, vfExtendedCandidates, vfExtendedCompositeBiTwin,
                           vfExtendedCompositeCunningham1, vfExtendedCompositeCunningham2}
      && vfCompositeBiTwin !in {vfCompositeCunningham1, vfCompositeCunningham2, vfCompositeLayerCC1,
                                vfCompositeLayerCC2, vfExtendedCandidates, vfExtendedCompositeBiTwin,
                                vfExtendedCompositeCunningham1, vfExtendedCompositeCunningham2}
      && vfCompositeCunningham1 !in {vfCompositeCunningham2, vfCompositeLayerCC1, vfCompositeLayerCC2,
                                     vfExtendedCandidates, vfExtendedCompositeBiTwin,
                                     vfExtendedCompositeCunningham1, vfExtendedCompositeCunningham2}
      && vfCompositeCunningham2 !in {vfCompositeLayerCC1, vfCompositeLayerCC2, vfExtendedCandidates,
                                     vfExtendedCompositeBiTwin, vfExtendedCompositeCunningham1,
                                     vfExtendedCompositeCunningham2}
      && vfCompositeLayerCC1 !in {vfCompositeLayerCC2, vfExtendedCandidates, vfExtendedCompositeBiTwin,
                                  vfExtendedCompositeCunningham1, vfExtendedCompositeCunningham2}
      && vfCompositeLayerCC2 !in {vfExtendedCandidates, vfExtendedCompositeBiTwin,
                                  vfExtendedCompositeCunningham1, vfExtendedCompositeCunningham2}
      && vfExtendedCandidates !in {vfExtendedCompositeBiTwin, vfExtendedCompositeCunningham1,
                                   vfExtendedCompositeCunningham2}
      && vfExtendedCompositeBiTwin !in {vfExtendedCompositeCunningham1, vfExtendedCompositeCunningham2}
      && vfExtendedCompositeCunningham1 != vfExtendedCompositeCunningham2
    }

    /** The constructor's storage: bitmaps cleared, every multiplier marked as absent. */
    constructor (nSieveSize: nat, nSievePercentage: nat, nSieveExtensions: nat, nTargetChainLength: nat,
                 nTargetBTLength: nat, mpzHash: nat, mpzFixedMultiplier: nat, nTotalPrimes: nat)
      requires nSieveSize % (2 * WORD_BITS) == 0
      ensures Shape() && Fresh() && fresh(Bitmaps()) && fresh({vCunningham1Multipliers, vCunningham2Multipliers})
      ensures this.nSieveSize == nSieveSize && this.nSieveExtensions == nSieveExtensions
      ensures this.nChainLength == nTargetChainLength && this.nBTChainLength == nTargetBTLength
      ensures this.nPrimes == nTotalPrimes * nSievePercentage / 100
      ensures this.mpzFixedFactor == mpzHash * mpzFixedMultiplier
      ensures nPrimeSeq == MIN_PRIME_SEQ && nCandidateIndex == 0 && !fCandidateIsExtended
      ensures nCandidateActiveExtension == 0 && nCandidateMultiplier == 0
    {
      hide AllZero, AllSkipped;
      this.nSieveSize := nSieveSize;
      this.nSieveExtensions := nSieveExtensions;
      this.nChainLength := nTargetChainLength;
      this.nBTChainLength := nTargetBTLength;
      this.nSieveLayers := nTargetChainLength + nSieveExtensions;
      var primes := nTotalPrimes * nSievePercentage / 100;
      this.nPrimes := primes;
      this.mpzFixedFactor := mpzHash * mpzFixedMultiplier;
      this.nPrimeSeq := MIN_PRIME_SEQ;
      this.nCandidateMultiplier := 0;
      this.nCandidateIndex := 0;
      this.fCandidateIsExtended := false;
      this.nCandidateActiveExtension := 0;
      var words := (nSieveSize + WORD_BITS - 1) / WORD_BITS;
      WholeWords(nSieveSize);
      this.nCandidatesWords := words;
      var b0, b1, b2, b3 := NewBitmaps(words);
      this.vfCandidates, this.vfCompositeBiTwin, this.vfCompositeCunningham1, this.vfCompositeCunningham2 := b0, b1, b2, b3;
      this.vfCompositeLayerCC1 := new SieveWord[words];
      this.vfCompositeLayerCC2 := new SieveWord[words];
      var e0, e1, e2, e3 := NewBitmaps(nSieveExtensions * words);
      this.vfExtendedCandidates, this.vfExtendedCompositeBiTwin := e0, e1;
      this.vfExtendedCompositeCunningham1, this.vfExtendedCompositeCunningham2 := e2, e3;
      var m0, m1 := NewMultipliers(primes * (nTargetChainLength + nSieveExtensions));
      this.vCunningham1Multipliers, this.vCunningham2Multipliers := m0, m1;
    }

    static lemma WholeWords(n: nat)
      requires n % (2 * WORD_BITS) == 0
      ensures n == (n + WORD_BITS - 1) / WORD_BITS * WORD_BITS
    {
    }

    /** Nothing woven yet. */
    ghost predicate Fresh()
      reads this, Bitmaps(), vCunningham1Multipliers, vCunningham2Multipliers
    {
      && nPrimeSeq == MIN_PRIME_SEQ
      && AllZero(vfCandidates[..]) && AllZero(vfCompositeBiTwin[..]) && AllZero(vfCompositeCunningham1[..])
      && AllZero(vfCompositeCunningham2[..]) && AllZero(vfExtendedCandidates[..]) && AllZero(vfExtendedCompositeBiTwin[..])
      && AllZero(vfExtendedCompositeCunningham1[..]) && AllZero(vfExtendedCompositeCunningham2[..])
      && AllSkipped(vCunningham1Multipliers[..]) && AllSkipped(vCunningham2Multipliers[..])
    }

    /**
     Init, reusing the storage for another block when no size changes: everything
     as the constructor leaves it.
     */
    method Init(mpzHash: nat, mpzFixedMultiplier: nat)
      requires Shape()
      modifies this, Bitmaps(), vCunningham1Multipliers, vCunningham2Multipliers
      ensures Fresh() && AtStart() && nCandidateMultiplier == 0 && !fCandidateIsExtended && nCandidateActiveExtension == 0
      ensures mpzFixedFactor == mpzHash * mpzFixedMultiplier
    {
      hide AllZero, AllSkipped;
      mpzFixedFactor := mpzHash * mpzFixedMultiplier;
      nPrimeSeq := MIN_PRIME_SEQ;
      nCandidateMultiplier := 0;
      nCandidateIndex := 0;
      fCandidateIsExtended := false;
      nCandidateActiveExtension := 0;
      ClearBitmaps(vfCandidates, vfCompositeBiTwin, vfCompositeCunningham1, vfCompositeCunningham2);
      ClearBitmaps(vfExtendedCandidates, vfExtendedCompositeBiTwin, vfExtendedCompositeCunningham1,
                   vfExtendedCompositeCunningham2);
      SkipAll(vCunningham1Multipliers);
      SkipAll(vCunningham2Multipliers);
    }

    ghost function ThePlan(vPrimes: seq<nat>): Plan
      reads this`mpzFixedFactor
    {
      Plan(Woven(mpzFixedFactor, vPrimes, nPrimes), nChainLength, (nBTChainLength + 1) / 2, nBTChainLength / 2, nSieveLayers)
    }

    // ---- one layer ----

    /** Where a layer resumes once everything below lo is woven: layers beyond the chain start at the upper half. */
    function Resume(k: nat, lo: nat): nat {
      if k < nChainLength then lo else Max(lo, nSieveSize / 2)
    }

    /** Layers before k have been processed up to hi, the others up to lo. */
    ghost predicate Tracks(M: seq<nat>, w: Woven, kind: Kind, k: nat, lo: nat, hi: nat) {
      forall l :: 0 <= l < nSieveLayers ==> TrackAt(M, w, kind, k, lo, hi, l)
    }

    ghost predicate TrackAt(M: seq<nat>, w: Woven, kind: Kind, k: nat, lo: nat, hi: nat, l: nat) {
      LayerOnTrack(M, w, nSieveLayers, l, kind, if l < k then Resume(l, hi) else Resume(l, lo))
    }

    lemma TracksStep(M: seq<nat>, M': seq<nat>, w: Woven, kind: Kind, k: nat, lo: nat, hi: nat)
      requires k < nSieveLayers && Tracks(M, w, kind, k, lo, hi)
      requires OtherLayersKept(M, M', w.n, nSieveLayers, k)
      requires LayerOnTrack(M', w, nSieveLayers, k, kind, Resume(k, hi))
      ensures Tracks(M', w, kind, k + 1, lo, hi)
    {
      hide LayerOnTrack, OtherLayersKept, Resume;
      var k' := k + 1;
      forall l | 0 <= l < nSieveLayers
        ensures TrackAt(M', w, kind, k', lo, hi, l)
      {
        assert TrackAt(M, w, kind, k, lo, hi, l);
        if l != k {
          OtherLayerOnTrack(M, M', w, nSieveLayers, k, l, kind, if l < k then Resume(l, hi) else Resume(l, lo));
        }
      }
    }

    lemma TracksTurn(M: seq<nat>, w: Woven, kind: Kind, lo: nat, hi: nat, hi': nat)
      requires Tracks(M, w, kind, nSieveLayers, lo, hi)
      ensures Tracks(M, w, kind, 0, hi, hi')
    {
      hide LayerOnTrack, Resume;
      forall l | 0 <= l < nSieveLayers
        ensures TrackAt(M, w, kind, 0, hi, hi', l)
      {
        assert TrackAt(M, w, kind, nSieveLayers, lo, hi, l);
      }
    }

    lemma TracksStart(M: seq<nat>, w: Woven, kind: Kind, hi: nat)
      requires forall l :: 0 <= l < nSieveLayers ==> LayerOnTrack(M, w, nSieveLayers, l, kind, 0)
      ensures Tracks(M, w, kind, 0, 0, hi)
    {
      hide LayerOnTrack;
      forall l | 0 <= l < nSieveLayers
        ensures TrackAt(M, w, kind, 0, 0, hi, l)
      {
        OnTrackLater(M, w, nSieveLayers, l, kind, 0, Resume(l, 0));
      }
    }

    /** A segment [lo, hi) of whole words within the sieve. */
    predicate Segment(lo: nat, hi: nat) {
      lo % WORD_BITS == 0 && hi % WORD_BITS == 0 && lo <= hi <= nSieveSize && nSieveSize <= SKIPPED
    }

    lemma ResumeSegment(k: nat, lo: nat, hi: nat)
      requires Shape() && Segment(lo, hi)
      ensures Resume(k, lo) % WORD_BITS == 0 && Resume(k, lo) <= SKIPPED
      ensures Resume(k, hi) == if Resume(k, lo) < hi then hi else Resume(k, lo)
      ensures k >= nChainLength ==> Resume(k, lo) == Max(lo, nSieveSize / 2)
      ensures k < nChainLength ==> Resume(k, lo) == lo
    {
      hide Shape;
      HalfAligned();
    }

    lemma HalfAligned()
      requires Shape()
      ensures nSieveSize % WORD_BITS == 0 && nSieveSize / 2 % WORD_BITS == 0
    {
      ModSpec(nSieveSize, 2 * WORD_BITS);
    }

    /** Both kinds of layer k over the segment. */
    method MarkLayer(vPrimes: seq<nat>, k: nat, lo: nat, hi: nat, ghost w: Woven)
      requires Shape() && Segment(lo, hi) && k < nSieveLayers
      requires w == Woven(mpzFixedFactor, vPrimes, nPrimes) && w.Valid() && w.Fits(nSieveSize)
      requires Tracks(vCunningham1Multipliers[..], w, First, k, lo, hi)
      requires Tracks(vCunningham2Multipliers[..], w, Second, k, lo, hi)
      modifies vfCompositeLayerCC1, vfCompositeLayerCC2, vCunningham1Multipliers, vCunningham2Multipliers
      ensures Tracks(vCunningham1Multipliers[..], w, First, k + 1, lo, hi)
      ensures Tracks(vCunningham2Multipliers[..], w, Second, k + 1, lo, hi)
      ensures LayerMarked(vfCompositeLayerCC1[..], w, nPrimes, Resume(k, lo), hi, k, First)
      ensures LayerMarked(vfCompositeLayerCC2[..], w, nPrimes, Resume(k, lo), hi, k, Second)
    {
      hide LayerOnTrack, OtherLayersKept, Resume, LayerMarked, Tracks;
      ResumeSegment(k, lo, hi);
      TrackOf(vCunningham1Multipliers[..], w, First, k, lo, hi);
      TrackOf(vCunningham2Multipliers[..], w, Second, k, lo, hi);
      ghost var M1, M2 := vCunningham1Multipliers[..], vCunningham2Multipliers[..];
      var from := if k < nChainLength then lo else Max(lo, nSieveSize / 2);
      w.FitsBelow(nSieveSize, from);
      w.FitsBelow(nSieveSize, hi);
      ProcessMultiplier(vfCompositeLayerCC1, from, hi, vPrimes, vCunningham1Multipliers, k, nPrimes, nSieveLayers, w, First);
      ProcessMultiplier(vfCompositeLayerCC2, from, hi, vPrimes, vCunningham2Multipliers, k, nPrimes, nSieveLayers, w, Second);
      TracksStep(M1, vCunningham1Multipliers[..], w, First, k, lo, hi);
      TracksStep(M2, vCunningham2Multipliers[..], w, Second, k, lo, hi);
    }

    lemma TrackOf(M: seq<nat>, w: Woven, kind: Kind, k: nat, lo: nat, hi: nat)
      requires Tracks(M, w, kind, k, lo, hi) && k < nSieveLayers
      ensures LayerOnTrack(M, w, nSieveLayers, k, kind, Resume(k, lo))
    {
      hide LayerOnTrack, Resume;
      assert TrackAt(M, w, kind, k, lo, hi, k);
    }

    // ---- one segment ----

    ghost predicate DefaultState(p: Plan, lo: nat, hi: nat, k: nat)
      reads vfCompositeCunningham1, vfCompositeCunningham2, vfCompositeBiTwin
    {
      RowState(vfCompositeCunningham1[..], vfCompositeCunningham2[..], vfCompositeBiTwin[..], 0, nCandidatesWords,
               p, 0, 0, lo, hi, k)
    }

    ghost predicate ExtRow(X1: seq<SieveWord>, X2: seq<SieveWord>, XT: seq<SieveWord>, e: nat, p: Plan, lo: nat, hi: nat, k: nat) {
      RowState(X1, X2, XT, e, nCandidatesWords, p, e + 1, nSieveSize / 2, lo, hi, k)
    }

    ghost predicate ExtRows(X1: seq<SieveWord>, X2: seq<SieveWord>, XT: seq<SieveWord>, from: nat, to: nat,
                            p: Plan, lo: nat, hi: nat, k: nat)
    {
      forall e :: from <= e < to ==> ExtRow(X1, X2, XT, e, p, lo, hi, k)
    }

    ghost predicate ExtStates(from: nat, to: nat, p: Plan, lo: nat, hi: nat, k: nat)
      reads vfExtendedCompositeCunningham1, vfExtendedCompositeCunningham2, vfExtendedCompositeBiTwin
    {
      ExtRows(vfExtendedCompositeCunningham1[..], vfExtendedCompositeCunningham2[..], vfExtendedCompositeBiTwin[..],
              from, to, p, lo, hi, k)
    }

    /** The marked layer serves the default bitmaps on the whole segment, extensions on its upper-half part. */
    lemma MarkedServes(p: Plan, k: nat, lo: nat, hi: nat, L1: seq<SieveWord>, L2: seq<SieveWord>)
      requires Shape() && Segment(lo, hi) && p.w.n == nPrimes && p.chain == nChainLength
      requires |L1| == |L2| == nCandidatesWords
      requires LayerMarked(L1, p.w, nPrimes, Resume(k, lo), hi, k, First)
      requires LayerMarked(L2, p.w, nPrimes, Resume(k, lo), hi, k, Second)
      ensures k < nChainLength ==>
                LayerReady(L1, L2, nCandidatesWords, p, k, 0, lo, hi, lo / WORD_BITS, hi / WORD_BITS)
      ensures LayerReady(L1, L2, nCandidatesWords, p, k, nSieveSize / 2, lo, hi,
                         Max(lo, nSieveSize / 2) / WORD_BITS, Max(Max(lo, nSieveSize / 2), hi) / WORD_BITS)
    {
      hide Bit, Woven.RuledBelow;
    }

    /** Other rows keep their state when only row e changed. */
    lemma RowKept(X1: seq<SieveWord>, X2: seq<SieveWord>, XT: seq<SieveWord>,
                  Y1: seq<SieveWord>, Y2: seq<SieveWord>, YT: seq<SieveWord>, e: nat, f: nat, words: nat,
                  p: Plan, off: nat, start: nat, lo: nat, hi: nat, k: nat)
      requires e != f && RowState(X1, X2, XT, f, words, p, off, start, lo, hi, k)
      requires OtherRowsKept(X1, Y1, e, words) && OtherRowsKept(X2, Y2, e, words) && OtherRowsKept(XT, YT, e, words)
      ensures RowState(Y1, Y2, YT, f, words, p, off, start, lo, hi, k)
    {
      hide State, Row;
    }

    /** Applies the marked layer to every extension. */
    method CombineExtensions(k: nat, lo: nat, hi: nat, ghost p: Plan)
      requires Shape() && Segment(lo, hi) && p.Valid() && p.chain == nChainLength
      requires p.cc1 == (nBTChainLength + 1) / 2 && p.cc2 == nBTChainLength / 2
      requires LayerReady(vfCompositeLayerCC1[..], vfCompositeLayerCC2[..], nCandidatesWords, p, k, nSieveSize / 2, lo, hi,
                          Max(lo, nSieveSize / 2) / WORD_BITS, Max(Max(lo, nSieveSize / 2), hi) / WORD_BITS)
      requires ExtStates(0, nSieveExtensions, p, lo, hi, k)
      modifies vfExtendedCompositeCunningham1, vfExtendedCompositeCunningham2, vfExtendedCompositeBiTwin
      ensures ExtStates(0, nSieveExtensions, p, lo, hi, k + 1)
    {
      hide RowState, LayerReady, OtherRowsKept, Max;
      var nExtMinWord := Max(lo, nSieveSize / 2) / WORD_BITS;
      // an empty run when the segment ends below the upper half
      var nMaxWord := Max(Max(lo, nSieveSize / 2), hi) / WORD_BITS;
      var nExtensionSeq := 0;
      while nExtensionSeq < nSieveExtensions
        invariant 0 <= nExtensionSeq <= nSieveExtensions
        invariant ExtStates(0, nExtensionSeq, p, lo, hi, k + 1)
        invariant ExtStates(nExtensionSeq, nSieveExtensions, p, lo, hi, k)
      {
        ghost var X1, X2, XT := vfExtendedCompositeCunningham1[..], vfExtendedCompositeCunningham2[..],
                                vfExtendedCompositeBiTwin[..];
        assert ExtRow(X1, X2, XT, nExtensionSeq, p, lo, hi, k);
        ApplyLayer(vfExtendedCompositeCunningham1, vfExtendedCompositeCunningham2, vfExtendedCompositeBiTwin,
                   vfCompositeLayerCC1, vfCompositeLayerCC2, nExtensionSeq, nCandidatesWords, nExtensionSeq + 1, k,
                   nChainLength, (nBTChainLength + 1) / 2, nBTChainLength / 2, nExtMinWord, nMaxWord,
                   p, nSieveSize / 2, lo, hi);
        KeepOtherStates(X1, X2, XT, vfExtendedCompositeCunningham1[..], vfExtendedCompositeCunningham2[..],
                        vfExtendedCompositeBiTwin[..], nExtensionSeq, p, lo, hi, k, k + 1);
        nExtensionSeq := nExtensionSeq + 1;
      }
    }

    /** After row e moved on from k to k', rows before it have k' layers still and rows after it k. */
    lemma KeepOtherStates(X1: seq<SieveWord>, X2: seq<SieveWord>, XT: seq<SieveWord>,
                          Y1: seq<SieveWord>, Y2: seq<SieveWord>, YT: seq<SieveWord>, e: nat,
                          p: Plan, lo: nat, hi: nat, k: nat, k': nat)
      requires e < nSieveExtensions
      requires ExtRows(X1, X2, XT, 0, e, p, lo, hi, k') && ExtRows(X1, X2, XT, e, nSieveExtensions, p, lo, hi, k)
      requires OtherRowsKept(X1, Y1, e, nCandidatesWords) && OtherRowsKept(X2, Y2, e, nCandidatesWords)
      requires OtherRowsKept(XT, YT, e, nCandidatesWords)
      requires ExtRow(Y1, Y2, YT, e, p, lo, hi, k')
      ensures ExtRows(Y1, Y2, YT, 0, e + 1, p, lo, hi, k') && ExtRows(Y1, Y2, YT, e + 1, nSieveExtensions, p, lo, hi, k)
    {
      hide RowState, OtherRowsKept;
      forall f | 0 <= f < e
        ensures ExtRow(Y1, Y2, YT, f, p, lo, hi, k')
      {
        assert ExtRow(X1, X2, XT, f, p, lo, hi, k');
        RowKept(X1, X2, XT, Y1, Y2, YT, e, f, nCandidatesWords, p, f + 1, nSieveSize / 2, lo, hi, k');
      }
      forall f | e < f < nSieveExtensions
        ensures ExtRow(Y1, Y2, YT, f, p, lo, hi, k)
      {
        assert ExtRow(X1, X2, XT, f, p, lo, hi, k);
        RowKept(X1, X2, XT, Y1, Y2, YT, e, f, nCandidatesWords, p, f + 1, nSieveSize / 2, lo, hi, k);
      }
    }

    /** The layers of one segment, marked and combined one after the other. */
    method WeaveLayers(vPrimes: seq<nat>, lo: nat, hi: nat, ghost p: Plan)
      requires Shape() && Segment(lo, hi) && p == ThePlan(vPrimes) && p.Valid() && p.w.Valid() && p.w.Fits(nSieveSize)
      requires Tracks(vCunningham1Multipliers[..], p.w, First, 0, lo, hi)
      requires Tracks(vCunningham2Multipliers[..], p.w, Second, 0, lo, hi)
      requires DefaultState(p, lo, hi, 0) && ExtStates(0, nSieveExtensions, p, lo, hi, 0)
      modifies vfCompositeLayerCC1, vfCompositeLayerCC2, vCunningham1Multipliers, vCunningham2Multipliers
      modifies vfCompositeCunningham1, vfCompositeCunningham2, vfCompositeBiTwin
      modifies vfExtendedCompositeCunningham1, vfExtendedCompositeCunningham2, vfExtendedCompositeBiTwin
      ensures Tracks(vCunningham1Multipliers[..], p.w, First, nSieveLayers, lo, hi)
      ensures Tracks(vCunningham2Multipliers[..], p.w, Second, nSieveLayers, lo, hi)
      ensures DefaultState(p, lo, hi, nSieveLayers) && ExtStates(0, nSieveExtensions, p, lo, hi, nSieveLayers)
    {
      hide Tracks, RowState, LayerReady, LayerMarked, OtherRowsKept, Woven.Valid;
      var nLayerSeq := 0;
      while nLayerSeq < nSieveLayers
        invariant 0 <= nLayerSeq <= nSieveLayers
        invariant Tracks(vCunningham1Multipliers[..], p.w, First, nLayerSeq, lo, hi)
        invariant Tracks(vCunningham2Multipliers[..], p.w, Second, nLayerSeq, lo, hi)
        invariant DefaultState(p, lo, hi, nLayerSeq)
        invariant ExtStates(0, nSieveExtensions, p, lo, hi, nLayerSeq)
      {
        MarkLayer(vPrimes, nLayerSeq, lo, hi, p.w);
        MarkedServes(p, nLayerSeq, lo, hi, vfCompositeLayerCC1[..], vfCompositeLayerCC2[..]);
        ApplyLayer(vfCompositeCunningham1, vfCompositeCunningham2, vfCompositeBiTwin,
                   vfCompositeLayerCC1, vfCompositeLayerCC2, 0, nCandidatesWords, 0, nLayerSeq,
                   nChainLength, (nBTChainLength + 1) / 2, nBTChainLength / 2, lo / WORD_BITS, hi / WORD_BITS,
                   p, 0, lo, hi);
        CombineExtensions(nLayerSeq, lo, hi, p);
        nLayerSeq := nLayerSeq + 1;
      }
    }

    // ---- candidates ----

    ghost predicate DefaultCandidates(p: Plan, lo: nat)
      reads vfCandidates
    {
      RowCandidates(vfCandidates[..], 0, nCandidatesWords, p, 0, 0, lo)
    }

    ghost predicate CandRow(X: seq<SieveWord>, e: nat, p: Plan, lo: nat) {
      RowCandidates(X, e, nCandidatesWords, p, e + 1, nSieveSize / 2, lo)
    }

    ghost predicate CandRows(X: seq<SieveWord>, from: nat, to: nat, p: Plan, lo: nat) {
      forall e :: from <= e < to ==> CandRow(X, e, p, lo)
    }

    lemma CandRowKept(X: seq<SieveWord>, Y: seq<SieveWord>, e: nat, f: nat, p: Plan, lo: nat)
      requires e != f && OtherRowsKept(X, Y, e, nCandidatesWords) && CandRow(X, f, p, lo)
      ensures CandRow(Y, f, p, lo)
    {
      hide CandidateState, Row;
    }

    lemma KeepOtherCandidates(X: seq<SieveWord>, Y: seq<SieveWord>, e: nat, p: Plan, lo: nat, hi: nat)
      requires e < nSieveExtensions && OtherRowsKept(X, Y, e, nCandidatesWords)
      requires CandRows(X, 0, e, p, hi) && CandRows(X, e, nSieveExtensions, p, lo) && CandRow(Y, e, p, hi)
      ensures CandRows(Y, 0, e + 1, p, hi) && CandRows(Y, e + 1, nSieveExtensions, p, lo)
    {
      hide RowCandidates, OtherRowsKept;
      forall f | 0 <= f < e
        ensures CandRow(Y, f, p, hi)
      {
        assert CandRow(X, f, p, hi);
        CandRowKept(X, Y, e, f, p, hi);
      }
      forall f | e < f < nSieveExtensions
        ensures CandRow(Y, f, p, lo)
      {
        assert CandRow(X, f, p, lo);
        CandRowKept(X, Y, e, f, p, lo);
      }
    }

    lemma RunOfWords(start: nat, lo: nat, hi: nat)
      requires Shape() && start % WORD_BITS == 0 && start <= nSieveSize && Segment(lo, hi)
      ensures Max(lo, start) / WORD_BITS <= Max(Max(lo, start), hi) / WORD_BITS <= nCandidatesWords
      ensures forall i :: 0 <= i < nCandidatesWords * WORD_BITS ==>
                            (Max(lo, start) / WORD_BITS <= GetWordNum(i) < Max(Max(lo, start), hi) / WORD_BITS
                             <==> InRun(i, start, lo, hi))
    {
      forall i | 0 <= i < nCandidatesWords * WORD_BITS
        ensures Max(lo, start) / WORD_BITS <= GetWordNum(i) < Max(Max(lo, start), hi) / WORD_BITS <==> InRun(i, start, lo, hi)
      {
        AlignedWord(i, Max(lo, start), Max(Max(lo, start), hi));
      }
    }

    /** The final bitmaps of one finished segment. */
    method CombineSegment(lo: nat, hi: nat, ghost p: Plan)
      requires Shape() && Segment(lo, hi) && p.layers == nSieveLayers
      requires DefaultState(p, lo, hi, nSieveLayers) && ExtStates(0, nSieveExtensions, p, lo, hi, nSieveLayers)
      requires DefaultCandidates(p, lo) && CandRows(vfExtendedCandidates[..], 0, nSieveExtensions, p, lo)
      modifies vfCandidates, vfExtendedCandidates
      ensures DefaultCandidates(p, hi) && CandRows(vfExtendedCandidates[..], 0, nSieveExtensions, p, hi)
    {
      CombineDefault(lo, hi, p);
      var nExtMinWord := Max(lo, nSieveSize / 2) / WORD_BITS;
      var nMaxWord := Max(Max(lo, nSieveSize / 2), hi) / WORD_BITS;
      var j := 0;
      while j < nSieveExtensions
        invariant 0 <= j <= nSieveExtensions
        invariant DefaultCandidates(p, hi)
        invariant CandRows(vfExtendedCandidates[..], 0, j, p, hi)
        invariant CandRows(vfExtendedCandidates[..], j, nSieveExtensions, p, lo)
      {
        hide RowState, RowCandidates, CandRow, Segment;
        CombineExtension(j, nExtMinWord, nMaxWord, lo, hi, p);
        j := j + 1;
      }
    }

    method CombineDefault(lo: nat, hi: nat, ghost p: Plan)
      requires Shape() && Segment(lo, hi) && p.layers == nSieveLayers
      requires DefaultState(p, lo, hi, nSieveLayers) && DefaultCandidates(p, lo)
      modifies vfCandidates
      ensures DefaultCandidates(p, hi)
    {
      hide RowState, RowCandidates, OtherRowsKept, InRun;
      RunOfWords(0, lo, hi);
      CombineRowMethod(vfCandidates, vfCompositeCunningham1, vfCompositeCunningham2, vfCompositeBiTwin,
                       0, nCandidatesWords, lo / WORD_BITS, hi / WORD_BITS, p, 0, 0, lo, hi);
    }

    method CombineExtension(j: nat, nExtMinWord: nat, nMaxWord: nat, lo: nat, hi: nat, ghost p: Plan)
      requires Shape() && Segment(lo, hi) && p.layers == nSieveLayers && j < nSieveExtensions
      requires nExtMinWord == Max(lo, nSieveSize / 2) / WORD_BITS
      requires nMaxWord == Max(Max(lo, nSieveSize / 2), hi) / WORD_BITS
      requires ExtStates(0, nSieveExtensions, p, lo, hi, nSieveLayers)
      requires CandRows(vfExtendedCandidates[..], 0, j, p, hi) && CandRows(vfExtendedCandidates[..], j, nSieveExtensions, p, lo)
      modifies vfExtendedCandidates
      ensures CandRows(vfExtendedCandidates[..], 0, j + 1, p, hi)
      ensures CandRows(vfExtendedCandidates[..], j + 1, nSieveExtensions, p, lo)
    {
      hide RowState, RowCandidates, OtherRowsKept, InRun;
      HalfAligned();
      RunOfWords(nSieveSize / 2, lo, hi);
      ghost var X := vfExtendedCandidates[..];
      assert ExtRow(vfExtendedCompositeCunningham1[..], vfExtendedCompositeCunningham2[..],
                    vfExtendedCompositeBiTwin[..], j, p, lo, hi, nSieveLayers);
      assert CandRow(X, j, p, lo);
      CombineRowMethod(vfExtendedCandidates, vfExtendedCompositeCunningham1, vfExtendedCompositeCunningham2,
                       vfExtendedCompositeBiTwin, j, nCandidatesWords, nExtMinWord, nMaxWord,
                       p, j + 1, nSieveSize / 2, lo, hi);
      KeepOtherCandidates(X, vfExtendedCandidates[..], j, p, lo, hi);
    }

    // ---- the whole weave ----

    /** The sieve is exact below lo: bitmaps say what the primes rule out, candidates what survives. */
    ghost predicate Exact(p: Plan, lo: nat)
      reads Bitmaps()
    {
      && DefaultState(p, lo, lo, 0) && ExtStates(0, nSieveExtensions, p, lo, lo, 0)
      && DefaultCandidates(p, lo) && CandRows(vfExtendedCandidates[..], 0, nSieveExtensions, p, lo)
    }

    lemma StatesTurn(p: Plan, lo: nat, hi: nat, hi': nat)
      requires p.layers == nSieveLayers && lo <= hi <= hi'
      requires DefaultState(p, lo, hi, nSieveLayers) && ExtStates(0, nSieveExtensions, p, lo, hi, nSieveLayers)
      ensures DefaultState(p, hi, hi', 0) && ExtStates(0, nSieveExtensions, p, hi, hi', 0)
    {
      hide State, Row;
      SegmentDone(Row(vfCompositeCunningham1[..], 0, nCandidatesWords), Row(vfCompositeCunningham2[..], 0, nCandidatesWords),
                  Row(vfCompositeBiTwin[..], 0, nCandidatesWords), p, 0, 0, lo, hi, hi');
      ghost var X1, X2, XT := vfExtendedCompositeCunningham1[..], vfExtendedCompositeCunningham2[..],
                              vfExtendedCompositeBiTwin[..];
      forall e | 0 <= e < nSieveExtensions
        ensures ExtRow(X1, X2, XT, e, p, hi, hi', 0)
      {
        assert ExtRow(X1, X2, XT, e, p, lo, hi, nSieveLayers);
        SegmentDone(Row(X1, e, nCandidatesWords), Row(X2, e, nCandidatesWords), Row(XT, e, nCandidatesWords),
                    p, e + 1, nSieveSize / 2, lo, hi, hi');
      }
    }

    lemma ZeroRow(X: seq<SieveWord>, e: nat)
      requires AllZero(X) && e < nSieveExtensions && |X| == nSieveExtensions * nCandidatesWords
      ensures e * nCandidatesWords + nCandidatesWords <= |X| && AllZero(Row(X, e, nCandidatesWords))
    {
      RowRange(e, nSieveExtensions, nCandidatesWords);
    }

    lemma ZeroSame(X: seq<SieveWord>, Y: seq<SieveWord>)
      requires AllZero(X) && AllZero(Y) && |X| == |Y|
      ensures X == Y
    {
    }

    lemma ZeroCandidates(C: seq<SieveWord>, p: Plan, off: nat, start: nat)
      requires AllZero(C)
      ensures CandidateState(C, p, off, start, 0)
    {
    }

    /** Before the first segment. */
    lemma StartStates(p: Plan, hi: nat)
      requires Shape() && Fresh()
      ensures DefaultState(p, 0, hi, 0) && ExtStates(0, nSieveExtensions, p, 0, hi, 0)
      ensures DefaultCandidates(p, 0) && CandRows(vfExtendedCandidates[..], 0, nSieveExtensions, p, 0)
    {
      hide State, CandidateState, AllZero;
      WholeRow(vfCandidates[..]);
      WholeRow(vfCompositeCunningham1[..]);
      ZeroSame(vfCompositeCunningham1[..], vfCompositeCunningham2[..]);
      ZeroSame(vfCompositeCunningham1[..], vfCompositeBiTwin[..]);
      ZeroState(vfCompositeCunningham1[..], p, 0, 0, hi);
      ZeroCandidates(vfCandidates[..], p, 0, 0);
      ghost var X := vfExtendedCompositeCunningham1[..];
      ZeroSame(X, vfExtendedCompositeCunningham2[..]);
      ZeroSame(X, vfExtendedCompositeBiTwin[..]);
      forall e | 0 <= e < nSieveExtensions
        ensures ExtRow(X, X, X, e, p, 0, hi, 0) && CandRow(vfExtendedCandidates[..], e, p, 0)
      {
        ZeroRow(X, e);
        ZeroState(Row(X, e, nCandidatesWords), p, e + 1, nSieveSize / 2, hi);
        ZeroRow(vfExtendedCandidates[..], e);
        ZeroCandidates(Row(vfExtendedCandidates[..], e, nCandidatesWords), p, e + 1, nSieveSize / 2);
      }
    }

    lemma WholeRow(X: seq<SieveWord>)
      requires |X| == nCandidatesWords
      ensures 0 * nCandidatesWords + nCandidatesWords <= |X| && Row(X, 0, nCandidatesWords) == X
    {
    }

    lemma ZeroState(d: seq<SieveWord>, p: Plan, off: nat, start: nat, hi: nat)
      requires AllZero(d)
      ensures State(d, d, d, p, off, start, 0, hi, 0)
    {
      ClearedState(d, p, off, start, hi);
    }

    /** What Weave needs: a sieve as built, an aligned segment size, a long enough prime table. */
    ghost predicate Weavable(vPrimes: seq<nat>, nL1CacheElements: nat)
      reads this, Bitmaps(), vCunningham1Multipliers, vCunningham2Multipliers
    {
      && Shape() && Fresh() && nSieveSize <= SKIPPED
      && nL1CacheElements > 0 && nL1CacheElements % WORD_BITS == 0 && nSieveSize + nL1CacheElements <= 0x1_0000_0000
      && ThePlan(vPrimes).Valid() && ThePlan(vPrimes).w.Valid() && ThePlan(vPrimes).w.Fits(nSieveSize)
      && MIN_PRIME_SEQ <= nPrimes && nPrimes + 9 <= |vPrimes|
    }

    /**
     Weave: whatever the segment size, afterwards every bitmap holds exactly
     what the woven primes rule out and the candidates are the survivors.
     */
    method Weave(vPrimes: seq<nat>, nL1CacheElements: nat) returns (r: bool)
      requires Weavable(vPrimes, nL1CacheElements)
      modifies Bitmaps(), vCunningham1Multipliers, vCunningham2Multipliers, this`nPrimeSeq
      ensures !r && nPrimeSeq == nPrimes - 1
      ensures Exact(ThePlan(vPrimes), nSieveSize)
      ensures |vPrimes| >= 4 && vPrimes[..4] == [2, 3, 5, 7] ==>
                nPrimes <= |vPrimes| && forall i: nat :: i < nSieveSize ==> BitsMean(vPrimes[..nPrimes], i)
    {
      hide RowState, RowCandidates, Tracks, LayerOnTrack, AllZero, Woven.Valid, Woven.Fits;
      ghost var p := ThePlan(vPrimes);
      StartStates(p, 0);
      var ok := SetUpResidues(vPrimes, nPrimeSeq, nPrimes, nSieveLayers, mpzFixedFactor,
                              vCunningham1Multipliers, vCunningham2Multipliers, p.w);
      if !ok {
        return false;
      }
      TracksStart(vCunningham1Multipliers[..], p.w, First, 0);
      TracksStart(vCunningham2Multipliers[..], p.w, Second, 0);
      var nArrayRounds := (nSieveSize + nL1CacheElements - 1) / nL1CacheElements;
      var j := 0;
      ghost var lo := 0;
      RoundStart(nL1CacheElements);
      while j < nArrayRounds
        invariant 0 <= j <= nArrayRounds && lo == Boundary(j, nL1CacheElements)
        invariant Tracks(vCunningham1Multipliers[..], p.w, First, 0, lo, lo)
        invariant Tracks(vCunningham2Multipliers[..], p.w, Second, 0, lo, lo)
        invariant DefaultState(p, lo, lo, 0) && ExtStates(0, nSieveExtensions, p, lo, lo, 0)
        invariant DefaultCandidates(p, lo) && CandRows(vfExtendedCandidates[..], 0, nSieveExtensions, p, lo)
      {
        var nMinMultiplier := nL1CacheElements * j;
        var nMaxMultiplier := Min(nL1CacheElements * (j + 1), nSieveSize);
        RoundSegment(j, nL1CacheElements);
        WeaveSegment(vPrimes, nMinMultiplier, nMaxMultiplier, p);
        lo := nMaxMultiplier;
        j := j + 1;
      }
      RoundEnd(nL1CacheElements);
      nPrimeSeq := nPrimes - 1;
      if vPrimes[..4] == [2, 3, 5, 7] {
        AllBitsMean(vPrimes);
      }
      return false;
    }

    /** One round of the segmentation. */
    method WeaveSegment(vPrimes: seq<nat>, lo: nat, hi: nat, ghost p: Plan)
      requires Shape() && Segment(lo, hi) && p == ThePlan(vPrimes) && p.Valid() && p.w.Valid() && p.w.Fits(nSieveSize)
      requires Tracks(vCunningham1Multipliers[..], p.w, First, 0, lo, lo)
      requires Tracks(vCunningham2Multipliers[..], p.w, Second, 0, lo, lo)
      requires DefaultState(p, lo, lo, 0) && ExtStates(0, nSieveExtensions, p, lo, lo, 0)
      requires DefaultCandidates(p, lo) && CandRows(vfExtendedCandidates[..], 0, nSieveExtensions, p, lo)
      modifies Bitmaps(), vCunningham1Multipliers, vCunningham2Multipliers
      ensures Tracks(vCunningham1Multipliers[..], p.w, First, 0, hi, hi)
      ensures Tracks(vCunningham2Multipliers[..], p.w, Second, 0, hi, hi)
      ensures DefaultState(p, hi, hi, 0) && ExtStates(0, nSieveExtensions, p, hi, hi, 0)
      ensures DefaultCandidates(p, hi) && CandRows(vfExtendedCandidates[..], 0, nSieveExtensions, p, hi)
    {
      hide RowCandidates, Woven.Valid, State, TrackAt;
      TracksWiden(vCunningham1Multipliers[..], p.w, First, lo, hi);
      TracksWiden(vCunningham2Multipliers[..], p.w, Second, lo, hi);
      StatesWiden(p, lo, hi);
      WeaveLayers(vPrimes, lo, hi, p);
      CombineSegment(lo, hi, p);
      StatesTurn(p, lo, hi, hi);
      TracksTurn(vCunningham1Multipliers[..], p.w, First, lo, hi, hi);
      TracksTurn(vCunningham2Multipliers[..], p.w, Second, lo, hi, hi);
    }

    lemma TracksWiden(M: seq<nat>, w: Woven, kind: Kind, lo: nat, hi: nat)
      requires Tracks(M, w, kind, 0, lo, lo)
      ensures Tracks(M, w, kind, 0, lo, hi)
    {
      hide LayerOnTrack, Resume;
      forall l | 0 <= l < nSieveLayers
        ensures TrackAt(M, w, kind, 0, lo, hi, l)
      {
        assert TrackAt(M, w, kind, 0, lo, lo, l);
      }
    }

    /** With no layer done, where the coming segment ends does not matter. */
    lemma StatesWiden(p: Plan, lo: nat, hi: nat)
      requires DefaultState(p, lo, lo, 0) && ExtStates(0, nSieveExtensions, p, lo, lo, 0)
      ensures DefaultState(p, lo, hi, 0) && ExtStates(0, nSieveExtensions, p, lo, hi, 0)
    {
      hide State, Row;
      StateWidens(Row(vfCompositeCunningham1[..], 0, nCandidatesWords), Row(vfCompositeCunningham2[..], 0, nCandidatesWords),
                  Row(vfCompositeBiTwin[..], 0, nCandidatesWords), p, 0, 0, lo, hi);
      ghost var X1, X2, XT := vfExtendedCompositeCunningham1[..], vfExtendedCompositeCunningham2[..],
                              vfExtendedCompositeBiTwin[..];
      forall e | 0 <= e < nSieveExtensions
        ensures ExtRow(X1, X2, XT, e, p, lo, hi, 0)
      {
        assert ExtRow(X1, X2, XT, e, p, lo, lo, 0);
        StateWidens(Row(X1, e, nCandidatesWords), Row(X2, e, nCandidatesWords), Row(XT, e, nCandidatesWords),
                    p, e + 1, nSieveSize / 2, lo, hi);
      }
    }

    lemma StateWidens(d1: seq<SieveWord>, d2: seq<SieveWord>, dt: seq<SieveWord>, p: Plan, off: nat, start: nat, lo: nat, hi: nat)
      requires State(d1, d2, dt, p, off, start, lo, lo, 0)
      ensures State(d1, d2, dt, p, off, start, lo, hi, 0)
    {
      hide Bit, Plan.First1, Plan.Second1, Plan.Twin;
      forall i | start <= i < |d1| * WORD_BITS
        ensures BitsAt(d1, d2, dt, p, off, Collected(p, lo, hi, 0, i), i)
      {
        assert BitsAt(d1, d2, dt, p, off, Collected(p, lo, lo, 0, i), i);
      }
    }

    // ---- the rounds cover the sieve ----

    function Boundary(j: nat, nL1CacheElements: nat): nat {
      Min(nL1CacheElements * j, nSieveSize)
    }

    lemma RoundStart(c: nat)
      ensures Boundary(0, c) == 0
    {
      assert c * 0 == 0;
    }

    lemma RoundSegment(j: nat, c: nat)
      requires Shape() && nSieveSize <= SKIPPED && c > 0 && c % WORD_BITS == 0
      requires j < (nSieveSize + c - 1) / c
      ensures Boundary(j, c) == c * j && Boundary(j + 1, c) == Min(c * (j + 1), nSieveSize)
      ensures Segment(Boundary(j, c), Boundary(j + 1, c))
    {
      hide Shape;
      HalfAligned();
      ModSpec(nSieveSize + c - 1, c);
      Words.MulMonotone(c, j + 1, (nSieveSize + c - 1) / c);
      assert c * (j + 1) == c * j + c;
      MultipleOfWord(c, j);
      MultipleOfWord(c, j + 1);
    }

    lemma MultipleOfWord(c: nat, j: nat)
      requires c % WORD_BITS == 0
      ensures (c * j) % WORD_BITS == 0
    {
      var q := c / WORD_BITS;
      Words.MulAssoc(WORD_BITS, q, j);
      ModOf(c * j, WORD_BITS, q * j, 0);
    }

    lemma RoundEnd(c: nat)
      requires c > 0
      ensures Boundary((nSieveSize + c - 1) / c, c) == nSieveSize
    {
      ModSpec(nSieveSize + c - 1, c);
    }

    // ---- scanning the candidates ----

    ghost function TheView(): View
      reads vfCandidates, vfExtendedCandidates
    {
      View(vfCandidates[..], vfExtendedCandidates[..], nCandidatesWords, nSieveExtensions)
    }

    lemma ViewValid()
      requires Shape()
      ensures TheView().Valid() && TheView().Size() == nSieveSize
    {
    }

    /** The level the scan is in. */
    function CurrentLevel(): nat
      reads this
    {
      if fCandidateIsExtended then nCandidateActiveExtension + 1 else 0
    }

    /** A scan position, and multipliers that fit 32 bits. */
    ghost predicate Scannable()
      reads this
    {
      && Shape() && nSieveSize > 0 && nSieveSize * Pow2(nSieveExtensions) <= 0x1_0000_0000
      && nCandidateIndex < nSieveSize && CurrentLevel() <= nSieveExtensions
      && TheBegin(CurrentLevel()) <= nCandidateIndex
      && (!fCandidateIsExtended ==> nCandidateActiveExtension == 0)
    }

    function TheBegin(level: nat): nat {
      if level == 0 then 0 else nSieveSize / 2
    }

    /** What the scan still has to deliver. */
    ghost function Pending(): seq<Place>
      requires Scannable()
      reads this, vfCandidates, vfExtendedCandidates
    {
      ViewValid();
      TheView().Rest(CurrentLevel(), nCandidateIndex + 1)
    }

    /** The word of a level's candidate bitmap that holds index. */
    method ActiveWord(X: array<SieveWord>, Y: array<SieveWord>, level: nat, index: nat) returns (w: SieveWord)
      requires Shape() && X.Length == nCandidatesWords && Y.Length == nSieveExtensions * nCandidatesWords
      requires level <= nSieveExtensions && index < nSieveSize
      ensures View(X[..], Y[..], nCandidatesWords, nSieveExtensions).Valid()
      ensures w == View(X[..], Y[..], nCandidatesWords, nSieveExtensions).Level(level)[GetWordNum(index)]
    {
      if level == 0 {
        w := X[GetWordNum(index)];
      } else {
        RowRange(level - 1, nSieveExtensions, nCandidatesWords);
        w := Y[(level - 1) * nCandidatesWords + GetWordNum(index)];
      }
    }

    lemma MaskTests(w: SieveWord, index: nat)
      ensures And(w, GetBitMask(index)) != ZeroWord() <==> w[index % WORD_BITS]
    {
      var j := index % WORD_BITS;
      assert And(w, GetBitMask(index))[j] == w[j];
      if !w[j] {
        forall i | 0 <= i < 64
          ensures And(w, GetBitMask(index))[i] == ZeroWord()[i]
        {
        }
      }
    }

    /** The candidate's chain type, from the composite bits of its level. */
    method CandidateType(level: nat, index: nat) returns (t: nat)
      requires Shape() && level <= nSieveExtensions && index < nSieveSize
      ensures t == TypeAt(level, index)
    {
      hide Not, And, GetBitMask, View.Level;
      var twn := ActiveWord(vfCompositeBiTwin, vfExtendedCompositeBiTwin, level, index);
      var cc1 := ActiveWord(vfCompositeCunningham1, vfExtendedCompositeCunningham1, level, index);
      MaskTests(Not(twn), index);
      MaskTests(Not(cc1), index);
      NotBit(twn, index % WORD_BITS);
      NotBit(cc1, index % WORD_BITS);
      if And(Not(twn), GetBitMask(index)) != ZeroWord() {
        t := PRIME_CHAIN_BI_TWIN;
      } else if And(Not(cc1), GetBitMask(index)) != ZeroWord() {
        t := PRIME_CHAIN_CUNNINGHAM1;
      } else {
        t := PRIME_CHAIN_CUNNINGHAM2;
      }
    }

    lemma NotBit(w: SieveWord, j: nat)
      requires j < 64
      ensures Not(w)[j] == !w[j]
    {
    }

    /** A default bitmap and its extensions, level by level. */
    ghost function BitmapView(X: array<SieveWord>, Y: array<SieveWord>): (v: View)
      requires nSieveSize == nCandidatesWords * WORD_BITS && nCandidatesWords % 2 == 0
      requires X.Length == nCandidatesWords && Y.Length == nSieveExtensions * nCandidatesWords
      reads X, Y
      ensures v.Valid() && v.Size() == nSieveSize && v.ext == nSieveExtensions
    {
      View(X[..], Y[..], nCandidatesWords, nSieveExtensions)
    }

    /** Composite bits of a level: of the bi-twin bitmap and of the first kind's. */
    ghost predicate TwinBit(level: nat, index: nat)
      requires Shape() && level <= nSieveExtensions && index < nSieveSize
      reads vfCompositeBiTwin, vfExtendedCompositeBiTwin
    {
      BitmapView(vfCompositeBiTwin, vfExtendedCompositeBiTwin).SetAt(level, index)
    }

    ghost predicate FirstBit(level: nat, index: nat)
      requires Shape() && level <= nSieveExtensions && index < nSieveSize
      reads vfCompositeCunningham1, vfExtendedCompositeCunningham1
    {
      BitmapView(vfCompositeCunningham1, vfExtendedCompositeCunningham1).SetAt(level, index)
    }

    ghost function TypeAt(level: nat, index: nat): nat
      requires Shape() && level <= nSieveExtensions && index < nSieveSize
      reads vfCompositeBiTwin, vfExtendedCompositeBiTwin, vfCompositeCunningham1, vfExtendedCompositeCunningham1
    {
      if !TwinBit(level, index) then PRIME_CHAIN_BI_TWIN
      else if !FirstBit(level, index) then PRIME_CHAIN_CUNNINGHAM1
      else PRIME_CHAIN_CUNNINGHAM2
    }

    lemma MultiplierFits(level: nat, index: nat)
      requires index < nSieveSize && level <= nSieveExtensions && nSieveSize * Pow2(nSieveExtensions) <= 0x1_0000_0000
      ensures index * Pow2(level) < 0x1_0000_0000
    {
      hide Pow2;
      Pow2Monotone(level, nSieveExtensions);
      Words.MulMonotone(index, Pow2(level), Pow2(nSieveExtensions));
      SameLevel(index, nSieveSize, Pow2(nSieveExtensions));
    }

    lemma ShapeFacts()
      requires Shape()
      ensures nSieveSize % (2 * WORD_BITS) == 0 && TheView().Valid() && TheView().Size() == nSieveSize
      ensures forall level :: 0 <= level ==> TheView().Begin(level) == TheBegin(level)
    {
    }

    lemma WordsInSieve()
      requires Shape()
      ensures nCandidatesWords == nSieveSize / 64
    {
    }

    lemma ShapeSize()
      requires Shape()
      ensures vfCandidates.Length == nCandidatesWords && vfExtendedCandidates.Length == nSieveExtensions * nCandidatesWords
      ensures TheView().Valid() && TheView().Size() == nSieveSize && nSieveSize / 2 % WORD_BITS == 0
      ensures forall i: nat :: i < nSieveSize ==> GetWordNum(i) < nCandidatesWords
    {
      ViewValid();
      HalfAligned();
    }

    /** Moves on by one index, to the next extension at the end of a bitmap; done when there is none. */
    method Advance() returns (done: bool)
      requires Scannable()
      modifies this`nCandidateIndex, this`fCandidateIsExtended, this`nCandidateActiveExtension, this`nCandidateMultiplier
      ensures Scannable()
      ensures done ==> CurrentLevel() == 0 && nCandidateIndex == 0 && nCandidateMultiplier == 0 && |old(Pending())| == 0
      ensures !done ==> TheView().Valid() && nCandidateIndex < TheView().Size()
                        && old(Pending()) == TheView().Rest(CurrentLevel(), nCandidateIndex)
      ensures !done ==> (old(CurrentLevel()) < CurrentLevel() && nCandidateIndex % WORD_BITS == 0)
                        || (CurrentLevel() == old(CurrentLevel()) && nCandidateIndex == old(nCandidateIndex) + 1)
    {
      hide View.Rest, View.Valid, View.Size, Shape, Pow2;
      ShapeSize();
      ghost var v := TheView();
      done := false;
      nCandidateIndex := nCandidateIndex + 1;
      if nCandidateIndex >= nSieveSize {
        RestTurns(v, CurrentLevel());
        if !fCandidateIsExtended && nSieveExtensions > 0 {
          fCandidateIsExtended := true;
          nCandidateActiveExtension := 0;
          nCandidateIndex := nSieveSize / 2;
        } else if fCandidateIsExtended && nCandidateActiveExtension + 1 < nSieveExtensions {
          nCandidateActiveExtension := nCandidateActiveExtension + 1;
          nCandidateIndex := nSieveSize / 2;
        } else {
          fCandidateIsExtended := false;
          nCandidateActiveExtension := 0;
          nCandidateIndex := 0;
          nCandidateMultiplier := 0;
          done := true;
        }
      }
    }

    /** The multiplier and chain type of the place the scan stopped at. */
    method Deliver() returns (nVariableMultiplier: nat, nCandidateType: nat)
      requires Scannable()
      modifies this`nCandidateMultiplier
      ensures nVariableMultiplier == nCandidateMultiplier == Multiplier(Place(CurrentLevel(), nCandidateIndex))
      ensures Shape() && nCandidateType == TypeAt(CurrentLevel(), nCandidateIndex)
    {
      hide Shape, TypeAt, Pow2;
      MultiplierFits(CurrentLevel(), nCandidateIndex);
      PowZero();
      if fCandidateIsExtended {
        nCandidateMultiplier := (nCandidateIndex * Pow2(nCandidateActiveExtension + 1)) % 0x1_0000_0000;
      } else {
        nCandidateMultiplier := nCandidateIndex;
      }
      nVariableMultiplier := nCandidateMultiplier;
      nCandidateType := CandidateType(CurrentLevel(), nCandidateIndex);
    }

    lemma PowZero()
      ensures Pow2(0) == 1
    {
    }

    /** The active word at the current index, fetched anew at a word's start; a zero word is skipped up to its last bit. */
    method FetchWord(lBits: SieveWord) returns (word: SieveWord, skipped: bool)
      requires Scannable()
      requires TheView().Valid() && nCandidateIndex % WORD_BITS != 0 ==>
                 lBits == TheView().Level(CurrentLevel())[GetWordNum(nCandidateIndex)]
      modifies this`nCandidateIndex
      ensures Scannable() && CurrentLevel() == old(CurrentLevel()) && TheView().Valid()
      ensures word == TheView().Level(CurrentLevel())[GetWordNum(nCandidateIndex)]
      ensures !skipped ==> nCandidateIndex == old(nCandidateIndex)
      ensures skipped ==> nCandidateIndex > old(nCandidateIndex)
                          && Pending() == TheView().Rest(CurrentLevel(), old(nCandidateIndex))
    {
      hide View.Rest, View.Level, Pow2, Shape;
      ShapeFacts();
      word, skipped := lBits, false;
      if nCandidateIndex % WORD_BITS == 0 {
        word := ActiveWord(vfCandidates, vfExtendedCandidates, CurrentLevel(), nCandidateIndex);
        if word == ZeroWord() {
          TheView().ZeroWordSkips(CurrentLevel(), nCandidateIndex);
          LastOfWord(nCandidateIndex);
          nCandidateIndex := nCandidateIndex + (WORD_BITS - 1);
          skipped := true;
        }
      }
    }

    /** A candidate bit behind the scan's position: further on in this level, or in a later one. */
    ghost predicate IsPending(q: Place)
      reads this, vfCandidates, vfExtendedCandidates
    {
      && q.level <= nSieveExtensions && q.index < nSieveSize && CandidateBit(q.level, q.index)
      && (q.level > CurrentLevel() || (q.level == CurrentLevel() && q.index > nCandidateIndex))
    }

    lemma PendingMeans()
      requires Scannable()
      ensures forall q :: q in Pending() <==> IsPending(q)
    {
      hide View.Rest, Shape, Pow2, CandidateBit, Scannable;
      forall q: Place
        ensures q in Pending() <==> IsPending(q)
      {
        OnePendingMeans(q);
      }
    }

    lemma OnePendingMeans(q: Place)
      requires Scannable()
      ensures q in Pending() <==> IsPending(q)
    {
      hide View.Rest, View.SetAt, Shape, Pow2, BitAt;
      ShapeFacts();
      ghost var v := TheView();
      ghost var level, index := CurrentLevel(), nCandidateIndex + 1;
      if q in v.Rest(level, index) {
        var n :| 0 <= n < |v.Rest(level, index)| && v.Rest(level, index)[n] == q;
        v.RestSound(level, index, n);
        SetAtMeans(q.level, q.index);
      }
      if IsPending(q) {
        SetAtMeans(q.level, q.index);
        var n := v.RestComplete(level, index, q);
      }
    }

    /**
     GetNextCandidateMultiplier: delivers the first of the pending places, which
     are the candidate bits behind its position, or resets the scan and says there
     is none.
     */
    method GetNextCandidateMultiplier() returns (found: bool, nVariableMultiplier: nat, nCandidateType: nat)
      requires Scannable()
      modifies this`nCandidateIndex, this`fCandidateIsExtended, this`nCandidateActiveExtension, this`nCandidateMultiplier
      ensures Scannable()
      ensures forall q :: q in old(Pending()) <==> old(IsPending(q))
      ensures found == (|old(Pending())| > 0)
      ensures found ==>
                var q := old(Pending())[0];
                && CurrentLevel() == q.level && nCandidateIndex == q.index
                && nVariableMultiplier == nCandidateMultiplier == Multiplier(q)
                && q.level <= nSieveExtensions && q.index < nSieveSize && nCandidateType == TypeAt(q.level, q.index)
                && Pending() == old(Pending())[1..]
      ensures !found ==> CurrentLevel() == 0 && nCandidateIndex == 0 && nCandidateMultiplier == 0
    {
      hide View.Rest, View.SetAt, And, GetBitMask, View.Level, View.Valid, View.Size, View.Begin, Pow2, TypeAt, Shape, Multiplier, GetWordNum;
      ShapeSize();
      ghost var v := TheView();
      ghost var pending := Pending();
      PendingMeans();
      found, nVariableMultiplier, nCandidateType := false, 0, 0;
      PendingParts();
      var lBits := ActiveWord(vfCandidates, vfExtendedCandidates, CurrentLevel(), nCandidateIndex);
      while true
        invariant Scannable() && Pending() == pending
        invariant lBits == v.Level(CurrentLevel())[GetWordNum(nCandidateIndex)]
        decreases nSieveExtensions - CurrentLevel(), nSieveSize - nCandidateIndex
      {
        NextInWord(nCandidateIndex);
        var done := Advance();
        if done {
          return;
        }
        var skipped;
        lBits, skipped := FetchWord(lBits);
        if skipped {
          continue;
        }
        MaskedHead(v, CurrentLevel(), nCandidateIndex, lBits);
        if And(lBits, GetBitMask(nCandidateIndex)) != ZeroWord() {
          nVariableMultiplier, nCandidateType := Deliver();
          found := true;
          return;
        }
      }
    }

    /** The first pending place, and what is pending behind it. */
    lemma PendingParts()
      requires Scannable()
      ensures |Pending()| > 0 ==>
                var q := Pending()[0];
                q.level <= nSieveExtensions && q.index < nSieveSize && TheView().Valid()
                && q.index + 1 <= TheView().Size() && TheView().Rest(q.level, q.index + 1) == Pending()[1..]
    {
      hide View.Rest, Shape, Pow2;
      ShapeFacts();
      PendingTail(TheView(), CurrentLevel(), nCandidateIndex + 1);
    }

    lemma LastOfWord(index: nat)
      requires Shape() && index < nSieveSize && index % WORD_BITS == 0
      ensures index + (WORD_BITS - 1) < nSieveSize
      ensures GetWordNum(index + (WORD_BITS - 1)) == GetWordNum(index)
    {
    }

    lemma PendingTail(v: View, level: nat, index: nat)
      requires v.Valid() && level <= v.ext && v.Begin(level) <= index <= v.Size()
      ensures |v.Rest(level, index)| > 0 ==>
                var q := v.Rest(level, index)[0];
                q.level <= v.ext && q.index < v.Size() && v.Rest(q.level, q.index + 1) == v.Rest(level, index)[1..]
    {
      if |v.Rest(level, index)| > 0 {
        v.RestTail(level, index);
      }
    }

    lemma RestTurns(v: View, level: nat)
      requires v.Valid() && level <= v.ext
      ensures v.Rest(level, v.Size()) == if level < v.ext then v.Rest(level + 1, v.Begin(level + 1)) else []
    {
    }

    lemma RestHead(v: View, level: nat, index: nat)
      requires v.Valid() && level <= v.ext && index < v.Size()
      ensures v.Rest(level, index) ==
              (if v.Level(level)[GetWordNum(index)][index % WORD_BITS] then [Place(level, index)] else [])
              + v.Rest(level, index + 1)
    {
    }

    /** What the mask test of a word says about the places from there on. */
    lemma MaskedHead(v: View, level: nat, index: nat, w: SieveWord)
      requires v.Valid() && level <= v.ext && index < v.Size() && GetWordNum(index) < |v.Level(level)|
      requires w == v.Level(level)[GetWordNum(index)]
      ensures And(w, GetBitMask(index)) != ZeroWord() ==>
                |v.Rest(level, index)| > 0 && v.Rest(level, index)[0] == Place(level, index)
                && v.Rest(level, index)[1..] == v.Rest(level, index + 1)
      ensures And(w, GetBitMask(index)) == ZeroWord() ==> v.Rest(level, index) == v.Rest(level, index + 1)
    {
      hide View.Rest, View.Level, And, GetBitMask;
      MaskTests(w, index);
      RestHead(v, level, index);
    }

    static lemma NextInWord(index: nat)
      ensures (index + 1) % WORD_BITS != 0 ==> GetWordNum(index + 1) == GetWordNum(index)
    {
    }

    // ---- counting the candidates ----

    /** Adds up the bits of one word by shifting them out. */
    method CountWord(w: SieveWord, ghost v: View, ghost level: nat, ghost index: nat) returns (n: nat)
      requires v.Valid() && level <= v.ext && index % WORD_BITS == 0 && index < v.Size()
      requires w == v.Level(level)[GetWordNum(index)]
      ensures n + |v.Rest(level, index + WORD_BITS)| == |v.Rest(level, index)|
    {
      hide View.Rest, View.Level;
      n := 0;
      var lBits := w;
      var j := 0;
      while j < WORD_BITS
        invariant 0 <= j <= WORD_BITS
        invariant forall t :: 0 <= t && t + j < 64 ==> lBits[t] == w[t + j]
        invariant n + |v.Rest(level, index + j)| == |v.Rest(level, index)|
      {
        SameWord(index, j);
        RestHead(v, level, index + j);
        n := n + (if lBits[0] then 1 else 0);
        lBits := ShiftRight(lBits, 1);
        j := j + 1;
      }
    }

    static lemma SameWord(index: nat, j: nat)
      requires index % WORD_BITS == 0 && j < WORD_BITS
      ensures GetWordNum(index + j) == GetWordNum(index) && (index + j) % WORD_BITS == j
    {
    }

    /** The bits of the words [from, to) of one level. */
    method CountWords(X: array<SieveWord>, base: nat, from: nat, to: nat, ghost v: View, ghost level: nat) returns (n: nat)
      requires v.Valid() && level <= v.ext && from <= to <= v.words && base + v.words <= X.Length
      requires forall i :: 0 <= i < v.words ==> X[base + i] == v.Level(level)[i]
      ensures n + |v.Rest(level, to * WORD_BITS)| == |v.Rest(level, from * WORD_BITS)|
    {
      hide View.Rest, View.Level;
      n := 0;
      var i := from;
      while i < to
        invariant from <= i <= to
        invariant n + |v.Rest(level, i * WORD_BITS)| == |v.Rest(level, from * WORD_BITS)|
      {
        var c := CountWord(X[base + i], v, level, i * WORD_BITS);
        n := n + c;
        i := i + 1;
      }
    }

    /** GetCandidateCount: the number of candidate bits the scan has to visit, multiplier zero included. */
    method GetCandidateCount() returns (nCandidates: nat)
      requires Shape()
      ensures TheView().Valid() && nCandidates == |TheView().Rest(0, 0)| == |CandidateBits()|
    {
      hide View.Rest, View.Level, Shape;
      ShapeFacts();
      WordsFacts();
      ghost var v := TheView();
      DefaultWords(v);
      nCandidates := CountWords(vfCandidates, 0, 0, nCandidatesWords, v, 0);
      RestTurns(v, 0);
      var j := 0;
      while j < nSieveExtensions
        invariant 0 <= j <= nSieveExtensions
        invariant nCandidates + |v.Rest(j, nSieveSize)| == |v.Rest(0, 0)|
      {
        ExtensionWords(v, j, j + 1);
        var c := CountWords(vfExtendedCandidates, j * nCandidatesWords, nCandidatesWords / 2, nCandidatesWords, v, j + 1);
        RestTurns(v, j);
        nCandidates := nCandidates + c;
        j := j + 1;
      }
      RestTurns(v, nSieveExtensions);
      CountMeans();
    }

    /** The candidate bits of the default part, and of the upper halves of the extensions. */
    ghost function CandidateBits(): set<Place>
      reads vfCandidates, vfExtendedCandidates
    {
      set level: nat, i: nat | level <= nSieveExtensions && i < nSieveSize && CandidateBit(level, i) :: Place(level, i)
    }

    ghost predicate CandidateBit(level: nat, i: nat)
      reads vfCandidates, vfExtendedCandidates
    {
      if level == 0 then BitAt(vfCandidates[..], 0, nCandidatesWords, i)
      else nSieveSize / 2 <= i && BitAt(vfExtendedCandidates[..], level - 1, nCandidatesWords, i)
    }

    /** All set bits of all candidate bitmaps. */
    ghost function SetBits(): set<Place>
      reads vfCandidates, vfExtendedCandidates
    {
      set level: nat, i: nat | level <= nSieveExtensions && i < nSieveSize && SetBit(level, i) :: Place(level, i)
    }

    ghost predicate SetBit(level: nat, i: nat)
      reads vfCandidates, vfExtendedCandidates
    {
      if level == 0 then BitAt(vfCandidates[..], 0, nCandidatesWords, i)
      else BitAt(vfExtendedCandidates[..], level - 1, nCandidatesWords, i)
    }

    /** A woven sieve has no others: the lower halves of its extensions are clear. */
    lemma NoLowerBits(primes: seq<nat>)
      requires forall i: nat :: i < nSieveSize ==> BitsMean(primes, i)
      ensures forall e: nat, i: nat :: e < nSieveExtensions && i < nSieveSize / 2 ==>
                                         !BitAt(vfExtendedCandidates[..], e, nCandidatesWords, i)
      ensures SetBits() == CandidateBits()
    {
      hide BitAt, FirstHit, SecondHit, AllHit, Pow2;
      forall e: nat, i: nat | e < nSieveExtensions && i < nSieveSize / 2
        ensures !BitAt(vfExtendedCandidates[..], e, nCandidatesWords, i)
      {
        assert BitsMean(primes, i) && ExtensionBitsMean(primes, e, i);
      }
      forall level: nat, i: nat | level <= nSieveExtensions && i < nSieveSize
        ensures SetBit(level, i) == CandidateBit(level, i)
      {
      }
    }

    /** The scan's list has every such bit once. */
    lemma CountMeans()
      requires Shape()
      ensures TheView().Valid() && |TheView().Rest(0, 0)| == |CandidateBits()|
    {
      hide View.Rest, View.SetAt, Shape, BitAt, Multiplier;
      ShapeFacts();
      ghost var v := TheView();
      ghost var places := v.Rest(0, 0);
      forall q: Place
        ensures q in places <==> q in CandidateBits()
      {
        ListedIsCandidate(q);
      }
      forall m, n | 0 <= m < n < |places|
        ensures places[m] != places[n]
      {
        RestIncreases(v, 0, 0, m, n);
      }
      DistinctCount(places, CandidateBits());
    }

    lemma ListedIsCandidate(q: Place)
      requires Shape()
      ensures TheView().Valid() && (q in TheView().Rest(0, 0) <==> q in CandidateBits())
    {
      hide View.Rest, View.SetAt, Shape, BitAt;
      ShapeFacts();
      ghost var v := TheView();
      if q in v.Rest(0, 0) {
        var n :| 0 <= n < |v.Rest(0, 0)| && v.Rest(0, 0)[n] == q;
        v.RestSound(0, 0, n);
        SetAtMeans(q.level, q.index);
      }
      if q in CandidateBits() {
        SetAtMeans(q.level, q.index);
        var n := v.RestComplete(0, 0, q);
      }
    }

    lemma WordsFacts()
      requires Shape()
      ensures nCandidatesWords * WORD_BITS == nSieveSize && nCandidatesWords / 2 * WORD_BITS == nSieveSize / 2
      ensures nCandidatesWords % 2 == 0
    {
    }

    static lemma DefaultWords(v: View)
      requires v.Valid()
      ensures v.words <= |v.candidates| && forall i :: 0 <= i < v.words ==> v.candidates[0 + i] == v.Level(0)[i]
    {
    }

    static lemma ExtensionWords(v: View, e: nat, level: nat)
      requires v.Valid() && e < v.ext && level == e + 1
      ensures e * v.words + v.words <= |v.extended|
      ensures forall i :: 0 <= i < v.words ==> v.extended[e * v.words + i] == v.Level(level)[i]
    {
      hide Row;
      RowRange(e, v.ext, v.words);
      RowWords(v.extended, e, v.words);
      assert v.Level(level) == Row(v.extended, e, v.words);
    }

    static lemma RowWords(X: seq<SieveWord>, e: nat, words: nat)
      requires e * words + words <= |X|
      ensures forall i :: 0 <= i < words ==> X[e * words + i] == Row(X, e, words)[i]
    {
      var base := e * words;
      assert Row(X, e, words) == X[base..base + words];
    }

    // ---- a whole scan ----

    ghost predicate AtStart()
      reads this
    {
      CurrentLevel() == 0 && nCandidateIndex == 0
    }

    /** The mining loop's use of the scan, from a reset sieve until it is told there is no more. */
    method ScanPlaces() returns (multipliers: seq<nat>, types: seq<nat>)
      requires Scannable() && AtStart()
      modifies this`nCandidateIndex, this`fCandidateIsExtended, this`nCandidateActiveExtension, this`nCandidateMultiplier
      ensures Scannable() && AtStart() && TheView().Valid()
      ensures ScanResult(multipliers, types, TheView().Rest(0, 1))
    {
      hide View.Rest, Shape, Multiplier, TypeAt;
      ShapeFacts();
      ghost var all := Pending();
      multipliers, types := [], [];
      while true
        invariant Scannable() && |multipliers| == |types| <= |all|
        invariant Pending() == all[|multipliers|..]
        invariant ScanResult(multipliers, types, all[..|multipliers|])
        decreases |all| - |multipliers|
      {
        ghost var k := |multipliers|;
        var found, m, t := GetNextCandidateMultiplier();
        if !found {
          assert all[..k] == all;
          return;
        }
        assert all[k..][0] == all[k] && all[k..][1..] == all[k + 1..];
        assert all[..k + 1] == all[..k] + [all[k]];
        ScanExtends(multipliers, types, all[..k], all[k]);
        multipliers, types := multipliers + [m], types + [t];
      }
    }

    /**
     It delivers the multiplier of every candidate bit, default bits above zero and
     the upper halves of the extensions, once, and no other; the sieve is reset for
     another scan.
     */
    method ScanAll() returns (multipliers: seq<nat>, types: seq<nat>)
      requires Scannable() && AtStart()
      modifies this`nCandidateIndex, this`fCandidateIsExtended, this`nCandidateActiveExtension, this`nCandidateMultiplier
      ensures Scannable() && AtStart() && TheView().Valid()
      ensures ScanResult(multipliers, types, TheView().Rest(0, 1))
      ensures forall m :: m in multipliers <==> CandidateMultiplier(m)
      ensures forall i: nat :: 0 < i < nSieveSize && BitAt(vfCandidates[..], 0, nCandidatesWords, i) ==> i in multipliers
      ensures forall e: nat, i: nat :: e < nSieveExtensions && nSieveSize / 2 <= i < nSieveSize ==>
                                         BitAt(vfExtendedCandidates[..], e, nCandidatesWords, i) ==>
                                           i * Pow2(e + 1) in multipliers
    {
      hide Shape, View.Rest, TypeAt, BitAt, CandidateMultiplier, Pow2, ScanResult;
      multipliers, types := ScanPlaces();
      ScanMeans(multipliers, types);
    }

    /** m stands for a candidate bit: above bit zero of the default part, or in the upper half of an extension. */
    ghost predicate CandidateMultiplier(m: nat)
      reads vfCandidates, vfExtendedCandidates
    {
      || (0 < m < nSieveSize && BitAt(vfCandidates[..], 0, nCandidatesWords, m))
      || exists e: nat, i: nat :: InExtension(m, e, i) && BitAt(vfExtendedCandidates[..], e, nCandidatesWords, i)
    }

    lemma SetAtMeans(level: nat, i: nat)
      requires Shape() && level <= nSieveExtensions && i < nSieveSize
      ensures TheView().Valid() && i < TheView().Size()
      ensures TheView().SetAt(level, i) == if level == 0 then BitAt(vfCandidates[..], 0, nCandidatesWords, i)
                                           else BitAt(vfExtendedCandidates[..], level - 1, nCandidatesWords, i)
    {
      hide Bit, BitAt;
      ShapeSize();
      if level == 0 {
        BitOfBitmap(vfCandidates[..], i);
      } else {
        RowRange(level - 1, nSieveExtensions, nCandidatesWords);
        BitOfRow(vfExtendedCandidates[..], level - 1, nCandidatesWords, i);
      }
    }

    /** What a whole scan delivers, in terms of the bitmaps. */
    lemma ScanMeans(multipliers: seq<nat>, types: seq<nat>)
      requires Shape() && nSieveSize > 0 && TheView().Valid() && ScanResult(multipliers, types, TheView().Rest(0, 1))
      ensures forall m :: m in multipliers <==> CandidateMultiplier(m)
      ensures forall i: nat :: 0 < i < nSieveSize && BitAt(vfCandidates[..], 0, nCandidatesWords, i) ==> i in multipliers
      ensures forall e: nat, i: nat :: e < nSieveExtensions && nSieveSize / 2 <= i < nSieveSize ==>
                                         BitAt(vfExtendedCandidates[..], e, nCandidatesWords, i) ==>
                                           i * Pow2(e + 1) in multipliers
    {
      hide View.Rest, Shape, TypeAt, BitAt, Pow2, ScanResult, CandidateMultiplier;
      forall m: nat
        ensures m in multipliers <==> CandidateMultiplier(m)
      {
        if m in multipliers {
          DeliveredIsCandidate(multipliers, types, m);
        }
        if CandidateMultiplier(m) {
          CandidateIsDelivered(multipliers, types, m);
        }
      }
      forall i: nat | 0 < i < nSieveSize && BitAt(vfCandidates[..], 0, nCandidatesWords, i)
        ensures CandidateMultiplier(i)
      {
        DefaultCandidate(i);
      }
      forall e: nat, i: nat | e < nSieveExtensions && nSieveSize / 2 <= i < nSieveSize
                              && BitAt(vfExtendedCandidates[..], e, nCandidatesWords, i)
        ensures CandidateMultiplier(i * Pow2(e + 1))
      {
        ExtensionCandidate(e, i);
      }
    }

    lemma DefaultCandidate(i: nat)
      requires 0 < i < nSieveSize && BitAt(vfCandidates[..], 0, nCandidatesWords, i)
      ensures CandidateMultiplier(i)
    {
    }

    lemma ExtensionCandidate(e: nat, i: nat)
      requires e < nSieveExtensions && nSieveSize / 2 <= i < nSieveSize
      requires BitAt(vfExtendedCandidates[..], e, nCandidatesWords, i)
      ensures CandidateMultiplier(i * Pow2(e + 1))
    {
      hide BitAt, Pow2;
      assert InExtension(i * Pow2(e + 1), e, i);
    }

    lemma DeliveredIsCandidate(multipliers: seq<nat>, types: seq<nat>, m: nat)
      requires Shape() && nSieveSize > 0 && TheView().Valid() && ScanResult(multipliers, types, TheView().Rest(0, 1))
      requires m in multipliers
      ensures CandidateMultiplier(m)
    {
      hide View.Rest, View.SetAt, Shape, TypeAt, BitAt, Pow2, CandidateMultiplier;
      ShapeFacts();
      ghost var v := TheView();
      var n :| 0 <= n < |multipliers| && multipliers[n] == m;
      ghost var q := v.Rest(0, 1)[n];
      assert PlaceDelivered(multipliers[n], types[n], q);
      v.RestSound(0, 1, n);
      SetAtMeans(q.level, q.index);
      PowZero();
      if q.level == 0 {
        DefaultCandidate(q.index);
      } else {
        ExtensionCandidate(q.level - 1, q.index);
      }
    }

    lemma CandidateIsDelivered(multipliers: seq<nat>, types: seq<nat>, m: nat)
      requires Shape() && nSieveSize > 0 && TheView().Valid() && ScanResult(multipliers, types, TheView().Rest(0, 1))
      requires CandidateMultiplier(m)
      ensures m in multipliers
    {
      hide View.Rest, View.SetAt, Shape, TypeAt, BitAt, Pow2;
      ShapeFacts();
      PowZero();
      ghost var v := TheView();
      ghost var q;
      if 0 < m < nSieveSize && BitAt(vfCandidates[..], 0, nCandidatesWords, m) {
        q := Place(0, m);
      } else {
        var e: nat, i: nat :| InExtension(m, e, i) && BitAt(vfExtendedCandidates[..], e, nCandidatesWords, i);
        q := Place(e + 1, i);
      }
      SetAtMeans(q.level, q.index);
      var n := v.RestComplete(0, 1, q);
      assert PlaceDelivered(multipliers[n], types[n], v.Rest(0, 1)[n]);
      assert multipliers[n] == m;
    }

    ghost predicate ScanResult(multipliers: seq<nat>, types: seq<nat>, places: seq<Place>)
      reads vfCompositeBiTwin, vfExtendedCompositeBiTwin, vfCompositeCunningham1, vfExtendedCompositeCunningham1
    {
      && Shape() && |multipliers| == |types| == |places|
      && forall n :: 0 <= n < |places| ==> PlaceDelivered(multipliers[n], types[n], places[n])
    }

    ghost predicate PlaceDelivered(m: nat, t: nat, q: Place)
      requires Shape()
      reads vfCompositeBiTwin, vfExtendedCompositeBiTwin, vfCompositeCunningham1, vfExtendedCompositeCunningham1
    {
      q.level <= nSieveExtensions && q.index < nSieveSize && m == Multiplier(q) && t == TypeAt(q.level, q.index)
    }

    lemma ScanExtends(multipliers: seq<nat>, types: seq<nat>, places: seq<Place>, q: Place)
      requires ScanResult(multipliers, types, places) && q.level <= nSieveExtensions && q.index < nSieveSize
      ensures ScanResult(multipliers + [Multiplier(q)], types + [TypeAt(q.level, q.index)], places + [q])
    {
      hide Shape, Multiplier, TypeAt;
    }

    /** The bitmaps alone determine what a scan delivers: a second one repeats the first. */
    lemma ScanRepeats(multipliers: seq<nat>, types: seq<nat>, multipliers': seq<nat>, types': seq<nat>, places: seq<Place>)
      requires ScanResult(multipliers, types, places) && ScanResult(multipliers', types', places)
      ensures multipliers == multipliers' && types == types'
    {
      hide Shape, Multiplier, TypeAt;
      forall n | 0 <= n < |places|
        ensures multipliers[n] == multipliers'[n] && types[n] == types'[n]
      {
        assert PlaceDelivered(multipliers[n], types[n], places[n]);
        assert PlaceDelivered(multipliers'[n], types'[n], places[n]);
      }
    }

    /** The scan that follows a completed one delivers the same again. */
    method ScanTwice() returns (multipliers: seq<nat>, types: seq<nat>, multipliers': seq<nat>, types': seq<nat>)
      requires Scannable() && AtStart()
      modifies this`nCandidateIndex, this`fCandidateIsExtended, this`nCandidateActiveExtension, this`nCandidateMultiplier
      ensures Scannable() && AtStart() && TheView().Valid()
      ensures ScanResult(multipliers, types, TheView().Rest(0, 1))
      ensures multipliers' == multipliers && types' == types
    {
      hide View.Rest, Shape, ScanResult, Multiplier, TypeAt;
      ShapeSize();
      multipliers, types := ScanAll();
      multipliers', types' := ScanAll();
      ScanRepeats(multipliers, types, multipliers', types', TheView().Rest(0, 1));
    }

    /** With multiplier zero's bit set, a scan delivers one less than the count. */
    lemma ScanCount()
      requires Shape() && nSieveSize > 0 && TheView().Valid() && TheView().SetAt(0, 0)
      ensures |TheView().Rest(0, 1)| == |TheView().Rest(0, 0)| - 1
    {
      hide View.SetAt, Shape;
      ShapeFacts();
    }

    /** Multiplier zero always survives: every count includes it, no scan delivers it. */
    lemma ZeroCandidate(p: Plan)
      requires Shape() && nSieveSize > 0 && Exact(p, nSieveSize) && p.Valid() && p.w.Valid()
      requires p.layers == nSieveLayers && p.chain == nChainLength
      ensures TheView().Valid() && TheView().Size() > 0 && TheView().SetAt(0, 0)
    {
      hide View.SetAt, Survives, Exact, Shape, Woven.Valid, Plan.Valid, TypeAt;
      ShapeFacts();
      PlaceMeaning(p, Place(0, 0));
      ZeroSurvives(p);
    }

    // ---- what an exact sieve's bits and scan mean ----

    /** Default bits: exactly what the primes rule out. */
    lemma DefaultMeaning(p: Plan, i: nat)
      requires Shape() && Exact(p, nSieveSize) && p.layers == nSieveLayers && i < nSieveSize
      ensures Bit(vfCompositeCunningham1[..], i) == p.First1(0, nSieveLayers, i)
      ensures Bit(vfCompositeCunningham2[..], i) == p.Second1(0, nSieveLayers, i)
      ensures Bit(vfCompositeBiTwin[..], i) == p.Twin(0, nSieveLayers, i)
      ensures Bit(vfCandidates[..], i) == Survives(p, 0, i)
    {
      hide Plan.First1, Plan.Second1, Plan.Twin, Bit, Survives, ExtRows, CandRows;
      WholeRow(vfCandidates[..]);
      WholeRow(vfCompositeCunningham1[..]);
      WholeRow(vfCompositeCunningham2[..]);
      WholeRow(vfCompositeBiTwin[..]);
      assert BitsAt(vfCompositeCunningham1[..], vfCompositeCunningham2[..], vfCompositeBiTwin[..], p, 0,
                    Collected(p, nSieveSize, nSieveSize, 0, i), i);
    }

    /** Extension bits of the upper half: the default condition of the scaled multiplier; the lower half has no candidates. */
    lemma ExtensionBits(p: Plan, e: nat, i: nat)
      requires Shape() && Exact(p, nSieveSize) && p.Valid() && p.layers == nSieveLayers && p.chain == nChainLength
      requires e < nSieveExtensions && i < nSieveSize
      ensures e * nCandidatesWords + nCandidatesWords <= |vfExtendedCandidates[..]|
      ensures var m := i * Pow2(e + 1);
              nSieveSize / 2 <= i ==>
                && Bit(Row(vfExtendedCompositeCunningham1[..], e, nCandidatesWords), i) == p.First1(0, nSieveLayers, m)
                && Bit(Row(vfExtendedCompositeCunningham2[..], e, nCandidatesWords), i) == p.Second1(0, nSieveLayers, m)
                && Bit(Row(vfExtendedCompositeBiTwin[..], e, nCandidatesWords), i) == p.Twin(0, nSieveLayers, m)
                && Bit(Row(vfExtendedCandidates[..], e, nCandidatesWords), i) == Survives(p, 0, m)
      ensures i < nSieveSize / 2 ==> !Bit(Row(vfExtendedCandidates[..], e, nCandidatesWords), i)
    {
      hide Plan.First1, Plan.Second1, Plan.Twin, Bit, Survives, Row, Pow2;
      RowRange(e, nSieveExtensions, nCandidatesWords);
      ghost var X1, X2, XT := vfExtendedCompositeCunningham1[..], vfExtendedCompositeCunningham2[..],
                              vfExtendedCompositeBiTwin[..];
      assert ExtRow(X1, X2, XT, e, p, nSieveSize, nSieveSize, 0);
      assert CandRow(vfExtendedCandidates[..], e, p, nSieveSize);
      ExtensionMeaning(p, e + 1, i);
      if nSieveSize / 2 <= i {
        assert BitsAt(Row(X1, e, nCandidatesWords), Row(X2, e, nCandidatesWords), Row(XT, e, nCandidatesWords), p, e + 1,
                      Collected(p, nSieveSize, nSieveSize, 0, i), i);
      }
    }

    /**
     Bit i of every bitmap: set in a composite bitmap if and only if one of the
     primes, 11 or more, divides one of the numbers of that bitmap's chain; in
     extension e for multiplier i * 2^(e + 1), from the middle on. A candidate bit
     is set unless all three composite ones are.
     */
    ghost predicate BitsMean(primes: seq<nat>, i: nat)
      reads Bitmaps(), this`mpzFixedFactor
    {
      && BitAt(vfCompositeCunningham1[..], 0, nCandidatesWords, i) == FirstHit(primes, mpzFixedFactor, i, nChainLength)
      && BitAt(vfCompositeCunningham2[..], 0, nCandidatesWords, i) == SecondHit(primes, mpzFixedFactor, i, nChainLength)
      && BitAt(vfCompositeBiTwin[..], 0, nCandidatesWords, i)
         == (FirstHit(primes, mpzFixedFactor, i, (nBTChainLength + 1) / 2)
             || SecondHit(primes, mpzFixedFactor, i, nBTChainLength / 2))
      && BitAt(vfCandidates[..], 0, nCandidatesWords, i) == !AllHit(primes, mpzFixedFactor, i, nChainLength, nBTChainLength)
      && forall e: nat :: e < nSieveExtensions ==> ExtensionBitsMean(primes, e, i)
    }

    ghost predicate ExtensionBitsMean(primes: seq<nat>, e: nat, i: nat)
      reads Bitmaps(), this`mpzFixedFactor
    {
      var m := i * Pow2(e + 1);
      if i < nSieveSize / 2 then !BitAt(vfExtendedCandidates[..], e, nCandidatesWords, i)
      else
        && BitAt(vfExtendedCompositeCunningham1[..], e, nCandidatesWords, i)
           == FirstHit(primes, mpzFixedFactor, m, nChainLength)
        && BitAt(vfExtendedCompositeCunningham2[..], e, nCandidatesWords, i)
           == SecondHit(primes, mpzFixedFactor, m, nChainLength)
        && BitAt(vfExtendedCompositeBiTwin[..], e, nCandidatesWords, i)
           == (FirstHit(primes, mpzFixedFactor, m, (nBTChainLength + 1) / 2)
               || SecondHit(primes, mpzFixedFactor, m, nBTChainLength / 2))
        && BitAt(vfExtendedCandidates[..], e, nCandidatesWords, i)
           == !AllHit(primes, mpzFixedFactor, m, nChainLength, nBTChainLength)
    }

    /** What the plan's conditions on a multiplier mean. */
    lemma PlanMeans(vPrimes: seq<nat>, m: nat)
      requires Shape() && ThePlan(vPrimes).w.Valid() && ThePlan(vPrimes).Valid() && vPrimes[..4] == [2, 3, 5, 7]
      ensures nPrimes <= |vPrimes|
      ensures (var p, woven := ThePlan(vPrimes), vPrimes[..nPrimes];
               && p.layers == nSieveLayers && p.chain == nChainLength
               && p.First1(0, nSieveLayers, m) == FirstHit(woven, mpzFixedFactor, m, nChainLength)
               && p.Second1(0, nSieveLayers, m) == SecondHit(woven, mpzFixedFactor, m, nChainLength)
               && p.Twin(0, nSieveLayers, m)
                  == (FirstHit(woven, mpzFixedFactor, m, (nBTChainLength + 1) / 2)
                      || SecondHit(woven, mpzFixedFactor, m, nBTChainLength / 2))
               && Survives(p, 0, m) == !AllHit(woven, mpzFixedFactor, m, nChainLength, nBTChainLength))
    {
      LayersCover();
      ConditionsMean(ThePlan(vPrimes), m, nBTChainLength);
    }

    lemma LayersCover()
      requires Shape()
      ensures nChainLength <= nSieveLayers
    {
    }

    lemma AllBitsMean(vPrimes: seq<nat>)
      requires Shape() && ThePlan(vPrimes).w.Valid() && ThePlan(vPrimes).Valid() && Exact(ThePlan(vPrimes), nSieveSize)
      requires vPrimes[..4] == [2, 3, 5, 7]
      ensures nPrimes <= |vPrimes| && forall i: nat :: i < nSieveSize ==> BitsMean(vPrimes[..nPrimes], i)
    {
      hide BitsMean, Exact, Woven.Valid, Plan.Valid;
      PlanMeans(vPrimes, 0);
      forall i: nat | i < nSieveSize
        ensures BitsMean(vPrimes[..nPrimes], i)
      {
        OneBitMeans(vPrimes, i);
      }
    }

    lemma OneBitMeans(vPrimes: seq<nat>, i: nat)
      requires Shape() && ThePlan(vPrimes).w.Valid() && ThePlan(vPrimes).Valid() && Exact(ThePlan(vPrimes), nSieveSize)
      requires vPrimes[..4] == [2, 3, 5, 7] && i < nSieveSize
      ensures nPrimes <= |vPrimes| && BitsMean(vPrimes[..nPrimes], i)
    {
      hide ExtensionBitsMean, Exact, Woven.Valid, Plan.Valid, BitAt, Bit, Survives, AllHit, FirstHit, SecondHit,
        Plan.First1, Plan.Second1, Plan.Twin;
      PlanMeans(vPrimes, i);
      ShapeSize();
      DefaultMeaning(ThePlan(vPrimes), i);
      BitOfBitmap(vfCompositeCunningham1[..], i);
      BitOfBitmap(vfCompositeCunningham2[..], i);
      BitOfBitmap(vfCompositeBiTwin[..], i);
      BitOfBitmap(vfCandidates[..], i);
      forall e: nat | e < nSieveExtensions
        ensures ExtensionBitsMean(vPrimes[..nPrimes], e, i)
      {
        OneExtensionBitMeans(vPrimes, e, i);
      }
    }

    lemma OneExtensionBitMeans(vPrimes: seq<nat>, e: nat, i: nat)
      requires Shape() && ThePlan(vPrimes).w.Valid() && ThePlan(vPrimes).Valid() && Exact(ThePlan(vPrimes), nSieveSize)
      requires vPrimes[..4] == [2, 3, 5, 7] && e < nSieveExtensions && i < nSieveSize
      ensures nPrimes <= |vPrimes| && ExtensionBitsMean(vPrimes[..nPrimes], e, i)
    {
      hide Exact, Woven.Valid, Plan.Valid, BitAt, Bit, Row, Survives, AllHit, FirstHit, SecondHit,
        Plan.First1, Plan.Second1, Plan.Twin, Pow2;
      PlanMeans(vPrimes, i * Pow2(e + 1));
      ShapeSize();
      ExtensionBits(ThePlan(vPrimes), e, i);
      BitOfRow(vfExtendedCompositeCunningham1[..], e, nCandidatesWords, i);
      BitOfRow(vfExtendedCompositeCunningham2[..], e, nCandidatesWords, i);
      BitOfRow(vfExtendedCompositeBiTwin[..], e, nCandidatesWords, i);
      BitOfRow(vfExtendedCandidates[..], e, nCandidatesWords, i);
    }

    /** Whether a place holds a candidate: its multiplier survives. */
    lemma PlaceMeaning(p: Plan, q: Place)
      requires Shape() && Exact(p, nSieveSize) && p.Valid() && p.layers == nSieveLayers && p.chain == nChainLength
      requires q.level <= nSieveExtensions && TheBegin(q.level) <= q.index < nSieveSize
      ensures TheView().Valid() && TheView().SetAt(q.level, q.index) == Survives(p, 0, Multiplier(q))
      ensures TypeAt(q.level, q.index) == if !p.Twin(0, nSieveLayers, Multiplier(q)) then PRIME_CHAIN_BI_TWIN
                                          else if !p.First1(0, nSieveLayers, Multiplier(q)) then PRIME_CHAIN_CUNNINGHAM1
                                          else PRIME_CHAIN_CUNNINGHAM2
    {
      hide Plan.First1, Plan.Second1, Plan.Twin, Bit, Survives, Exact, Pow2, Plan.Valid;
      ShapeFacts();
      PowZero();
      if q.level == 0 {
        DefaultMeaning(p, q.index);
      } else {
        ExtensionBits(p, q.level - 1, q.index);
      }
    }

    /**
     The scan of an exact sieve: a multiplier is delivered exactly when it is
     reachable, not zero and survives; the chain type delivered with it is the
     first of the three that the primes do not rule out.
     */
    lemma ScanExact(p: Plan, multipliers: seq<nat>, types: seq<nat>, m: nat)
      requires Shape() && nSieveSize > 0 && Exact(p, nSieveSize) && p.Valid() && p.layers == nSieveLayers && p.chain == nChainLength
      requires TheView().Valid() && ScanResult(multipliers, types, TheView().Rest(0, 1))
      ensures m in multipliers <==> m > 0 && Reachable(m) && Survives(p, 0, m)
      ensures forall n :: 0 <= n < |multipliers| ==> types[n] == FirstLeft(p, multipliers[n])
    {
      hide Plan.First1, Plan.Second1, Plan.Twin, Survives, Exact, Pow2, View.Rest, View.SetAt, TypeAt, Shape, Reachable;
      ShapeFacts();
      ghost var v := TheView();
      ghost var places := v.Rest(0, 1);
      forall n | 0 <= n < |multipliers|
        ensures types[n] == FirstLeft(p, multipliers[n]) && Reachable(multipliers[n])
        ensures multipliers[n] > 0 && Survives(p, 0, multipliers[n])
      {
        assert PlaceDelivered(multipliers[n], types[n], places[n]);
        v.RestSound(0, 1, n);
        PlaceMeaning(p, places[n]);
        PlacePositive(places[n]);
        PlaceReachable(places[n]);
      }
      if m > 0 && Reachable(m) && Survives(p, 0, m) {
        var q := PlaceOf(m);
        PlaceMeaning(p, q);
        PowZero();
        var n := v.RestComplete(0, 1, q);
        assert PlaceDelivered(multipliers[n], types[n], places[n]);
        assert multipliers[n] == m;
      }
    }

    ghost predicate IsPlace(q: Place) {
      q.level <= nSieveExtensions && TheBegin(q.level) <= q.index < nSieveSize
    }

    /** m is index i of extension e, whose lower half repeats what comes before it. */
    predicate InExtension(m: nat, e: nat, i: nat) {
      e < nSieveExtensions && nSieveSize / 2 <= i < nSieveSize && m == i * Pow2(e + 1)
    }

    /** A multiplier below the sieve size, or one an extension adds. */
    ghost predicate Reachable(m: nat) {
      m < nSieveSize || exists e: nat, i: nat :: InExtension(m, e, i)
    }

    /** Those are the multipliers the places of the scan stand for. */
    lemma PlaceReachable(q: Place)
      requires IsPlace(q)
      ensures Reachable(Multiplier(q))
    {
      hide Pow2;
      PowZero();
      if q.level > 0 {
        assert InExtension(Multiplier(q), q.level - 1, q.index);
      }
    }

    lemma PlaceOf(m: nat) returns (q: Place)
      requires Reachable(m)
      ensures IsPlace(q) && Multiplier(q) == m
    {
      hide Pow2;
      PowZero();
      if m < nSieveSize {
        q := Place(0, m);
      } else {
        var e: nat, i: nat :| InExtension(m, e, i);
        q := Place(e + 1, i);
      }
    }

    lemma PlacePositive(q: Place)
      requires q.index > 0
      ensures Multiplier(q) > 0
    {
      SameLevel(0, q.index, Pow2(q.level));
    }

    /** The chain type a candidate is tested for: bi-twin if it is left, else of the first kind, else of the second. */
    ghost function FirstLeft(p: Plan, m: nat): nat {
      if !p.Twin(0, nSieveLayers, m) then 3 else if !p.First1(0, nSieveLayers, m) then 1 else 2
    }
  }

  /** Four cleared bitmaps. */
  method NewBitmaps(words: nat) returns (a: array<SieveWord>, b: array<SieveWord>, c: array<SieveWord>, d: array<SieveWord>)
    ensures fresh({a, b, c, d}) && a !in {b, c, d} && b !in {c, d} && c != d
    ensures a.Length == b.Length == c.Length == d.Length == words
    ensures AllZero(a[..]) && AllZero(b[..]) && AllZero(c[..]) && AllZero(d[..])
  {
    a := new SieveWord[words](_ => ZeroWord());
    b := new SieveWord[words](_ => ZeroWord());
    c := new SieveWord[words](_ => ZeroWord());
    d := new SieveWord[words](_ => ZeroWord());
  }

  /** Clears four bitmaps. */
  method ClearBitmaps(a: array<SieveWord>, b: array<SieveWord>, c: array<SieveWord>, d: array<SieveWord>)
    requires a !in {b, c, d} && b !in {c, d} && c != d
    modifies a, b, c, d
    ensures AllZero(a[..]) && AllZero(b[..]) && AllZero(c[..]) && AllZero(d[..])
  {
    hide AllZero;
    ClearBitmap(a);
    ClearBitmap(b);
    ClearBitmap(c);
    ClearBitmap(d);
  }

  method ClearBitmap(a: array<SieveWord>)
    modifies a
    ensures AllZero(a[..])
  {
    var i := 0;
    while i < a.Length
      invariant i <= a.Length && AllZero(a[..i])
    {
      a[i] := ZeroWord();
      i := i + 1;
    }
    assert a[..i] == a[..];
  }

  /** Marks every entry of a multiplier table as absent. */
  method SkipAll(m: array<nat>)
    modifies m
    ensures AllSkipped(m[..])
  {
    var i := 0;
    while i < m.Length
      invariant i <= m.Length && AllSkipped(m[..i])
    {
      m[i] := SKIPPED;
      i := i + 1;
    }
    assert m[..i] == m[..];
  }

  /** Two multiplier tables with every entry marked as absent. */
  method NewMultipliers(n: nat) returns (a: array<nat>, b: array<nat>)
    ensures fresh({a, b}) && a != b && a.Length == b.Length == n && AllSkipped(a[..]) && AllSkipped(b[..])
  {
    a := new nat[n](_ => SKIPPED);
    b := new nat[n](_ => SKIPPED);
  }

  predicate AllSkipped(M: seq<nat>) {
    forall j :: 0 <= j < |M| ==> M[j] == 0xFFFF_FFFF
  }

  predicate AllZero(X: seq<SieveWord>) {
    forall j :: 0 <= j < |X| ==> X[j] == ZeroWord()
  }
}
