/** Sieve words as rows of bits, and the bitmaps made of them. */
module SieveBits {

  const WORD_BITS: nat := 64  // 8 * sizeof(sieve_word_t)

  type SieveWord = w: seq<bool> | |w| == 64 witness seq(64, i => false)

  function ZeroWord(): SieveWord {
    seq(64, i => false)
  }

  function Or(a: SieveWord, b: SieveWord): SieveWord {
    seq(64, i requires 0 <= i < 64 => a[i] || b[i])
  }

  function And(a: SieveWord, b: SieveWord): SieveWord {
    seq(64, i requires 0 <= i < 64 => a[i] && b[i])
  }

  function Not(a: SieveWord): SieveWord {
    seq(64, i requires 0 <= i < 64 => !a[i])
  }

  /** w << k; bits beyond the word are lost. */
  function ShiftLeft(w: SieveWord, k: nat): SieveWord
    requires k < WORD_BITS
  {
    seq(64, i requires 0 <= i < 64 => i >= k && w[i - k])
  }

  /** w >> k */
  function ShiftRight(w: SieveWord, k: nat): SieveWord
    requires k < WORD_BITS
  {
    seq(64, i requires 0 <= i < 64 => i + k < 64 && w[i + k])
  }

  function GetWordNum(nBitNum: nat): nat {
    nBitNum / WORD_BITS
  }

  /** The word with bit a set */
  function Single(a: nat): SieveWord {
    seq(64, i requires 0 <= i < 64 => i == a)
  }

  /** 1 << (nBitNum % WORD_BITS) */
  function GetBitMask(nBitNum: nat): SieveWord {
    Single(nBitNum % WORD_BITS)
  }

  /** Bit i of a bitmap. */
  predicate Bit(bitmap: seq<SieveWord>, i: nat)
    requires GetWordNum(i) < |bitmap|
  {
    bitmap[GetWordNum(i)][i % WORD_BITS]
  }

  lemma RotateSingle(a: nat, rb: nat)
    requires a < 64 && 0 < rb < 64
    ensures Or(ShiftLeft(Single(a), rb), ShiftRight(Single(a), WORD_BITS - rb))
         == Single(if a + rb < 64 then a + rb else a + rb - 64)
  {
  }

  lemma SumInWord(v: nat, p: nat)
    ensures (var a, rb := v % WORD_BITS, p % WORD_BITS;
             (v + p) % WORD_BITS == if a + rb < 64 then a + rb else a + rb - 64)
  {
  }

  /** Rotating the mask by p mod the word size moves it to the bit p places on. */
  lemma RotateMask(v: nat, p: nat)
    requires p % WORD_BITS != 0
    ensures Or(ShiftLeft(GetBitMask(v), p % WORD_BITS), ShiftRight(GetBitMask(v), WORD_BITS - p % WORD_BITS))
         == GetBitMask(v + p)
  {
    SumInWord(v, p);
    RotateSingle(v % WORD_BITS, p % WORD_BITS);
  }

  /** Or-ing the mask of v into its word sets bit v and no other. */
  lemma OrMaskSetsBit(bitmap: seq<SieveWord>, v: nat, i: nat)
    requires GetWordNum(v) < |bitmap| && GetWordNum(i) < |bitmap|
    ensures Bit(bitmap[GetWordNum(v) := Or(bitmap[GetWordNum(v)], GetBitMask(v))], i) == (Bit(bitmap, i) || i == v)
  {
    if GetWordNum(i) == GetWordNum(v) {
      assert i == v <==> i % WORD_BITS == v % WORD_BITS;
    }
  }

  lemma AlignedWord(i: nat, lo: nat, hi: nat)
    requires lo % WORD_BITS == 0 && hi % WORD_BITS == 0
    ensures lo <= i < hi <==> GetWordNum(lo) <= GetWordNum(i) < GetWordNum(hi)
  {
  }

  /** The words a wipe of [lo, hi) covers. */
  lemma WipeWords(lo: nat, hi: nat)
    requires lo <= hi && lo % WORD_BITS == 0 && hi % WORD_BITS == 0
    ensures GetWordNum(lo) + (hi - lo + WORD_BITS - 1) / WORD_BITS == GetWordNum(hi)
  {
  }
}
