/** BN2_div: long division of signed word-array numbers, truncating toward zero. */
module Division {
  import opened Words
  import opened Bits
  import opened NumberTheory
  import opened BigNums
  import opened BigNumArith
  import opened QuotientDigit
  import opened DivisionStep

  // ---- normalisation ----

  /** Scaling both operands scales the remainder and keeps the quotient. */
  lemma ScaledDivMod(x: nat, y: nat, p: nat)
    requires y > 0 && p > 0
    ensures y * p > 0 && (x * p) / (y * p) == x / y && (x * p) % (y * p) == (x % y) * p
  {
    QuotientSpec(x, y);
    var q, r := x / y, x % y;
    assert x * p == (q * y) * p + r * p;
    assert (q * y) * p == (y * p) * q;
    MulMonotone(p, r + 1, y);
    assert p * (r + 1) == p * r + p;
    assert y * p > 0;
    ModOf(x * p, y * p, q, r * p);
  }

  lemma NumBitsOfScaled(x: nat, k: nat, v: nat)
    requires x > 0 && v == x * Pow2(k)
    ensures v > 0 && NumBits(v) == k + NumBits(x)
  {
    hide Pow2;
    MulCommutes(x, Pow2(k));
    NumBitsScaled(v, 0, k, x);
  }

  /** A length that fills whole words means the top bit is set. */
  lemma FullWordsNormalised(S: seq<Word>)
    requires |S| > 0 && S[|S| - 1] != 0 && NumBits(Value(S)) % 32 == 0
    ensures Normalised(S)
  {
    hide Value, NumBits;
    NumBitsOfWords(S);
    NumBitsOfWord(S[|S| - 1]);
    TopBitSet(S[|S| - 1]);
  }

  lemma TopBitSet(w: Word)
    requires NumBits(w) == 32
    ensures w >= BASE / 2
  {
    NumBitsBounds(w);
    Pow2Values();
    assert Pow2(32) == 2 * Pow2(31);
  }

  /** The shift distance that NormaliseDivisor picks sets the top bit. */
  lemma ShiftNormalises(S: seq<Word>, x: nat, norm: nat)
    requires x > 0 && norm == 32 - NumBits(x) % 32 && Value(S) == x * Pow2(norm)
    requires |S| > 0 ==> S[|S| - 1] != 0
    ensures |S| > 0 && Normalised(S)
  {
    hide *;
    NumBitsOfScaled(x, norm, Value(S));
    NonzeroValue(S);
    FullWordsNormalised(S);
  }

  lemma NonzeroValue(s: seq<Word>)
    requires Value(s) > 0
    ensures |s| > 0
  {
  }

  /** The divisor shifted so that its top bit is set. */
  method NormaliseDivisor(sdiv: BigNum, divisor: BigNum) returns (norm: nat)
    requires sdiv != divisor && sdiv.Valid() && divisor.Normal() && divisor.Mag() > 0
    modifies sdiv
    ensures sdiv.Normal() && sdiv.Mag() == divisor.Mag() * Pow2(norm)
    ensures sdiv.top > 0 && Normalised(sdiv.d[..sdiv.top])
    ensures !sdiv.neg
  {
    var nb := NumBitsOf(divisor);
    norm := 32 - nb % 32;
    LShift(sdiv, divisor, norm);
    ShiftNormalises(sdiv.d[..sdiv.top], divisor.Mag(), norm);
    sdiv.neg := false;
  }

  // ---- the main loop ----

  /** Rounds from window lo0 down to window 1. */
  method Rounds(snum: BigNum, res: BigNum, S: seq<Word>, numN: nat, lo0: nat, rtop: nat, ghost total: nat)
    requires snum != res && numN <= |snum.d| && Normalised(S)
    requires lo0 + |S| == numN && (rtop == lo0 || rtop == lo0 - 1)
    requires DivState(snum.d[..numN], res.d, S, total, lo0, rtop)
    modifies snum`d, res`d
    ensures numN <= |snum.d| && DivState(snum.d[..numN], res.d, S, total, 1, rtop)
  {
    var n := |S|;
    var lo := lo0;
    while lo > 1
      invariant 1 <= lo <= lo0 && numN <= |snum.d|
      invariant DivState(snum.d[..numN], res.d, S, total, lo, rtop)
    {
      var W := snum.d[lo - 1..lo + n];
      WindowOnArray(snum.d, res.d, S, numN, lo, rtop);
      var W', q := ReduceWindow(W, S, snum.d[lo + n - 3]);
      RoundOnArray(snum.d, res.d, S, total, numN, lo, rtop, W', q);
      snum.d := snum.d[..lo - 1] + W' + snum.d[lo + n..];
      res.d := res.d[lo - 2 := q];
      lo := lo - 1;
    }
  }

  /** The shifted numerator is longer than the divisor, and reaches it already in its last window. */
  lemma LoopBounds(R: seq<Word>, S: seq<Word>, m: nat)
    requires |S| > 0 && S[|S| - 1] != 0
    requires Value(R) == BASE * m && m >= Value(S)
    ensures |R| > |S|
    ensures |R| == |S| + 1 ==> Value(R[1..]) >= Value(S)
  {
    ValueTopNonzero(S);
    ValueBound(R);
    assert Value(R) >= Pow(|S|);
    if |R| <= |S| {
      PowMonotone(|R|, |S|);
    }
    if |R| == |S| + 1 {
      assert Value(R) == R[0] + BASE * Value(R[1..]);
    }
  }

  lemma QuotientWords(m: nat, d: nat, k: nat, n: nat)
    requires d > 0 && d <= Pow(n) && m >= Pow(n + k)
    ensures m / d >= Pow(k)
  {
    PowAdd(n, k);
    MulMonotone(Pow(k), d, Pow(n));
    QuotientAtLeast(m, d, Pow(k));
  }

  /** With the leading one skipped, the quotient still fills every word below it. */
  lemma TopWithoutOne(R: seq<Word>, S: seq<Word>, m: nat, loop: nat)
    requires Normalised(S) && |R| == loop + |S| && loop >= 2 && R[|R| - 1] != 0
    requires Value(R) == BASE * m
    ensures Value(S) > 0 && m / Value(S) >= Pow(loop - 2)
  {
    ValueTopNonzero(S);
    ValueTopNonzero(R);
    ValueBound(S);
    assert Pow(|R| - 1) == BASE * Pow(|S| + (loop - 2));
    QuotientWords(m, Value(S), loop - 2, |S|);
  }

  /** With the leading one, the quotient reaches the leading word. */
  lemma TopWithOne(R: seq<Word>, S: seq<Word>, m: nat, loop: nat)
    requires Normalised(S) && |R| == loop + |S| && loop >= 1
    requires Value(R) == BASE * m && Value(R[loop..]) >= Value(S)
    ensures Value(S) > 0 && m / Value(S) >= Pow(loop - 1)
  {
    ValueTopNonzero(S);
    ValueSplit(R, loop);
    MulMonotone(Pow(loop), Value(S), Value(R[loop..]));
    MulAssoc(BASE, Pow(loop - 1), Value(S));
    assert BASE * m >= BASE * (Pow(loop - 1) * Value(S));
    QuotientMax(m, Value(S), Pow(loop - 1));
  }

  /**
   Divides the shifted numerator, held in snum, by the normalised divisor in
   sdiv: the quotient goes to res, snum is left with BASE times the remainder.
   */
  method DivideShifted(snum: BigNum, sdiv: BigNum, res: BigNum, ghost m: nat)
    requires snum != sdiv && snum != res && sdiv != res
    requires snum.Normal() && sdiv.Normal() && sdiv.top > 0 && Normalised(sdiv.d[..sdiv.top])
    requires snum.Mag() == BASE * m && m >= sdiv.Mag() && res.Valid()
    modifies snum, res`d, res`top
    ensures snum.Valid() && sdiv.Mag() > 0 && snum.Mag() == BASE * (m % sdiv.Mag()) && snum.neg == old(snum.neg)
    ensures res.Normal() && res.Mag() == m / sdiv.Mag()
  {
    hide Pow, Value;
    var S := sdiv.d[..sdiv.top];
    var divN, numN := sdiv.top, snum.top;
    ghost var R := snum.d[..numN];
    LoopBounds(R, S, m);
    var loop := numN - divN;
    res.WExpand(loop + 1);
    res.top := loop;
    var wnum := snum.d[loop..numN];
    assert wnum == R[loop..];
    var c := CompareWords(wnum, S);
    if c >= 0 {
      var X, borrow := SubWords(wnum, S);
      NoBorrow(X, borrow, Value(wnum), Value(S));
      snum.d := snum.d[..loop] + X + snum.d[numN..];
      res.d := res.d[loop - 1 := 1];
      assert snum.d[..numN] == R[..loop] + X;
      StartWithOne(R, S, X, res.d, loop);
      TopWithOne(R, S, m, loop);
    } else {
      res.top := res.top - 1;
      StartWithoutOne(R, S, res.d, loop);
      TopWithoutOne(R, S, m, loop);
    }
    Rounds(snum, res, S, numN, loop, res.top, BASE * m);
    DivisionDone(snum.d[..numN], res.d, S, m, res.top);
    TopFromValue(res.d[..res.top]);
  }

  // ---- the whole operation ----

  /** The result of truncating division, from magnitudes and signs. */
  ghost predicate IsQuotient(q: BigNum, x: nat, y: nat, xneg: bool, yneg: bool)
    requires y > 0
    reads q
  {
    && q.Normal() && q.Mag() == x / y
    && q.neg == (x >= y && xneg != yneg)
  }

  /** overwritten: the quotient was written over the numerator, and with it the numerator's sign. */
  ghost predicate IsRemainder(r: BigNum, x: nat, y: nat, xneg: bool, yneg: bool, overwritten: bool)
    requires y > 0
    reads r
  {
    && r.Normal() && r.Mag() == x % y
    && r.neg == if x < y then xneg else r.Mag() > 0 && (if overwritten then xneg != yneg else xneg)
  }

  lemma SmallerDividend(x: nat, y: nat)
    requires x < y
    ensures x / y == 0 && x % y == x
  {
    QuotientUnique(x, y, 0);
    QuotientSpec(x, y);
  }

  lemma LargerDividend(x: nat, y: nat)
    requires 0 < y <= x
    ensures x / y >= 1
  {
    QuotientMax(x, y, 1);
  }

  lemma ZeroTop(a: BigNum)
    requires a.Normal()
    ensures a.top == 0 <==> a.Mag() == 0
  {
    if a.top > 0 {
      ValueTopNonzero(a.d[..a.top]);
    }
  }

  /** Undoing the normalising shift on what long division left behind. */
  lemma UnshiftRemainder(r: nat, p: nat, norm: nat)
    requires p == Pow2(norm)
    ensures (BASE * (r * p)) / Pow2(norm + 32) == r
  {
    Pow2Add(norm, 32);
    Pow2Values();
    assert BASE * (r * p) == (p * BASE) * r;
    ModOf(BASE * (r * p), Pow2(norm + 32), r, 0);
  }

  lemma ShiftTogether(x: nat, norm: nat)
    ensures x * Pow2(norm + 32) == BASE * (x * Pow2(norm))
  {
    Pow2Add(norm, 32);
    Pow2Values();
    assert x * (Pow2(norm) * BASE) == BASE * (x * Pow2(norm));
  }

  /** Both operands shifted for the long division, leaving them as they are. */
  method Normalise(snum: BigNum, sdiv: BigNum, num: BigNum, divisor: BigNum) returns (norm: nat, ghost p: nat)
    requires snum != sdiv && {snum, sdiv} !! {num, divisor} && snum.Valid() && sdiv.Valid()
    requires num.Normal() && divisor.Normal() && num.Mag() >= divisor.Mag() > 0
    modifies snum, sdiv
    ensures p == Pow2(norm) && snum.Normal() && sdiv.Normal()
    ensures snum.Mag() == BASE * (num.Mag() * p) && sdiv.Mag() == divisor.Mag() * p
    ensures sdiv.top > 0 && Normalised(sdiv.d[..sdiv.top]) && num.Mag() * p >= sdiv.Mag()
    ensures !snum.neg
  {
    hide Pow2, Value, Normalised;
    norm := NormaliseDivisor(sdiv, divisor);
    p := Pow2(norm);
    LShift(snum, num, norm + 32);
    snum.neg := false;
    ShiftTogether(num.Mag(), norm);
    MulMonotone(p, divisor.Mag(), num.Mag());
  }

  /** rm := the remainder with the normalising shift undone, under the numerator's present sign. */
  method StoreRemainder(rm: BigNum, snum: BigNum, norm: nat, neg: bool, ghost r: nat)
    requires rm != snum && rm.Valid() && snum.Normal() && !snum.neg
    requires snum.Mag() == BASE * (r * Pow2(norm))
    modifies rm
    ensures rm.Normal() && rm.Mag() == r && rm.neg == (r > 0 && neg)
  {
    hide Pow2;
    UnshiftRemainder(r, Pow2(norm), norm);
    RShift(rm, snum, norm + 32);
    ZeroTop(rm);
    if rm.top != 0 {
      rm.neg := neg;
    }
  }

  /** The division proper, for a numerator at least as large as the divisor. */
  method DivideLarge(res: BigNum, rm: BigNum?, num: BigNum, divisor: BigNum)
    requires num.Normal() && divisor.Normal() && num.Mag() >= divisor.Mag() > 0
    requires res.Valid() && res != rm
    requires rm != null ==> rm.Valid()
    modifies res, rm
    ensures IsQuotient(res, old(num.Mag()), old(divisor.Mag()), old(num.neg), old(divisor.neg))
    ensures rm != null ==>
              IsRemainder(rm, old(num.Mag()), old(divisor.Mag()), old(num.neg), old(divisor.neg), res == num)
  {
    hide Pow2;
    ghost var x, y := num.Mag(), divisor.Mag();
    var snum := new BigNum();
    var sdiv := new BigNum();
    var norm;
    ghost var p;
    norm, p := Normalise(snum, sdiv, num, divisor);
    ScaledDivMod(x, y, p);
    res.neg := num.neg != divisor.neg;
    DivideShifted(snum, sdiv, res, x * p);
    LargerDividend(x, y);
    snum.CorrectTop();
    if rm != null {
      var neg := num.neg;
      StoreRemainder(rm, snum, norm, neg, x % y);
    }
  }

  /**
   BN2_div: dv := num / divisor and rm := num % divisor, either of which may be
   absent or share the storage of an operand. Refuses a zero divisor and a
   numerator with a leading zero word, changing nothing.
   */
  method Div(dv: BigNum?, rm: BigNum?, num: BigNum, divisor: BigNum) returns (ok: bool)
    requires num.Valid() && divisor.Normal() && num.top + 3 <= 128 && divisor.top + 2 <= 128
    requires dv != null ==> dv.Valid() && dv != rm
    requires rm != null ==> rm.Valid()
    modifies dv, rm
    ensures ok == (old(num.Normal()) && old(divisor.Mag()) > 0)
    ensures !ok && dv != null ==> unchanged(dv)
    ensures !ok && rm != null ==> unchanged(rm)
    ensures ok && dv != null ==>
              IsQuotient(dv, old(num.Mag()), old(divisor.Mag()), old(num.neg), old(divisor.neg))
    ensures ok && rm != null ==>
              IsRemainder(rm, old(num.Mag()), old(divisor.Mag()), old(num.neg), old(divisor.neg), dv == num)
  {
    ZeroTop(divisor);
    if num.top > 0 && num.d[num.top - 1] == 0 {
      return false;
    }
    if divisor.top == 0 {
      return false;
    }
    var c := UCmp(num, divisor);
    if c < 0 {
      SmallerDividend(num.Mag(), divisor.Mag());
      if rm != null {
        Copy(rm, num);
      }
      if dv != null {
        dv.top := 0;
        dv.neg := false;
      }
      return true;
    }
    if dv == null {
      var scratch := new BigNum();
      DivideLarge(scratch, rm, num, divisor);
    } else {
      DivideLarge(dv, rm, num, divisor);
    }
    return true;
  }

  // ---- what division promises ----

  function Signed(m: nat, neg: bool): int {
    if neg then 0 - m else m
  }

  /** When the remainder's sign is taken from storage that already holds the quotient. */
  ghost predicate SignLost(x: nat, y: nat, yneg: bool, overwritten: bool)
    requires y > 0
  {
    overwritten && yneg && x >= y && x % y != 0
  }

  /**
   numerator == quotient * divisor + remainder with a small remainder, exactly
   unless the quotient was stored over the numerator, the divisor is negative
   and a nonzero remainder was asked for as well.
   */
  lemma DivisionLaw(dv: BigNum, rm: BigNum, x: nat, y: nat, xneg: bool, yneg: bool, overwritten: bool)
    requires y > 0 && IsQuotient(dv, x, y, xneg, yneg) && IsRemainder(rm, x, y, xneg, yneg, overwritten)
    ensures rm.Mag() < y
    ensures Signed(x, xneg) == dv.Int() * Signed(y, yneg) + rm.Int() <==> !SignLost(x, y, yneg, overwritten)
  {
    QuotientSpec(x, y);
    if x < y {
      SmallerDividend(x, y);
    }
    SignedProduct(x / y, dv.neg, y, yneg);
  }

  /** An instance of the lost sign: seven divided by minus two, the quotient stored over the seven. */
  method SevenByMinusTwo() returns (dv: int, rm: int)
    ensures dv == -3 && rm == -1 && 7 != dv * -2 + rm
  {
    var num := new BigNum();
    var divisor := new BigNum();
    var remainder := new BigNum();
    SetWord(num, 7);
    SetWord(divisor, 2);
    divisor.neg := true;
    OneWordTop(num);
    OneWordTop(divisor);
    var ok := Div(num, remainder, num, divisor);
    dv, rm := num.Int(), remainder.Int();
  }

  lemma OneWordTop(x: BigNum)
    requires x.Normal() && x.Mag() < BASE
    ensures x.top <= 1
  {
    if x.top > 1 {
      ValueTopNonzero(x.d[..x.top]);
      PowMonotone(1, x.top - 1);
    }
  }

  lemma SignedProduct(q: nat, qneg: bool, y: nat, yneg: bool)
    ensures Signed(q, qneg) * Signed(y, yneg) == if qneg == yneg then q * y else 0 - q * y
  {
  }

  lemma NonNegativeRemainder(x: nat, y: nat)
    requires y > 0
    ensures (0 - x) % y == if x % y == 0 then 0 else y - x % y
  {
    QuotientSpec(x, y);
    var q := 0 - x / y;
    MulCommutes(y, x / y);
    if x % y == 0 {
      ModOf(0 - x, y, q, 0);
    } else {
      ModOf(0 - x, y, q - 1, y - x % y) by {
        assert y * (q - 1) == y * q - y;
      }
    }
  }

  /** A zero written with a negative sign, which right shifts can produce. */
  predicate NegativeZero(a: BigNum)
    requires a.Valid()
    reads a
  {
    a.neg && a.Mag() == 0
  }

  /** What BN2_nnmod leaves for a numerator of magnitude x. */
  function NNModResult(x: nat, neg: bool, y: nat, shared: bool): int
    requires y > 0
  {
    if !neg then x % y
    else if shared then 0
    else if x == 0 then y
    else (0 - x) % y
  }

  /**
   The result is the remainder in [0, y) exactly unless the numerator is negative
   and either zero, or no multiple of a divisor sharing the result's storage.
   */
  lemma NNModLaw(x: nat, neg: bool, y: nat, shared: bool)
    requires y > 0
    ensures NNModResult(x, neg, y, shared) == Signed(x, neg) % y
       <==> !neg || (if shared then x % y == 0 else x != 0)
  {
    NonNegativeRemainder(x, y);
    ModOf(0, y, 0, 0);
  }

  /**
   BN2_nnmod: r := the non-negative remainder of m by |d|. A negative zero m comes
   out as |d|. When r is d itself, the divisor is gone by the time a negative
   remainder would be corrected with it, and zero comes out instead.
   */
  method NNMod(r: BigNum, m: BigNum, d: BigNum) returns (ok: bool)
    requires r.Valid() && m.Normal() && d.Normal() && m.top + 3 <= 128 && d.top + 2 <= 128
    modifies r
    ensures ok == (old(d.Mag()) > 0) && (!ok ==> unchanged(r))
    ensures ok ==> r.Normal() && !r.neg && r.Int() == NNModResult(old(m.Mag()), old(m.neg), old(d.Mag()), r == d)
  {
    hide Value;
    ghost var x, y := m.Mag(), d.Mag();
    ok := Div(null, r, m, d);
    if !ok {
      return;
    }
    NonNegativeRemainder(x, y);
    if x < y {
      SmallerDividend(x, y);
    }
    if !r.neg {
      return;
    }
    if d.neg {
      Sub(r, r, d);
    } else {
      Add(r, r, d);
    }
  }
}
