/**
 The rounds of long division on word arrays. A window slides down the shifted
 numerator; DivState is what every round keeps.
 */
module DivisionStep {
  import opened Words
  import opened BigNumArith
  import opened QuotientDigit

  /**
   R is the numerator array, reduced in place; Q holds the quotient words; S is
   the normalised divisor. The window at lo is below the divisor, everything
   above it is zero, and the quotient words found so far account for the rest.
   */
  ghost predicate DivState(R: seq<Word>, Q: seq<Word>, S: seq<Word>, total: nat, lo: nat, rtop: nat) {
    DivShape(R, Q, S, lo, rtop) && DivAccount(R, Q, S, total, lo, rtop)
  }

  ghost predicate DivShape(R: seq<Word>, Q: seq<Word>, S: seq<Word>, lo: nat, rtop: nat) {
    && 1 <= lo && lo + |S| <= |R| && lo - 1 <= rtop <= |Q|
    && Value(R[lo..lo + |S|]) < Value(S)
    && (forall i :: lo + |S| <= i < |R| ==> R[i] == 0)
  }

  ghost predicate DivAccount(R: seq<Word>, Q: seq<Word>, S: seq<Word>, total: nat, lo: nat, rtop: nat)
    requires 1 <= lo && lo - 1 <= rtop <= |Q|
  {
    total == Account(Value(R), Value(S), Pow(lo), Value(Q[lo - 1..rtop]))
  }

  /** What is left of the numerator, plus the divisor times the quotient found so far. */
  ghost function Account(left: nat, d: nat, weight: nat, quotient: nat): nat {
    left + d * (weight * quotient)
  }

  ghost predicate Normalised(S: seq<Word>) {
    |S| > 0 && S[|S| - 1] >= BASE / 2
  }

  // ---- the digit ----

  lemma ValueTopTwo(s: seq<Word>)
    requires |s| >= 2
    ensures Value(s) == Value(s[..|s| - 2]) + Pow(|s| - 2) * (s[|s| - 2] + BASE * s[|s| - 1])
  {
    var k := |s| - 2;
    ValueSplit(s, k);
    assert s[k..][1..] == [s[k + 1]];
    ValueOne(s[k + 1]);
  }

  lemma ValueTopThree(s: seq<Word>)
    requires |s| >= 3
    ensures Value(s) == Value(s[..|s| - 3])
                        + Pow(|s| - 3) * (s[|s| - 3] + BASE * (s[|s| - 2] + BASE * s[|s| - 1]))
  {
    var k := |s| - 3;
    ValueSplit(s, k);
    ValueThree(s[k..]);
  }

  lemma ValueThree(t: seq<Word>)
    requires |t| == 3
    ensures Value(t) == t[0] + BASE * (t[1] + BASE * t[2])
  {
    assert t[1..][1..] == [t[2]];
    ValueOne(t[2]);
  }

  /** The window's top word never exceeds the divisor's. */
  lemma TopWordBound(X: seq<Word>, S: seq<Word>)
    requires |X| == |S| > 0 && Value(X) < Value(S)
    ensures X[|S| - 1] <= S[|S| - 1]
  {
    var k := |S| - 1;
    ValueLast(X);
    ValueLast(S);
    ValueBound(S[..k]);
    if X[k] > S[k] {
      DigitDecides(Value(S[..k]), Pow(k), S[k], X[k]);
    }
  }

  /** What makes an estimate good enough: right, or one too big. */
  ghost predicate GoodEstimate(v: nat, d: nat, q: nat) {
    d > 0 && v / d <= q <= v / d + 1
  }

  lemma WindowBound(W: seq<Word>, d: nat)
    requires |W| > 0 && Value(W[1..]) < d
    ensures Value(W) < d * BASE
  {
  }

  lemma FactorForm(v: nat, low: nat, p: nat, x: nat, u: nat)
    requires v == low + p * x && x == u
    ensures v == u * p + low
  {
  }

  lemma AllOnesBound(v: nat, low: nat, p: nat, b: nat, x: nat)
    requires v == low + (b * p) * x
    ensures x * (b * p) <= v
  {
  }

  /** Equal top words: the all-ones digit is good enough. */
  lemma AllOnesGood(W: seq<Word>, S: seq<Word>)
    requires Normalised(S) && |W| == |S| + 1 && Value(W[1..]) < Value(S)
    requires W[|S|] == S[|S| - 1]
    ensures GoodEstimate(Value(W), Value(S), BASE - 1)
  {
    var k, d0 := |S| - 1, S[|S| - 1];
    var low, p, v, d := Value(S[..k]), Pow(k), Value(W), Value(S);
    ValueLast(S);
    ValueBound(S[..k]);
    ValueLast(W);
    WindowBound(W, d);
    FactorForm(d, low, p, d0, d0);
    AllOnesBound(v, Value(W[..k + 1]), p, BASE, d0);
    EstimateAllOnes(d0, p, low, v, d);
  }

  /** The three-word estimate is good enough. */
  lemma ThreeWordsGood(W: seq<Word>, S: seq<Word>, q: Word)
    requires Normalised(S) && |S| >= 2 && |W| == |S| + 1
    requires q == ((W[|S|] * BASE + W[|S| - 1]) * BASE + W[|S| - 2]) / (S[|S| - 1] * BASE + S[|S| - 2])
    ensures GoodEstimate(Value(W), Value(S), q)
  {
    hide Value, Pow, GoodEstimate;
    var n := |S|;
    ValueTopThree(W);
    ValueTopTwo(S);
    ValueBound(W[..n - 2]);
    ValueBound(S[..n - 2]);
    ThreeWordsScalar(W[n], W[n - 1], W[n - 2], S[n - 1], S[n - 2], Pow(n - 2),
                     Value(W[..n - 2]), Value(S[..n - 2]), Value(W), Value(S), q);
  }

  lemma ThreeWordsScalar(n0: Word, n1: Word, n2: Word, d0: Word, d1: Word, p: nat,
                         vlow: nat, dlow: nat, v: nat, d: nat, q: Word)
    requires d0 >= BASE / 2 && p > 0 && vlow < p && dlow < p
    requires v == vlow + p * (n2 + BASE * (n1 + BASE * n0))
    requires d == dlow + p * (d1 + BASE * d0)
    requires q == ((n0 * BASE + n1) * BASE + n2) / (d0 * BASE + d1)
    ensures GoodEstimate(v, d, q)
  {
    var u, e := (n0 * BASE + n1) * BASE + n2, d0 * BASE + d1;
    FactorForm(v, vlow, p, n2 + BASE * (n1 + BASE * n0), u);
    FactorForm(d, dlow, p, d1 + BASE * d0, e);
    EstimateFromPrefix(u, e, p, vlow, dlow, v, d, q);
  }

  lemma DropZeroFactor(u: nat, n2: Word, d: nat)
    requires d > 0
    ensures (u * BASE + n2) / (d * BASE) == u / d
  {
    QuotientSpec(u, d);
    var q := u / d;
    assert (q * d) * BASE <= u * BASE;
    assert u + 1 <= (q + 1) * d;
    MulMonotone(BASE, u + 1, (q + 1) * d);
    assert q * (d * BASE) == (q * d) * BASE;
    assert (q + 1) * (d * BASE) == BASE * ((q + 1) * d);
    QuotientUnique(u * BASE + n2, d * BASE, q);
  }

  /** A one-word divisor: the estimate is the true digit. */
  lemma OneWordGood(W: seq<Word>, S: seq<Word>, n2: Word, q: Word)
    requires Normalised(S) && |S| == 1 && |W| == 2
    requires q == ((W[1] * BASE + W[0]) * BASE + n2) / (S[0] * BASE + 0)
    ensures GoodEstimate(Value(W), Value(S), q)
  {
    assert S == [S[0]];
    ValueOne(S[0]);
    assert W[1..] == [W[1]];
    ValueOne(W[1]);
    DropZeroFactor(W[1] * BASE + W[0], n2, S[0]);
  }

  /** The digit for one window; below is the numerator word under a one-word window. */
  method WindowDigit(W: seq<Word>, S: seq<Word>, n2: Word) returns (q: Word)
    requires Normalised(S) && |W| == |S| + 1 && Value(W[1..]) < Value(S)
    requires |S| >= 2 ==> n2 == W[|S| - 2]
    ensures GoodEstimate(Value(W), Value(S), q)
  {
    var n := |S|;
    var d0 := S[n - 1];
    var d1 := if n == 1 then 0 else S[n - 2];
    var n0, n1 := W[n], W[n - 1];
    TopWordBound(W[1..], S);
    if n0 == d0 {
      AllOnesGood(W, S);
      return BASE - 1;
    }
    q := EstimateDigit(n0, n1, n2, d0, d1);
    if n == 1 {
      OneWordGood(W, S, n2, q);
    } else {
      ThreeWordsGood(W, S, q);
    }
  }

  // ---- multiply, subtract, add back ----

  lemma NoBorrowExact(v: nat, d: nat, q: nat, w: nat, p: nat, borrow: nat)
    requires GoodEstimate(v, d, q) && v < p && w < p && borrow <= 1
    requires w + q * d == v + p * borrow
    ensures borrow == 0 ==> q == v / d && w == v % d
    ensures borrow == 1 ==> q == v / d + 1 && w == v % d + p - d
  {
    QuotientSpec(v, d);
    assert (v / d + 1) * d == (v / d) * d + d;
    if q == v / d {
      assert borrow == 0;
    }
  }

  lemma RemainderBelow(v: nat, d: nat)
    requires d > 0
    ensures v % d < d
  {
  }

  /** An n + 1 word array whose value fits n words has a zero top word. */
  lemma TopWordZero(W: seq<Word>, d: nat)
    requires |W| > 0 && Value(W) < d <= Pow(|W| - 1)
    ensures W[|W| - 1] == 0 && Value(W[..|W| - 1]) == Value(W)
  {
    ValueLast(W);
    if W[|W| - 1] != 0 {
      ValueTopNonzero(W);
    }
  }

  lemma AddBackScalar(low: nat, top: nat, p: nat, b: nat, s: nat, x: nat, c: nat, r: nat)
    requires low + p * top == r + b * p - s && r < s < p
    requires low < p && x < p && c <= 1 && top < b
    requires x + p * c == low + s
    ensures c == 1 && top == b - 1 && x == r
  {
    assert p * (b - 1) == b * p - p;
    if top < b - 1 {
      MulMonotone(p, top + 1, b - 1);
      assert false;
    }
    assert low == r + p - s;
  }

  lemma LargestWordWraps(w: Word)
    requires w == BASE - 1
    ensures (w + 1) % BASE == 0
  {
  }

  /** The top word after a borrow is all ones, and the add-back carries into it. */
  lemma AddBackExact(W: seq<Word>, S: seq<Word>, X: seq<Word>, c: nat, r: nat)
    requires |W| == |S| + 1 && |X| == |S| && c <= 1
    requires Value(W) == r + Pow(|S| + 1) - Value(S) && r < Value(S)
    requires Value(X) + Pow(|S|) * c == Value(W[..|S|]) + Value(S)
    ensures c == 1 && (W[|S|] + 1) % BASE == 0 && Value(X) == r
  {
    hide Value, Pow;
    var n, p := |S|, Pow(|S|);
    PowSuccessor(n);
    ValueLast(W);
    ValueBound(S);
    ValueBound(W[..n]);
    ValueBound(X);
    var low, s, x := Value(W[..n]), Value(S), Value(X);
    AddBackScalar(low, W[n], p, BASE, s, x, c, r);
    LargestWordWraps(W[n]);
  }

  /** One window reduced: its new words hold the remainder, q the true digit. */
  method ReduceWindow(W: seq<Word>, S: seq<Word>, n2: Word) returns (W': seq<Word>, q: Word)
    requires Normalised(S) && |W| == |S| + 1 && Value(W[1..]) < Value(S)
    requires |S| >= 2 ==> n2 == W[|S| - 2]
    ensures |W'| == |W| && Value(S) > 0
    ensures Value(W) == q * Value(S) + Value(W')
    ensures W'[|S|] == 0 && Value(W'[..|S|]) < Value(S)
  {
    hide Pow;
    var n := |S|;
    q := WindowDigit(W, S, n2);
    var prod, l0 := MulWords(S, q);
    var tmp := prod + [l0];
    var borrow;
    W', borrow := SubWords(W, tmp);
    ValueBound(W);
    ValueBound(W');
    ValueBound(S);
    NoBorrowExact(Value(W), Value(S), q, Value(W'), Pow(n + 1), borrow);
    RemainderBelow(Value(W), Value(S));
    if borrow != 0 {
      q := q - 1;
      var X, c := AddWords(W'[..n], S);
      AddBackExact(W', S, X, c, Value(W) % Value(S));
      if c != 0 {
        W' := X + [(W'[n] + 1) % BASE];
      }
      assert W'[..n] == X;
      ValueSnoc(X, 0);
    }
    TopWordZero(W', Value(S));
    QuotientSpec(Value(W), Value(S));
  }

  // ---- one round on the whole state ----

  /** An array with zeros above its window. */
  lemma ValueWindow(R: seq<Word>, lo: nat, hi: nat)
    requires lo <= hi <= |R| && forall i :: hi <= i < |R| ==> R[i] == 0
    ensures Value(R) == Value(R[..lo]) + Pow(lo) * Value(R[lo..hi])
  {
    ValueZeros(R[hi..]);
    assert R[lo..] == R[lo..hi] + R[hi..];
    ValueConcat(R[lo..hi], R[hi..]);
    ValueSplit(R, lo);
  }

  lemma RoundArithmetic(left: nat, left': nat, low: nat, p: nat, w: nat, w': nat, d: nat, q: nat, b: nat, qs: nat, qs': nat)
    requires w == q * d + w' && qs' == q + b * qs
    requires left == low + p * w && left' == low + p * w'
    ensures Account(left', d, p, qs') == Account(left, d, b * p, qs)
  {
    assert p * (q * d + w') == p * (q * d) + p * w';
    assert p * (q + b * qs) == p * q + p * (b * qs);
    assert d * (p * q + p * (b * qs)) == d * (p * q) + d * (p * (b * qs));
    assert p * (q * d) == d * (p * q);
    assert p * (b * qs) == (b * p) * qs;
  }

  function ReplaceWindow(R: seq<Word>, lo: nat, W': seq<Word>): (R': seq<Word>)
    requires 1 <= lo && lo - 1 + |W'| <= |R|
    ensures |R'| == |R|
  {
    R[..lo - 1] + W' + R[lo - 1 + |W'|..]
  }

  lemma ReplaceShape(R: seq<Word>, lo: nat, W': seq<Word>, n: nat)
    requires 1 <= lo && |W'| == n + 1 && lo + n <= |R|
    requires forall i :: lo + n <= i < |R| ==> R[i] == 0
    requires W'[n] == 0
    ensures var R' := ReplaceWindow(R, lo, W');
            && R'[lo - 1..lo - 1 + n] == W'[..n] && R'[lo - 1..lo + n] == W' && R'[..lo - 1] == R[..lo - 1]
            && forall i :: lo - 1 + n <= i < |R'| ==> R'[i] == 0
  {
  }

  lemma ReplaceValue(R: seq<Word>, lo: nat, W': seq<Word>, n: nat)
    requires 1 <= lo && |W'| == n + 1 && lo + n <= |R|
    requires forall i :: lo + n <= i < |R| ==> R[i] == 0
    requires W'[n] == 0
    ensures Value(R) == Value(R[..lo - 1]) + Pow(lo - 1) * Value(R[lo - 1..lo + n])
    ensures Value(ReplaceWindow(R, lo, W')) == Value(R[..lo - 1]) + Pow(lo - 1) * Value(W')
  {
    ReplaceShape(R, lo, W', n);
    ValueWindow(R, lo - 1, lo + n);
    ValueWindow(ReplaceWindow(R, lo, W'), lo - 1, lo + n);
  }

  lemma RecordDigit(Q: seq<Word>, lo: nat, rtop: nat, q: Word)
    requires lo >= 2 && lo - 2 < rtop <= |Q|
    ensures Value(Q[lo - 2 := q][lo - 2..rtop]) == q + BASE * Value(Q[lo - 1..rtop])
  {
    assert Q[lo - 2 := q][lo - 2..rtop][1..] == Q[lo - 1..rtop];
  }

  lemma PowSucc(k: nat)
    ensures Pow(k + 1) == BASE * Pow(k)
  {
  }

  lemma RoundShape(R: seq<Word>, Q: seq<Word>, S: seq<Word>, lo: nat, rtop: nat, W': seq<Word>, q: Word)
    requires lo >= 2 && DivShape(R, Q, S, lo, rtop) && lo - 2 < rtop
    requires |W'| == |S| + 1 && W'[|S|] == 0 && Value(W'[..|S|]) < Value(S)
    ensures DivShape(ReplaceWindow(R, lo, W'), Q[lo - 2 := q], S, lo - 1, rtop)
  {
    hide Pow, Value;
    ReplaceShape(R, lo, W', |S|);
  }

  lemma RoundAccount(R: seq<Word>, Q: seq<Word>, S: seq<Word>, total: nat, lo: nat, rtop: nat, W': seq<Word>, q: Word)
    requires lo >= 2 && lo - 2 < rtop <= |Q| && DivAccount(R, Q, S, total, lo, rtop)
    requires lo + |S| <= |R| && forall i :: lo + |S| <= i < |R| ==> R[i] == 0
    requires |W'| == |S| + 1 && W'[|S|] == 0
    requires Value(R[lo - 1..lo + |S|]) == q * Value(S) + Value(W')
    ensures DivAccount(ReplaceWindow(R, lo, W'), Q[lo - 2 := q], S, total, lo - 1, rtop)
  {
    hide Pow, Account, Value;
    PowSucc(lo - 1);
    var n, R', Q' := |S|, ReplaceWindow(R, lo, W'), Q[lo - 2 := q];
    ReplaceValue(R, lo, W', n);
    RecordDigit(Q, lo, rtop, q);
    RoundArithmetic(Value(R), Value(R'), Value(R[..lo - 1]), Pow(lo - 1), Value(R[lo - 1..lo + n]), Value(W'),
                    Value(S), q, BASE, Value(Q[lo - 1..rtop]), Value(Q'[lo - 2..rtop]));
  }

  /** Replacing the window by its remainder and recording the digit keeps the state. */
  lemma RoundKeeps(R: seq<Word>, Q: seq<Word>, S: seq<Word>, total: nat, lo: nat, rtop: nat, W': seq<Word>, q: Word)
    requires lo >= 2 && DivState(R, Q, S, total, lo, rtop)
    requires |W'| == |S| + 1
    requires Value(R[lo - 1..lo + |S|]) == q * Value(S) + Value(W')
    requires W'[|S|] == 0 && Value(W'[..|S|]) < Value(S)
    requires lo - 2 < rtop
    ensures DivState(ReplaceWindow(R, lo, W'), Q[lo - 2 := q], S, total, lo - 1, rtop)
  {
    RoundShape(R, Q, S, lo, rtop, W', q);
    RoundAccount(R, Q, S, total, lo, rtop, W', q);
  }

  lemma SliceOfPrefix(d: seq<Word>, k: nat, i: nat, j: nat)
    requires i <= j <= k <= |d|
    ensures d[i..j] == d[..k][i..j]
  {
  }

  /** The round as it is written into the numerator's storage, which may be longer than the number. */
  lemma RoundOnArray(d: seq<Word>, Q: seq<Word>, S: seq<Word>, total: nat, numN: nat, lo: nat, rtop: nat,
                     W': seq<Word>, q: Word)
    requires numN <= |d| && lo >= 2 && lo + |S| <= numN && DivState(d[..numN], Q, S, total, lo, rtop)
    requires |W'| == |S| + 1 && lo - 2 < rtop
    requires Value(d[lo - 1..lo + |S|]) == q * Value(S) + Value(W')
    requires W'[|S|] == 0 && Value(W'[..|S|]) < Value(S)
    ensures |d[..lo - 1] + W' + d[lo + |S|..]| == |d|
    ensures DivState((d[..lo - 1] + W' + d[lo + |S|..])[..numN], Q[lo - 2 := q], S, total, lo - 1, rtop)
  {
    hide *;
    SliceOfPrefix(d, numN, lo - 1, lo + |S|);
    RoundKeeps(d[..numN], Q, S, total, lo, rtop, W', q);
    PrefixReplaced(d, numN, lo, W');
  }

  lemma PrefixReplaced(d: seq<Word>, numN: nat, lo: nat, W': seq<Word>)
    requires 1 <= lo && lo - 1 + |W'| <= numN <= |d|
    ensures |d[..lo - 1] + W' + d[lo - 1 + |W'|..]| == |d|
    ensures (d[..lo - 1] + W' + d[lo - 1 + |W'|..])[..numN] == ReplaceWindow(d[..numN], lo, W')
  {
  }

  lemma WindowOnArray(d: seq<Word>, Q: seq<Word>, S: seq<Word>, numN: nat, lo: nat, rtop: nat)
    requires numN <= |d| && lo + |S| <= numN && DivShape(d[..numN], Q, S, lo, rtop)
    ensures lo >= 1 && Value(d[lo - 1..lo + |S|][1..]) < Value(S)
  {
    hide Value;
    assert d[lo - 1..lo + |S|][1..] == d[lo..lo + |S|];
    SliceOfPrefix(d, numN, lo, lo + |S|);
  }

  /** The first comparison: at most one divisor fits the window of a normalised numerator. */
  lemma FirstWindow(R: seq<Word>, S: seq<Word>, X: seq<Word>, lo: nat)
    requires Normalised(S) && |R| == lo + |S| && |X| == |S| && lo >= 1
    requires Value(X) + Value(S) == Value(R[lo..])
    ensures Value(X) < Value(S)
  {
    var k := |S| - 1;
    ValueBound(R[lo..]);
    ValueLast(S);
    HalfBound(Pow(k), S[k], Value(S));
  }

  lemma HalfBound(p: nat, top: nat, v: nat)
    requires top >= BASE / 2 && v >= p * top
    ensures 2 * v >= BASE * p
  {
    MulMonotone(p, BASE / 2, top);
  }

  lemma StartArithmetic(left: nat, left': nat, low: nat, p: nat, w: nat, x: nat, d: nat)
    requires w == x + d && left == low + p * w && left' == low + p * x
    ensures Account(left', d, p, 1) == left
  {
    assert p * (x + d) == p * x + p * d;
  }

  /** Start with a leading one: the window has been reduced once. */
  lemma StartWithOne(R: seq<Word>, S: seq<Word>, X: seq<Word>, Q: seq<Word>, lo: nat)
    requires Normalised(S) && |R| == lo + |S| && |X| == |S| && lo >= 1
    requires Value(X) + Value(S) == Value(R[lo..])
    requires |Q| >= lo && Q[lo - 1] == 1
    ensures DivState(R[..lo] + X, Q, S, Value(R), lo, lo)
  {
    FirstWindow(R, S, X, lo);
    var R' := R[..lo] + X;
    assert R'[lo..lo + |S|] == X;
    assert Q[lo - 1..lo] == [1];
    ValueOne(1);
    ValueSplit(R, lo);
    ValueConcat(R[..lo], X);
    StartArithmetic(Value(R), Value(R'), Value(R[..lo]), Pow(lo), Value(R[lo..]), Value(X), Value(S));
  }

  lemma StartWithoutOne(R: seq<Word>, S: seq<Word>, Q: seq<Word>, lo: nat)
    requires |R| == lo + |S| && lo >= 1 && Value(R[lo..]) < Value(S) && |Q| >= lo
    ensures DivState(R, Q, S, Value(R), lo, lo - 1)
  {
    assert R[lo..lo + |S|] == R[lo..];
    assert Q[lo - 1..lo - 1] == [];
  }

  // ---- what is left at the end ----

  lemma EndArithmetic(r0: nat, rr: nat, b: nat, d: nat, q: nat, m: nat)
    requires b > 1 && r0 < b && b * m == (r0 + b * rr) + d * (b * q)
    ensures r0 == 0 && m == rr + d * q
  {
    assert d * (b * q) == b * (d * q);
    var t := m - rr - d * q;
    assert b * t == b * m - b * rr - b * (d * q) == r0;
    if t >= 1 {
      MulMonotone(b, 1, t);
    }
    if t <= -1 {
      MulMonotone(b, t, -1);
    }
  }

  /** After the last round the array holds BASE times the remainder, and Q the quotient. */
  lemma DivisionDone(R: seq<Word>, Q: seq<Word>, S: seq<Word>, m: nat, rtop: nat)
    requires DivState(R, Q, S, BASE * m, 1, rtop)
    ensures Value(S) > 0 && Value(Q[..rtop]) == m / Value(S)
    ensures Value(R) == BASE * (m % Value(S))
  {
    var hi := 1 + |S|;
    ValueWindow(R, 1, hi);
    assert R[..1] == [R[0]];
    ValueOne(R[0]);
    assert Pow(0) == 1 && Pow(1) == BASE;
    var rr := Value(R[1..hi]);
    assert Q[0..rtop] == Q[..rtop];
    EndArithmetic(R[0], rr, BASE, Value(S), Value(Q[..rtop]), m);
    DivModUnique(m, Value(S), Value(Q[..rtop]), rr);
  }

  lemma DivModUnique(m: nat, d: nat, q: nat, r: nat)
    requires r < d && m == r + d * q
    ensures m / d == q && m % d == r
  {
    QuotientUnique(m, d, q) by {
      assert (q + 1) * d == q * d + d;
    }
    QuotientSpec(m, d);
  }
}
