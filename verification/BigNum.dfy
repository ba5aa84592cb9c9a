/** Sign-magnitude numbers on growable word arrays, with the operations that update them in place. */
module BigNums {
  import opened Words
  import opened Bits
  import opened NumberTheory

  class BigNum {
    var d: seq<Word>  // allocated words; those at and above top hold no meaning
    var top: nat      // words in use
    var neg: bool

    predicate Valid()
      reads this
    {
      top <= |d|
    }

    /** No leading zero word: the form every operation expects and delivers. */
    predicate Normal()
      reads this
    {
      top <= |d| && (top > 0 ==> d[top - 1] != 0)
    }

    function Mag(): nat
      reads this
      requires Valid()
    {
      Value(d[..top])
    }

    function Int(): int
      reads this
      requires Valid()
    {
      var m: int := Mag();
      if neg then -m else m
    }

    constructor ()
      ensures Normal() && Mag() == 0 && !neg
    {
      d := [];
      top := 0;
      neg := false;
    }

    /** bn_wexpand: room for n words; words gained hold arbitrary content. */
    method WExpand(n: nat)
      modifies this`d
      ensures |d| >= n && old(d) <= d
    {
      if n > |d| {
        var k := n - |d|;
        assert |Zeros(k)| == k;
        var junk: seq<Word> :| |junk| == k;
        d := d + junk;
      }
    }

    /** bn_correct_top: drops leading zero words. */
    method CorrectTop()
      requires Valid()
      modifies this`top
      ensures Normal() && top <= old(top)
      ensures Mag() == old(Mag())
    {
      while top > 0 && d[top - 1] == 0
        invariant top <= old(top)
        invariant Value(d[..top]) == old(Mag())
      {
        ValueLast(d[..top]);
        assert d[..top][..top - 1] == d[..top - 1];
        top := top - 1;
      }
    }
  }

  /** A nonzero value of the largest length has a nonzero top word. */
  lemma TopFromValue(s: seq<Word>)
    requires |s| > 0 && Value(s) >= Pow(|s| - 1)
    ensures s[|s| - 1] != 0
  {
    ValueLast(s);
    ValueBound(s[..|s| - 1]);
  }

  predicate LowBitsClear(w: Word, k: nat) {
    w % Pow2(k) == 0
  }

  /** One step of the left shift: l joins below s, its high bits falling into the lowest word of s. */
  lemma ShiftLeftStep(l: Word, s: seq<Word>, k: nat)
    requires 0 < k < 32 && |s| > 0 && LowBitsClear(s[0], k)
    ensures BitOr(s[0], Shr(l, 32 - k)) < BASE
    ensures Value([Shl(l, k)] + s[0 := BitOr(s[0], Shr(l, 32 - k))]) == l * Pow2(k) + BASE * Value(s)
  {
    var p := Pow2(k);
    ShiftSplit(l, k);
    var c := Shr(l, 32 - k);
    BitOrSymmetric(s[0], c);
    BitOrDisjoint(c, s[0], k);
    Pow2Word(k);
    RoomAbove(s[0], p, Pow2(32 - k), c);
    var s' := s[0 := s[0] + c];
    assert s'[1..] == s[1..];
    assert ([Shl(l, k)] + s')[1..] == s';
  }

  /** A multiple of p in a word of size p * q leaves room for anything below p. */
  lemma RoomAbove(x: nat, p: nat, q: nat, c: nat)
    requires p > 0 && x % p == 0 && x < p * q && c < p
    ensures x + c < p * q
  {
    var t := x / p;
    assert x == p * t;
    if t >= q {
      MulMonotone(p, q, t);
      assert false;
    }
    MulMonotone(p, t + 1, q);
    assert p * (t + 1) == p * t + p;
  }

  lemma {:induction false} BitOrSymmetric(a: nat, b: nat)
    ensures BitOr(a, b) == BitOr(b, a)
    decreases a + b
  {
    if a != 0 || b != 0 {
      BitOrSymmetric(a / 2, b / 2);
    }
  }

  lemma ScaleSum(l: nat, v: nat, p: nat)
    ensures (l + BASE * v) * p == l * p + BASE * (v * p)
  {
  }

  lemma ShiftLeftWeighs(l: Word, s: seq<Word>, k: nat, v: nat)
    requires 0 < k < 32 && |s| > 0 && LowBitsClear(s[0], k)
    requires Value(s) == v * Pow2(k)
    ensures BitOr(s[0], Shr(l, 32 - k)) < BASE
    ensures Value([Shl(l, k)] + s[0 := BitOr(s[0], Shr(l, 32 - k))]) == (l + BASE * v) * Pow2(k)
    ensures LowBitsClear(Shl(l, k), k)
  {
    ShiftLeftStep(l, s, k);
    ScaleSum(l, v, Pow2(k));
    ShiftSplit(l, k);
  }

  /** The words of R from nw + i up hold F's words from i up, shifted left by k bits. */
  ghost predicate LiftSoFar(R: seq<Word>, F: seq<Word>, nw: nat, k: nat, i: nat) {
    i <= |F| && nw + |F| < |R| && LowBitsClear(R[nw + i], k)
    && Value(R[nw + i..nw + |F| + 1]) == Value(F[i..]) * Pow2(k)
  }

  lemma LiftStep(R: seq<Word>, F: seq<Word>, nw: nat, k: nat, i: nat)
    requires 0 < k < 32 && 0 < i && LiftSoFar(R, F, nw, k, i)
    ensures BitOr(R[nw + i], Shr(F[i - 1], 32 - k)) < BASE
    ensures LiftSoFar(R[nw + i := BitOr(R[nw + i], Shr(F[i - 1], 32 - k))][nw + i - 1 := Shl(F[i - 1], k)],
                      F, nw, k, i - 1)
  {
    var hi, l := nw + |F| + 1, F[i - 1];
    var s := R[nw + i..hi];
    ShiftLeftWeighs(l, s, k, Value(F[i..]));
    var x := BitOr(R[nw + i], Shr(l, 32 - k));
    var R' := R[nw + i := x][nw + i - 1 := Shl(l, k)];
    assert R'[nw + i - 1..hi] == [Shl(l, k)] + s[0 := x];
    assert F[i - 1..][1..] == F[i..];
  }

  lemma LiftWordStep(R: seq<Word>, F: seq<Word>, nw: nat, i: nat)
    requires 0 < i && LiftSoFar(R, F, nw, 0, i)
    ensures LiftSoFar(R[nw + i - 1 := F[i - 1]], F, nw, 0, i - 1)
  {
    var hi := nw + |F| + 1;
    var R' := R[nw + i - 1 := F[i - 1]];
    assert R'[nw + i - 1..hi][1..] == R[nw + i..hi];
    assert F[i - 1..][1..] == F[i..];
  }

  lemma LiftStart(R: seq<Word>, F: seq<Word>, nw: nat, k: nat)
    requires nw + |F| < |R| && R[nw + |F|] == 0
    ensures LiftSoFar(R, F, nw, k, |F|)
  {
    assert R[nw + |F|..nw + |F| + 1] == [0];
    assert F[|F|..] == [];
  }

  lemma ScaleAssoc(x: nat, p: nat, v: nat, q: nat, d: nat)
    requires x == p * (v * q) && d == p * q
    ensures x == v * d
  {
    MulAssoc(v, p, q);
    MulAssoc(p, v, q);
  }

  /** The low nw zero words and the bit shift together scale by 2^n. */
  lemma ShiftLeftTotal(s: seq<Word>, nw: nat, v: nat, n: nat)
    requires nw <= |s| && n / 32 == nw
    requires forall i :: 0 <= i < nw ==> s[i] == 0
    requires Value(s[nw..]) == v * Pow2(n % 32)
    ensures Value(s) == v * Pow2(n)
  {
    hide Pow2, Pow;
    ValueSplit(s, nw);
    ValueZeros(s[..nw]);
    PowIsPow2(nw);
    Pow2Add(32 * nw, n % 32);
    assert 32 * nw + n % 32 == n;
    ScaleAssoc(Value(s), Pow(nw), v, Pow2(n % 32), Pow2(n));
  }

  /** The word loops of the left shift. They work from the top down, so r may be a. */
  method LiftWords(r: BigNum, a: BigNum, nw: nat, lb: nat, ghost F: seq<Word>)
    requires lb < 32 && a.top == |F| <= |a.d| && a.top + nw < |r.d|
    requires forall j :: 0 <= j < |F| ==> a.d[j] == F[j]
    requires LiftSoFar(r.d, F, nw, lb, |F|)
    modifies r`d
    ensures LiftSoFar(r.d, F, nw, lb, 0)
  {
    var rb := 32 - lb;
    var i: nat := a.top;
    if lb == 0 {
      while i > 0
        invariant i <= |F| <= |a.d|
        invariant forall j :: 0 <= j < i ==> a.d[j] == F[j]
        invariant LiftSoFar(r.d, F, nw, 0, i)
      {
        LiftWordStep(r.d, F, nw, i);
        i := i - 1;
        r.d := r.d[nw + i := a.d[i]];
      }
    } else {
      while i > 0
        invariant i <= |F| <= |a.d|
        invariant forall j :: 0 <= j < i ==> a.d[j] == F[j]
        invariant LiftSoFar(r.d, F, nw, lb, i)
      {
        LiftStep(r.d, F, nw, lb, i);
        i := i - 1;
        var l := a.d[i];
        r.d := r.d[nw + i + 1 := BitOr(r.d[nw + i + 1], Shr(l, rb))];
        r.d := r.d[nw + i := Shl(l, lb)];
      }
    }
  }

  /** Clearing the words below nw leaves F shifted by the whole distance. */
  lemma LiftDone(R: seq<Word>, F: seq<Word>, n: nat)
    requires LiftSoFar(R, F, n / 32, n % 32, 0)
    ensures Value((Zeros(n / 32) + R[n / 32..])[..|F| + n / 32 + 1]) == Value(F) * Pow2(n)
  {
    hide Pow2, Pow, Value, LowBitsClear;
    var nw, hi := n / 32, |F| + n / 32 + 1;
    var s := (Zeros(nw) + R[nw..])[..hi];
    assert s[nw..] == R[nw..hi];
    assert F[0..] == F;
    ShiftLeftTotal(s, nw, Value(F), n);
  }

  /** r := a * 2^n; r and a may be the same number. */
  method LShift(r: BigNum, a: BigNum, n: nat)
    requires a.Valid() && r.Valid()
    modifies r
    ensures r.Normal() && r.neg == old(a.neg)
    ensures r.Mag() == old(a.Mag()) * Pow2(n)
    ensures r.top <= old(a.top) + n / 32 + 1
  {
    ghost var F := a.d[..a.top];
    r.neg := a.neg;
    var nw, lb := n / 32, n % 32;
    r.WExpand(a.top + nw + 1);
    r.d := r.d[a.top + nw := 0];
    LiftStart(r.d, F, nw, lb);
    LiftWords(r, a, nw, lb, F);
    LiftDone(r.d, F, n);
    r.d := Zeros(nw) + r.d[nw..];
    r.top := a.top + nw + 1;
    r.CorrectTop();
  }

  /** Lengths of a normal word array and of its value agree. */
  lemma NumBitsOfWords(s: seq<Word>)
    requires |s| > 0 && s[|s| - 1] != 0
    ensures NumBits(Value(s)) == 32 * (|s| - 1) + NumBits(s[|s| - 1])
  {
    ValueLast(s);
    ValueBound(s[..|s| - 1]);
    PowIsPow2(|s| - 1);
    NumBitsScaled(Value(s), Value(s[..|s| - 1]), 32 * (|s| - 1), s[|s| - 1]);
  }

  lemma ScaleBounds(low: nat, p: nat, w: nat, lo: nat, hi: nat)
    requires low < p && lo <= w < hi
    ensures p * lo <= low + p * w < p * hi
  {
    MulMonotone(p, lo, w);
    MulMonotone(p, w + 1, hi);
  }

  /** A number above k bits adds its own length. */
  lemma NumBitsScaled(v: nat, low: nat, k: nat, w: nat)
    requires low < Pow2(k) && w > 0 && v == low + Pow2(k) * w
    ensures v > 0 && NumBits(v) == k + NumBits(w)
  {
    var b := NumBits(w);
    NumBitsBounds(w);
    Pow2Add(k, b);
    Pow2Add(k, b - 1);
    ScaleBounds(low, Pow2(k), w, Pow2(b - 1), Pow2(b));
    NumBitsUnique(v, k + b);
  }

  /** The 256-entry table of bit lengths. */
  function ByteBits(b: nat): nat
    requires b < 256
  {
    if b == 0 then 0 else if b < 2 then 1 else if b < 4 then 2 else if b < 8 then 3
    else if b < 16 then 4 else if b < 32 then 5 else if b < 64 then 6 else if b < 128 then 7 else 8
  }

  lemma ByteBitsRight(b: nat)
    requires b < 256
    ensures ByteBits(b) == NumBits(b)
  {
    if b > 0 {
      assert Pow2(0) == 1 && Pow2(1) == 2 && Pow2(2) == 4 && Pow2(3) == 8;
      assert Pow2(4) == 16 && Pow2(5) == 32 && Pow2(6) == 64 && Pow2(7) == 128 && Pow2(8) == 256;
      NumBitsUnique(b, ByteBits(b));
    }
  }

  lemma BitsFromByte(l: Word, k: nat)
    requires l / Pow2(k) < 256 && (k > 0 ==> l / Pow2(k) > 0)
    ensures NumBits(l) == k + ByteBits(l / Pow2(k))
  {
    ByteBitsRight(l / Pow2(k));
    if l > 0 {
      NumBitsSplit(l, k);
    } else if k > 0 {
      ModOf(0, Pow2(k), 0, 0);
    }
  }

  /** BN2_num_bits_word: finds the leading byte and looks its length up. */
  method NumBitsWord(l: Word) returns (b: nat)
    ensures b == NumBits(l)
  {
    assert Pow2(0) == 1 && Pow2(8) == 0x100;
    assert Pow2(16) == 0x1_0000;
    assert Pow2(24) == 0x100_0000;
    if l >= 0x1_0000 {
      if l >= 0x100_0000 {
        BitsFromByte(l, 24);
        b := ByteBits(l / 0x100_0000) + 24;
      } else {
        BitsFromByte(l, 16);
        b := ByteBits(l / 0x1_0000) + 16;
      }
    } else if l >= 0x100 {
      BitsFromByte(l, 8);
      b := ByteBits(l / 0x100) + 8;
    } else {
      BitsFromByte(l, 0);
      b := ByteBits(l);
    }
  }

  /** BN2_num_bits */
  method NumBitsOf(a: BigNum) returns (b: nat)
    requires a.Normal()
    ensures b == NumBits(a.Mag())
    ensures a.top > 0 ==> b == 32 * (a.top - 1) + NumBits(a.d[a.top - 1])
  {
    if a.top == 0 {
      return 0;
    }
    NumBitsOfWords(a.d[..a.top]);
    var w := NumBitsWord(a.d[a.top - 1]);
    b := 32 * (a.top - 1) + w;
  }

  /** One step of the right shift: the next word lends its low bits. */
  lemma ShiftRightStep(l: Word, m: Word, x: nat, k: nat)
    requires 0 < k < 32
    ensures BitOr(Shr(l, k), Shl(m, 32 - k)) < BASE
    ensures (l + BASE * (m + BASE * x)) / Pow2(k)
         == BitOr(Shr(l, k), Shl(m, 32 - k)) + BASE * ((m + BASE * x) / Pow2(k))
  {
    var c := Pow2(32 - k);
    DivLowWord(l, m + BASE * x, k);
    DivLowWord(m, x, k);
    ShiftSplit(m, 32 - k);
    ShiftSplit(l, 32 - k);
    BitOrDisjoint(Shr(l, k), Shl(m, 32 - k), 32 - k);
    Pow2Word(k);
    RoomAbove(Shl(m, 32 - k), c, Pow2(k), Shr(l, k));
    ShiftRightSum(Shr(l, k), m, x, c, Shl(m, 32 - k), Shr(m, k));
  }

  lemma ShiftRightSum(q: nat, m: nat, x: nat, c: nat, lo: nat, hi: nat)
    requires m * c == lo + BASE * hi
    ensures q + c * (m + BASE * x) == q + lo + BASE * (hi + c * x)
  {
    assert c * (m + BASE * x) == m * c + BASE * (c * x);
  }

  /** The quotient so far, extended by one word. */
  lemma QuotientWord(done: seq<Word>, w: Word, q0: nat, q1: nat, total: nat)
    requires q0 == w + BASE * q1
    requires total == Value(done) + Pow(|done|) * q0
    ensures total == Value(done + [w]) + Pow(|done| + 1) * q1
  {
    ValueSnoc(done, w);
    PowStep(|done|, w, q1);
  }

  /** What shifting the words of s right by k bits leaves. */
  ghost function Shifted(s: seq<Word>, k: nat): nat {
    DivShrinks(Value(s), Pow2(k));
    Value(s) / Pow2(k)
  }

  lemma ShiftedStep(s: seq<Word>, k: nat)
    requires 0 < k < 32 && |s| >= 2
    ensures BitOr(Shr(s[0], k), Shl(s[1], 32 - k)) < BASE
    ensures Shifted(s, k) == BitOr(Shr(s[0], k), Shl(s[1], 32 - k)) + BASE * Shifted(s[1..], k)
  {
    assert s[1..][0] == s[1];
    ShiftRightStep(s[0], s[1], Value(s[1..][1..]), k);
  }

  lemma ShiftedLast(s: seq<Word>, k: nat)
    requires |s| == 1
    ensures Shifted(s, k) == Shr(s[0], k)
  {
    assert s == [s[0]];
    ValueOne(s[0]);
  }

  /** The first k words of R are the low words of F shifted right; the rest is still to come. */
  ghost predicate DropSoFar(R: seq<Word>, F: seq<Word>, rb: nat, k: nat) {
    k < |F| && k <= |R| && Shifted(F, rb) == Value(R[..k]) + Pow(k) * Shifted(F[k..], rb)
  }

  lemma DropStep(R: seq<Word>, F: seq<Word>, rb: nat, k: nat)
    requires 0 < rb < 32 && DropSoFar(R, F, rb, k) && k + 1 < |F| && k < |R|
    ensures BitOr(Shr(F[k], rb), Shl(F[k + 1], 32 - rb)) < BASE
    ensures DropSoFar(R[k := BitOr(Shr(F[k], rb), Shl(F[k + 1], 32 - rb))], F, rb, k + 1)
  {
    ShiftedStep(F[k..], rb);
    assert F[k..][1..] == F[k + 1..];
    var w := BitOr(Shr(F[k], rb), Shl(F[k + 1], 32 - rb));
    QuotientWord(R[..k], w, Shifted(F[k..], rb), Shifted(F[k + 1..], rb), Shifted(F, rb));
    assert R[k := w][..k + 1] == R[..k] + [w];
  }

  lemma DropLast(R: seq<Word>, F: seq<Word>, rb: nat)
    requires |F| > 0 && DropSoFar(R, F, rb, |F| - 1)
    ensures Shr(F[|F| - 1], rb) == 0 ==> Value(R[..|F| - 1]) == Shifted(F, rb)
    ensures |F| <= |R| ==> Value(R[|F| - 1 := Shr(F[|F| - 1], rb)][..|F|]) == Shifted(F, rb)
  {
    var k := |F| - 1;
    var l := Shr(F[k], rb);
    ShiftedLast(F[k..], rb);
    if |F| <= |R| {
      QuotientWord(R[..k], l, l, 0, Shifted(F, rb));
      assert R[k := l][..k + 1] == R[..k] + [l];
    }
  }

  /** The word loop of the right shift by rb bits: i words of the quotient, written upwards so r may be a. */
  method DropBits(r: BigNum, a: BigNum, nw: nat, rb: nat, atop: nat, i: nat, ghost F: seq<Word>)
    requires 0 < rb < 32 && nw < atop <= |a.d| && F == a.d[nw..atop]
    requires i == if Shr(a.d[atop - 1], rb) != 0 then atop - nw else atop - nw - 1
    requires i <= |r.d|
    modifies r`d
    ensures i <= |r.d| && Value(r.d[..i]) == Shifted(F, rb)
  {
    var j := atop - nw;
    var l := a.d[nw];
    var k := 0;
    assert F[0..] == F;
    while k < j - 1
      invariant k <= j - 1 && i <= |r.d| && atop <= |a.d|
      invariant forall m :: k < m < |F| ==> a.d[nw + m] == F[m]
      invariant l == F[k]
      invariant DropSoFar(r.d, F, rb, k)
    {
      DropStep(r.d, F, rb, k);
      var tmp := Shr(l, rb);
      l := a.d[nw + k + 1];
      r.d := r.d[k := BitOr(tmp, Shl(l, 32 - rb))];
      k := k + 1;
    }
    DropLast(r.d, F, rb);
    l := Shr(l, rb);
    if l != 0 {
      r.d := r.d[k := l];
    }
  }

  lemma PowStep(k: nat, w: nat, x: nat)
    ensures Pow(k) * (w + BASE * x) == Pow(k) * w + Pow(k + 1) * x
  {
    MulAssoc(Pow(k), BASE, x);
  }

  /** The word loop of the right shift by whole words. */
  method DropWords(r: BigNum, a: BigNum, nw: nat, atop: nat, ghost F: seq<Word>)
    requires nw < atop <= |a.d| && |F| == atop - nw <= |r.d| && F == a.d[nw..atop]
    modifies r`d
    ensures |F| <= |r.d| && Value(r.d[..|F|]) == Shifted(F, 0)
  {
    var k := 0;
    while k < atop - nw
      invariant k <= atop - nw && |F| <= |r.d| && atop <= |a.d|
      invariant forall m :: k <= m < |F| ==> a.d[nw + m] == F[m]
      invariant r.d[..k] == F[..k]
    {
      r.d := r.d[k := a.d[nw + k]];
      k := k + 1;
    }
    assert F[..k] == F && Pow2(0) == 1;
  }

  /** The quotient by 2^n needs exactly the words its bit length asks for. */
  lemma ShiftRightLength(s: seq<Word>, n: nat)
    requires |s| > n / 32 && s[|s| - 1] != 0
    ensures 32 * (|s| - 1) + NumBits(s[|s| - 1]) - n + 31 >= 0
    ensures (32 * (|s| - 1) + NumBits(s[|s| - 1]) - n + 31) / 32
         == if Shr(s[|s| - 1], n % 32) != 0 then |s| - n / 32 else |s| - n / 32 - 1
  {
    NumBitsSplit(s[|s| - 1], n % 32);
    NumBitsOfWord(s[|s| - 1]);
  }

  lemma ShiftRightTotal(s: seq<Word>, n: nat)
    requires |s| > n / 32
    ensures Value(s) / Pow2(n) == Shifted(s[n / 32..], n % 32)
  {
    var nw := n / 32;
    ValueSplit(s, nw);
    ValueBound(s[..nw]);
    PowIsPow2(nw);
    Pow2Add(32 * nw, n % 32);
    DivCompose(Value(s), Pow2(n), Value(s[..nw]), Pow(nw), Value(s[nw..]), Pow2(n % 32));
  }

  /** Dividing a normal array by less than one word loses at most one word of length. */
  lemma ShiftRightNormal(s: seq<Word>, k: nat, q: seq<Word>)
    requires k < 32 && |s| > 0 && s[|s| - 1] != 0
    requires |q| == if Shr(s[|s| - 1], k) != 0 then |s| else |s| - 1
    requires Value(q) == Shifted(s, k)
    ensures |q| > 0 ==> q[|q| - 1] != 0
  {
    if |q| == 0 {
    } else if |q| == |s| {
      TopOfShifted(s, k);
      TopFromValue(q);
    } else {
      TopOfShorter(s, k);
      TopFromValue(q);
    }
  }

  lemma TopOfShifted(s: seq<Word>, k: nat)
    requires k < 32 && |s| > 0 && Shr(s[|s| - 1], k) != 0
    ensures Shifted(s, k) >= Pow(|s| - 1)
  {
    var m, p := |s| - 1, Pow2(k);
    if s[m] < p {
      ModOf(s[m], p, 0, s[m]);
    }
    ValueLast(s);
    MulMonotone(Pow(m), p, s[m]);
    QuotientAtLeast(Value(s), p, Pow(m));
  }

  lemma TopOfShorter(s: seq<Word>, k: nat)
    requires k < 32 && |s| > 1 && s[|s| - 1] != 0
    ensures Shifted(s, k) >= Pow(|s| - 2)
  {
    ValueTopNonzero(s);
    Pow2Word(k);
    MulMonotone(Pow2(k), 1, Pow2(32 - k));
    MulMonotone(Pow(|s| - 2), Pow2(k), BASE);
    QuotientAtLeast(Value(s), Pow2(k), Pow(|s| - 2));
  }

  /** Shifting out every word leaves nothing. */
  lemma ShiftRightAll(s: seq<Word>, n: nat)
    requires |s| <= n / 32
    ensures Value(s) / Pow2(n) == 0
  {
    ValueBound(s);
    PowIsPow2(|s|);
    Pow2Monotone(32 * |s|, n);
    ModOf(Value(s), Pow2(n), 0, Value(s));
  }

  lemma ShrZero(l: Word)
    ensures Shr(l, 0) == l
  {
    assert Pow2(0) == 1;
  }

  /** The right shift when some word survives, with the words left after whole-word shifting in F. */
  method RShiftSome(r: BigNum, a: BigNum, n: nat, ghost F: seq<Word>)
    requires a.Normal() && r.Valid() && n / 32 < a.top
    requires F == a.d[n / 32..a.top]
    modifies r
    ensures r.Normal() && r.Mag() == Shifted(F, n % 32)
    ensures r.neg == old(a.neg)
  {
    hide Pow2, Shr, NumBits, Shifted, Value;
    var nw, rb := n / 32, n % 32;
    var nb := NumBitsOf(a);
    ShiftRightLength(a.d[..a.top], n);
    var i := (nb - n + 31) / 32;
    if r != a {
      r.neg := a.neg;
      r.WExpand(i);
    }
    var atop := a.top;
    r.top := i;
    assert F[|F| - 1] == a.d[atop - 1];
    if rb == 0 {
      ShrZero(a.d[atop - 1]);
      DropWords(r, a, nw, atop, F);
    } else {
      DropBits(r, a, nw, rb, atop, i, F);
    }
    ShiftRightNormal(F, rb, r.d[..i]);
  }

  /** r := a / 2^n on magnitudes; r and a may be the same number. */
  method RShift(r: BigNum, a: BigNum, n: nat)
    requires a.Normal() && r.Valid()
    modifies r
    ensures r.Normal() && r.Mag() == old(a.Mag()) / Pow2(n)
    ensures r.neg == (old(a.neg) && n / 32 < old(a.top))
  {
    if n / 32 >= a.top {
      ShiftRightAll(a.d[..a.top], n);
      r.top := 0;
      r.neg := false;
      return;
    }
    if r == a && n == 0 {
      assert Pow2(0) == 1;
      return;
    }
    ShiftRightTotal(a.d[..a.top], n);
    assert a.d[..a.top][n / 32..] == a.d[n / 32..a.top];
    RShiftSome(r, a, n, a.d[n / 32..a.top]);
  }
}
