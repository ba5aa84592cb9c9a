/** Addition, subtraction, comparison and one-bit shifts of word-array numbers, in place. */
module BigNumArith {
  import opened Words
  import opened Bits
  import opened BigNums

  // ---- word-array primitives (bn_add_words, bn_sub_words, bn_mul_words) ----

  lemma CarryStep(k: nat, x: nat, y: nat, s: nat, c: nat, c': nat, vx: nat, vy: nat, vs: nat)
    requires vs + Pow(k) * c == vx + vy
    requires s + BASE * c' == x + y + c
    ensures (vs + Pow(k) * s) + Pow(k + 1) * c' == (vx + Pow(k) * x) + (vy + Pow(k) * y)
  {
    var p := Pow(k);
    MulAssoc(p, BASE, c');
    assert p * (s + BASE * c') == p * (x + y + c);
    assert p * (x + y + c) == p * x + p * y + p * c;
    assert p * (s + BASE * c') == p * s + p * (BASE * c');
  }

  lemma ValueTake(s: seq<Word>, k: nat)
    requires k < |s|
    ensures Value(s[..k + 1]) == Value(s[..k]) + Pow(k) * s[k]
  {
    assert s[..k + 1] == s[..k] + [s[k]];
    ValueSnoc(s[..k], s[k]);
  }

  method AddWords(a: seq<Word>, b: seq<Word>) returns (s: seq<Word>, carry: nat)
    requires |a| == |b|
    ensures |s| == |a| && carry <= 1
    ensures Value(s) + Pow(|a|) * carry == Value(a) + Value(b)
  {
    s, carry := [], 0;
    for k := 0 to |a|
      invariant |s| == k && carry <= 1
      invariant Value(s) + Pow(k) * carry == Value(a[..k]) + Value(b[..k])
    {
      var t: nat := a[k] + b[k] + carry;
      var w, c := t % BASE, t / BASE;
      CarryStep(k, a[k], b[k], w, carry, c, Value(a[..k]), Value(b[..k]), Value(s));
      ValueTake(a, k);
      ValueTake(b, k);
      ValueSnoc(s, w);
      s, carry := s + [w], c;
    }
    assert a[..|a|] == a && b[..|b|] == b;
  }

  method SubWords(a: seq<Word>, b: seq<Word>) returns (s: seq<Word>, borrow: nat)
    requires |a| == |b|
    ensures |s| == |a| && borrow <= 1
    ensures Value(s) + Value(b) == Value(a) + Pow(|a|) * borrow
  {
    s, borrow := [], 0;
    for k := 0 to |a|
      invariant |s| == k && borrow <= 1
      invariant Value(s) + Value(b[..k]) == Value(a[..k]) + Pow(k) * borrow
    {
      var t: int := a[k] - b[k] - borrow;
      var w, c := t % BASE, if t < 0 then 1 else 0;
      BorrowStep(k, a[k], b[k], w, borrow, c, Value(a[..k]), Value(b[..k]), Value(s));
      ValueTake(a, k);
      ValueTake(b, k);
      ValueSnoc(s, w);
      s, borrow := s + [w], c;
    }
    assert a[..|a|] == a && b[..|b|] == b;
  }

  lemma BorrowStep(k: nat, x: nat, y: nat, s: nat, c: nat, c': nat, vx: nat, vy: nat, vs: nat)
    requires vs + vy == vx + Pow(k) * c
    requires s + y + c == x + BASE * c'
    ensures (vs + Pow(k) * s) + (vy + Pow(k) * y) == (vx + Pow(k) * x) + Pow(k + 1) * c'
  {
    var p := Pow(k);
    MulAssoc(p, BASE, c');
    assert p * (s + y + c) == p * s + p * y + p * c;
    assert p * (x + BASE * c') == p * x + p * (BASE * c');
  }

  method MulWords(a: seq<Word>, q: Word) returns (s: seq<Word>, carry: Word)
    ensures |s| == |a|
    ensures Value(s + [carry]) == Value(a) * q
  {
    s, carry := [], 0;
    for k := 0 to |a|
      invariant |s| == k
      invariant Value(s) + Pow(k) * carry == Value(a[..k]) * q
    {
      var t: nat := a[k] * q + carry;
      ProductFits(a[k], q, carry, BASE);
      var w, c := t % BASE, t / BASE;
      MulStep(k, a[k], q, w, carry, c, Value(a[..k]), Value(s));
      ValueTake(a, k);
      ValueSnoc(s, w);
      s, carry := s + [w], c;
    }
    assert a[..|a|] == a;
    ValueSnoc(s, carry);
  }

  lemma ProductFits(x: nat, q: nat, c: nat, b: nat)
    requires x < b && q < b && c < b
    ensures (x * q + c) / b < b
  {
    MulMonotone(x, q, b - 1);
    ProductRoom(x * q, x, b, c);
    QuotientLess(x * q + c, b, b);
  }

  lemma ProductRoom(m: nat, x: nat, b: nat, c: nat)
    requires x < b && c < b && m <= x * (b - 1)
    ensures m + c < b * b
  {
    MulMonotone(b - 1, x, b - 1);
  }

  lemma MulStep(k: nat, x: nat, q: nat, s: nat, c: nat, c': nat, vx: nat, vs: nat)
    requires vs + Pow(k) * c == vx * q
    requires s + BASE * c' == x * q + c
    ensures (vs + Pow(k) * s) + Pow(k + 1) * c' == (vx + Pow(k) * x) * q
  {
    var p := Pow(k);
    MulAssoc(p, BASE, c');
    MulAssoc(p, x, q);
    assert p * (s + BASE * c') == p * s + p * (BASE * c');
    assert p * (x * q + c) == p * (x * q) + p * c;
    assert (vx + p * x) * q == vx * q + (p * x) * q;
  }

  /** Three-way comparison of equally long word arrays, from the top word down. */
  method CompareWords(a: seq<Word>, b: seq<Word>) returns (c: int)
    requires |a| == |b|
    ensures c < 0 <==> Value(a) < Value(b)
    ensures c > 0 <==> Value(a) > Value(b)
  {
    var i := |a|;
    assert a[..i] == a && b[..i] == b;
    while i > 0
      invariant 0 <= i <= |a|
      invariant a[i..] == b[i..]
    {
      i := i - 1;
      if a[i] != b[i] {
        CompareAt(a, b, i);
        CompareAt(b, a, i);
        return if a[i] < b[i] then -1 else 1;
      }
      assert a[i..] == [a[i]] + a[i + 1..] && b[i..] == [b[i]] + b[i + 1..];
    }
    assert a[0..] == a && b[0..] == b;
    return 0;
  }

  lemma DigitDecides(low: nat, p: nat, x: nat, y: nat)
    requires low < p && x < y
    ensures low + p * x < p * y
  {
    MulMonotone(p, x + 1, y);
  }

  lemma CompareAt(a: seq<Word>, b: seq<Word>, i: nat)
    requires i < |a| == |b| && a[i + 1..] == b[i + 1..]
    ensures a[i] < b[i] ==> Value(a) < Value(b)
  {
    ValueSplit(a, i + 1);
    ValueSplit(b, i + 1);
    ValueTake(a, i);
    ValueTake(b, i);
    ValueBound(a[..i]);
    if a[i] < b[i] {
      DigitDecides(Value(a[..i]), Pow(i), a[i], b[i]);
    }
  }

  /** BN_ucmp */
  method UCmp(a: BigNum, b: BigNum) returns (c: int)
    requires a.Normal() && b.Normal()
    ensures c < 0 <==> a.Mag() < b.Mag()
    ensures c > 0 <==> a.Mag() > b.Mag()
  {
    if a.top != b.top {
      LongerIsLarger(a.d[..a.top], b.d[..b.top]);
      LongerIsLarger(b.d[..b.top], a.d[..a.top]);
      return a.top - b.top;
    }
    c := CompareWords(a.d[..a.top], b.d[..b.top]);
  }

  lemma LongerIsLarger(s: seq<Word>, t: seq<Word>)
    requires |t| > 0 ==> t[|t| - 1] != 0
    ensures |s| < |t| ==> Value(s) < Value(t)
  {
    if |s| < |t| {
      ValueBound(s);
      ValueTopNonzero(t);
      PowMonotone(|s|, |t| - 1);
    }
  }

  // ---- addition and subtraction ----

  /** The words below k hold the sum of A's low words and vb, up to a carry into word k. */
  ghost predicate SumSoFar(R: seq<Word>, A: seq<Word>, vb: nat, k: nat, carry: nat) {
    k <= |R| && k <= |A| && carry <= 1 && Value(R[..k]) + Pow(k) * carry == Value(A[..k]) + vb
  }

  /** Writing word w extends the sum by one word. */
  lemma SumStep(R: seq<Word>, A: seq<Word>, vb: nat, k: nat, carry: nat, w: Word, carry': nat)
    requires k < |R| && k < |A| && SumSoFar(R, A, vb, k, carry) && carry' <= 1
    requires w + BASE * carry' == A[k] + carry
    ensures SumSoFar(R[k := w], A, vb, k + 1, carry')
  {
    var R' := R[k := w];
    ValueTake(R', k);
    assert R'[..k] == R[..k];
    ValueTake(A, k);
    CarryStep(k, A[k], 0, w, carry, carry', Value(A[..k]), vb, Value(R[..k]));
  }

  /** Carries into the upper words; stops at the first word that does not overflow. */
  method PropagateCarry(r: BigNum, a: BigNum, k0: nat, max: nat, ghost A: seq<Word>, ghost vb: nat)
    returns (k: nat, carry: nat)
    requires k0 <= max == |A| && max <= |a.d| && max <= |r.d|
    requires forall i :: k0 <= i < max ==> a.d[i] == A[i]
    requires SumSoFar(r.d, A, vb, k0, 1)
    modifies r`d
    ensures |r.d| == old(|r.d|) && k0 <= k <= max && max <= |a.d|
    ensures forall i :: k <= i < max ==> a.d[i] == A[i]
    ensures SumSoFar(r.d, A, vb, k, carry)
    ensures carry != 0 ==> k == max
  {
    k, carry := k0, 1;
    while k < max
      invariant k0 <= k <= max && carry == 1
      invariant |r.d| == old(|r.d|) && max <= |a.d|
      invariant forall i :: k <= i < max ==> a.d[i] == A[i]
      invariant SumSoFar(r.d, A, vb, k, carry)
    {
      var t2 := (a.d[k] + 1) % BASE;
      SumStep(r.d, A, vb, k, 1, t2, if t2 != 0 then 0 else 1);
      r.d := r.d[k := t2];
      k := k + 1;
      if t2 != 0 {
        carry := 0;
        break;
      }
    }
  }

  /** Copies the remaining words of a into r. */
  method CopyTail(r: BigNum, a: BigNum, k0: nat, max: nat, ghost A: seq<Word>, ghost vb: nat)
    requires r != a && k0 <= max == |A| && max <= |a.d| && max <= |r.d|
    requires forall i :: k0 <= i < max ==> a.d[i] == A[i]
    requires SumSoFar(r.d, A, vb, k0, 0)
    modifies r`d
    ensures |r.d| == old(|r.d|)
    ensures SumSoFar(r.d, A, vb, max, 0)
  {
    var k := k0;
    while k < max
      invariant k0 <= k <= max && |r.d| == old(|r.d|)
      invariant SumSoFar(r.d, A, vb, k, 0)
    {
      SumStep(r.d, A, vb, k, 0, a.d[k], 0);
      r.d := r.d[k := a.d[k]];
      k := k + 1;
    }
  }

  /** Words already in place need no copying. */
  lemma {:induction false} SumInPlace(R: seq<Word>, A: seq<Word>, vb: nat, k: nat)
    requires |A| <= |R| && SumSoFar(R, A, vb, k, 0)
    requires forall i :: k <= i < |A| ==> R[i] == A[i]
    ensures SumSoFar(R, A, vb, |A|, 0)
    decreases |A| - k
  {
    if k < |A| {
      SumStep(R, A, vb, k, 0, A[k], 0);
      assert R[k := A[k]] == R;
      SumInPlace(R, A, vb, k + 1);
    }
  }

  /** A finished sum without carry is normal when the longer operand is. */
  lemma SumNormal(R: seq<Word>, A: seq<Word>, vb: nat)
    requires SumSoFar(R, A, vb, |A|, 0) && (|A| > 0 ==> A[|A| - 1] != 0)
    ensures Value(R[..|A|]) == Value(A) + vb
    ensures |A| > 0 ==> R[|A| - 1] != 0
  {
    assert A[..|A|] == A;
    if |A| > 0 {
      ValueTopNonzero(A);
      TopFromValue(R[..|A|]);
    }
  }

  lemma SumCarried(R: seq<Word>, A: seq<Word>, vb: nat)
    requires SumSoFar(R, A, vb, |A|, 1) && |A| < |R|
    ensures Value(R[|A| := 1][..|A| + 1]) == Value(A) + vb
  {
    assert A[..|A|] == A;
    ValueTake(R[|A| := 1], |A|);
    assert R[|A| := 1][..|A|] == R[..|A|];
  }

  /** The sum of the words both operands have. */
  method AddCommon(r: BigNum, a: BigNum, b: BigNum, ghost A: seq<Word>, ghost B: seq<Word>) returns (carry: nat)
    requires |B| <= |A| <= |a.d| && |B| <= |b.d| && |A| <= |r.d|
    requires a.d[..|A|] == A && b.d[..|B|] == B && b.top == |B|
    modifies r`d
    ensures |r.d| == old(|r.d|) && |A| <= |a.d|
    ensures forall i :: |B| <= i < |A| ==> a.d[i] == A[i]
    ensures SumSoFar(r.d, A, Value(B), |B|, carry)
  {
    var min := b.top;
    var s, c := AddWords(a.d[..min], b.d[..min]);
    assert a.d[..min] == A[..min];
    assert forall i :: 0 <= i < |A| ==> a.d[i] == A[i];
    r.d := s + r.d[min..];
    assert r.d[..min] == s;
    carry := c;
  }

  /** r := |a| + |b| with a at least as long; r may be either operand. */
  method UAddOrdered(r: BigNum, a: BigNum, b: BigNum)
    requires r.Valid() && a.Normal() && b.Normal() && a.top >= b.top
    modifies r
    ensures r.Normal() && !r.neg
    ensures r.Mag() == old(a.Mag()) + old(b.Mag())
  {
    ghost var A, B := a.d[..a.top], b.d[..b.top];
    var max, min := a.top, b.top;
    r.WExpand(max + 1);
    var carry := AddCommon(r, a, b, A, B);
    FinishSum(r, a, min, max, carry, A, Value(B));
  }

  /** The part of the addition above the shorter operand. */
  method FinishSum(r: BigNum, a: BigNum, min: nat, max: nat, carry0: nat, ghost A: seq<Word>, ghost vb: nat)
    requires min <= max == |A| <= |a.d| && max < |r.d| && (max > 0 ==> A[max - 1] != 0)
    requires forall i :: min <= i < max ==> a.d[i] == A[i]
    requires SumSoFar(r.d, A, vb, min, carry0)
    modifies r
    ensures r.Normal() && !r.neg && r.Mag() == Value(A) + vb
  {
    hide Pow;
    var k, carry := min, carry0;
    if carry != 0 {
      k, carry := PropagateCarry(r, a, min, max, A, vb);
    }
    if carry != 0 {
      SumCarried(r.d, A, vb);
      r.d := r.d[k := 1];
      r.top := max + 1;
    } else {
      if k < max && r != a {
        CopyTail(r, a, k, max, A, vb);
      } else {
        SumInPlace(r.d, A, vb, k);
      }
      SumNormal(r.d, A, vb);
      r.top := max;
    }
    r.neg := false;
  }

  /** BN2_uadd: r := |a| + |b|; r may be either operand. */
  method UAdd(r: BigNum, a: BigNum, b: BigNum)
    requires r.Valid() && a.Normal() && b.Normal()
    modifies r
    ensures r.Normal() && !r.neg
    ensures r.Mag() == old(a.Mag()) + old(b.Mag())
  {
    if a.top < b.top {
      UAddOrdered(r, b, a);
    } else {
      UAddOrdered(r, a, b);
    }
  }

  lemma ValuePadded(s: seq<Word>, k: nat)
    ensures Value(s + Zeros(k)) == Value(s)
  {
    ValueConcat(s, Zeros(k));
    ValueZeros(Zeros(k));
  }

  lemma NoBorrow(s: seq<Word>, borrow: nat, x: nat, y: nat)
    requires x >= y && Value(s) + y == x + Pow(|s|) * borrow
    ensures borrow == 0 && Value(s) == x - y
  {
    ValueBound(s);
    if borrow > 0 {
      MulMonotone(Pow(|s|), 1, borrow);
    }
  }

  /** BN_usub: r := |a| - |b| for |a| >= |b|; r may be either operand. */
  method USub(r: BigNum, a: BigNum, b: BigNum)
    requires r.Valid() && a.Normal() && b.Normal() && a.Mag() >= b.Mag()
    modifies r
    ensures r.Normal() && r.Mag() == old(a.Mag()) - old(b.Mag())
    ensures !r.neg
  {
    LongerIsLarger(a.d[..a.top], b.d[..b.top]);
    var max, min := a.top, b.top;
    ValuePadded(b.d[..min], max - min);
    var s, borrow := SubWords(a.d[..max], b.d[..min] + Zeros(max - min));
    NoBorrow(s, borrow, a.Mag(), b.Mag());
    r.WExpand(max);
    r.d := s + r.d[max..];
    r.top := max;
    r.neg := false;
    assert r.d[..max] == s;
    r.CorrectTop();
  }

  /** BN2_sub: r := a - b on signed numbers; r may be either operand. */
  method Sub(r: BigNum, a: BigNum, b: BigNum)
    requires r.Valid() && a.Normal() && b.Normal()
    modifies r
    ensures r.Normal() && r.Int() == old(a.Int()) - old(b.Int())
    ensures old(a.neg) == old(b.neg) ==> r.neg == (old(a.Int()) < old(b.Int()))
  {
    var x, y := a, b;
    var add, neg := false, false;
    if a.neg {
      if b.neg {
        x, y := b, a;
      } else {
        add, neg := true, true;
      }
    } else if b.neg {
      add := true;
    }
    if add {
      UAdd(r, x, y);
      r.neg := neg;
      return;
    }
    var c := UCmp(x, y);
    if c < 0 {
      USub(r, y, x);
      r.neg := true;
    } else {
      USub(r, x, y);
    }
  }

  /** BN_add: r := a + b on signed numbers; r may be either operand. */
  method Add(r: BigNum, a: BigNum, b: BigNum)
    requires r.Valid() && a.Normal() && b.Normal()
    modifies r
    ensures r.Normal() && r.Int() == old(a.Int()) + old(b.Int())
    ensures !old(a.neg) && !old(b.neg) ==> !r.neg
  {
    if a.neg == b.neg {
      var neg := a.neg;
      UAdd(r, a, b);
      r.neg := neg;
      return;
    }
    var x, y := if a.neg then b else a, if a.neg then a else b;
    var c := UCmp(x, y);
    if c < 0 {
      USub(r, y, x);
      r.neg := true;
    } else {
      USub(r, x, y);
    }
  }

  /** BN_copy */
  method Copy(r: BigNum, a: BigNum)
    requires r.Valid() && a.Normal()
    modifies r
    ensures r.Normal() && r.Mag() == old(a.Mag()) && r.neg == old(a.neg) && r.top == old(a.top)
  {
    if r != a {
      r.WExpand(a.top);
      r.d := a.d[..a.top] + r.d[a.top..];
      r.top := a.top;
      r.neg := a.neg;
      assert r.d[..r.top] == a.d[..a.top];
    }
  }

  /** BN_set_word */
  method SetWord(r: BigNum, w: Word)
    requires r.Valid()
    modifies r
    ensures r.Normal() && r.Mag() == w && !r.neg
  {
    r.WExpand(1);
    r.d := r.d[0 := w];
    r.top := if w == 0 then 0 else 1;
    r.neg := false;
    assert r.d[..1] == [w];
    ValueOne(w);
  }

  // ---- one-bit shifts ----

  const TBIT: Word := 0x8000_0000

  /** The words of r from i up hold half of A's upper words; c is the bit shifted out of word i. */
  ghost predicate HalfSoFar(R: seq<Word>, A: seq<Word>, i: nat, j: nat, c: Word) {
    i < |A| && i <= j <= |R| && c == (if A[i] % 2 == 1 then TBIT else 0)
    && Value(A[i..]) == 2 * Value(R[i..j]) + A[i] % 2
  }

  lemma OrTopBit(x: Word, c: Word)
    requires x < TBIT && (c == TBIT || c == 0)
    ensures BitOr(x, c) == x + c
  {
    Pow2Values();
    assert Pow2(31) * 2 == Pow2(32);
    BitOrDisjoint(x, c, 31);
  }

  lemma HalfStep(R: seq<Word>, A: seq<Word>, i: nat, j: nat, c: Word)
    requires 0 < i && HalfSoFar(R, A, i, j, c)
    ensures i <= |R| && BitOr(A[i - 1] / 2, c) < BASE
    ensures HalfSoFar(R[i - 1 := BitOr(A[i - 1] / 2, c)], A, i - 1, j, if A[i - 1] % 2 == 1 then TBIT else 0)
  {
    OrTopBit(A[i - 1] / 2, c);
    var R' := R[i - 1 := BitOr(A[i - 1] / 2, c)];
    assert A[i - 1..][1..] == A[i..];
    assert R'[i - 1..j][1..] == R[i..j];
  }

  lemma HalfFirst(R: seq<Word>, A: seq<Word>, j: nat)
    requires |A| > 0 && A[|A| - 1] != 0 && j <= |R|
    requires j == if A[|A| - 1] == 1 then |A| - 1 else |A|
    ensures A[|A| - 1] == 1 ==> HalfSoFar(R, A, |A| - 1, j, TBIT)
    ensures A[|A| - 1] != 1 ==>
              HalfSoFar(R[|A| - 1 := A[|A| - 1] / 2], A, |A| - 1, j, if A[|A| - 1] % 2 == 1 then TBIT else 0)
  {
    var i, t := |A| - 1, A[|A| - 1];
    assert A[i..] == [t];
    ValueOne(t);
    if t != 1 {
      assert R[i := t / 2][i..j] == [t / 2];
      ValueOne(t / 2);
    }
  }

  lemma HalfNormal(R: seq<Word>, A: seq<Word>, j: nat)
    requires exists c: Word :: HalfSoFar(R, A, 0, j, c)
    requires A[|A| - 1] != 0
    requires j == if A[|A| - 1] == 1 then |A| - 1 else |A|
    ensures Value(R[..j]) == Value(A) / 2
    ensures j > 0 ==> R[j - 1] != 0
  {
    assert A[0..] == A && R[0..j] == R[..j];
    if j > 0 {
      ValueTopNonzero(A);
      if j == |A| {
        ValueLast(A);
        MulMonotone(Pow(j - 1), 2, A[j - 1]);
      } else {
        assert Pow(|A| - 1) == BASE * Pow(j - 1);
      }
      TopFromValue(R[..j]);
    }
  }

  /** The word loop of the halving: the words below i take the bit shifted out above them. */
  method HalveWords(r: BigNum, a: BigNum, i0: nat, j: nat, c0: Word, ghost A: seq<Word>) returns (c: Word)
    requires i0 < |A| <= |a.d| && HalfSoFar(r.d, A, i0, j, c0)
    requires forall k :: 0 <= k < i0 ==> a.d[k] == A[k]
    modifies r`d
    ensures HalfSoFar(r.d, A, 0, j, c)
  {
    hide HalfSoFar, BitOr;
    var i: nat := i0;
    c := c0;
    while i > 0
      invariant i < |A| <= |a.d|
      invariant forall k :: 0 <= k < i ==> a.d[k] == A[k]
      invariant HalfSoFar(r.d, A, i, j, c)
    {
      HalfStep(r.d, A, i, j, c);
      i := i - 1;
      var t := a.d[i];
      r.d := r.d[i := BitOr(t / 2, c)];
      c := if t % 2 == 1 then TBIT else 0;
    }
  }

  /** BN2_rshift1: r := a / 2 on magnitudes; r may be a. */
  method RShift1(r: BigNum, a: BigNum)
    requires r.Valid() && a.Normal()
    modifies r
    ensures r.Normal() && r.Mag() == old(a.Mag()) / 2
    ensures r.neg == (old(a.neg) && old(a.top) > 0)
  {
    if a.top == 0 {
      r.top := 0;
      r.neg := false;
      return;
    }
    ghost var A := a.d[..a.top];
    var i: nat := a.top;
    var j := i - (if a.d[i - 1] == 1 then 1 else 0);
    if a != r {
      r.WExpand(j);
      r.neg := a.neg;
    }
    i := i - 1;
    var t := a.d[i];
    var c: Word := if t % 2 == 1 then TBIT else 0;
    t := t / 2;
    HalfFirst(r.d, A, j);
    if t != 0 {
      r.d := r.d[i := t];
    }
    c := HalveWords(r, a, i, j, c, A);
    r.top := j;
    HalfNormal(r.d, A, j);
  }

  /** The words of r below i hold twice A's low words, up to a carry bit. */
  ghost predicate DoubleSoFar(R: seq<Word>, A: seq<Word>, i: nat, c: nat) {
    i <= |R| && i <= |A| && c <= 1 && 2 * Value(A[..i]) == Value(R[..i]) + Pow(i) * c
  }

  function TopBit(t: Word): (c: nat)
    ensures c <= 1
  {
    if t >= TBIT then 1 else 0
  }

  lemma ShlOne(t: Word)
    ensures Shl(t, 1) == 2 * t - BASE * TopBit(t)
    ensures Shl(t, 1) % 2 == 0
  {
    assert Pow2(1) == 2;
  }

  lemma DoubleWord(t: Word, c: nat)
    requires c <= 1
    ensures BitOr(Shl(t, 1), c) < BASE
    ensures BitOr(Shl(t, 1), c) + BASE * TopBit(t) == t + t + c
  {
    ShlOne(t);
    var w := Shl(t, 1);
    BitOrSymmetric(w, c);
    assert Pow2(1) == 2;
    BitOrDisjoint(c, w, 1);
  }

  lemma DoubleStep(R: seq<Word>, A: seq<Word>, i: nat, c: nat)
    requires DoubleSoFar(R, A, i, c) && i < |A| && i < |R|
    ensures BitOr(Shl(A[i], 1), c) < BASE
    ensures DoubleSoFar(R[i := BitOr(Shl(A[i], 1), c)], A, i + 1, TopBit(A[i]))
  {
    DoubleWord(A[i], c);
    DoubleAppend(R, A, i, c, BitOr(Shl(A[i], 1), c), TopBit(A[i]));
  }

  lemma DoubleAppend(R: seq<Word>, A: seq<Word>, i: nat, c: nat, w: Word, c': nat)
    requires DoubleSoFar(R, A, i, c) && i < |A| && i < |R| && c' <= 1
    requires w + BASE * c' == A[i] + A[i] + c
    ensures DoubleSoFar(R[i := w], A, i + 1, c')
  {
    ValueTake(R[i := w], i);
    assert R[i := w][..i] == R[..i];
    ValueTake(A, i);
    CarryStep(i, A[i], A[i], w, c, c', Value(A[..i]), Value(A[..i]), Value(R[..i]));
  }

  lemma DoubleNormal(R: seq<Word>, A: seq<Word>)
    requires DoubleSoFar(R, A, |A|, 0) && (|A| > 0 ==> A[|A| - 1] != 0)
    ensures Value(R[..|A|]) == 2 * Value(A)
    ensures |A| > 0 ==> R[|A| - 1] != 0
  {
    hide Value, Pow;
    assert A[..|A|] == A;
    if |A| > 0 {
      ValueTopNonzero(A);
      TopFromValue(R[..|A|]);
    }
  }

  /** The word loop of the doubling. */
  method DoubleWords(r: BigNum, a: BigNum, ghost A: seq<Word>) returns (c: nat)
    requires a.top == |A| <= |a.d| && |A| < |r.d|
    requires forall k :: 0 <= k < |A| ==> a.d[k] == A[k]
    modifies r`d
    ensures |r.d| == old(|r.d|) && DoubleSoFar(r.d, A, |A|, c)
  {
    c := 0;
    var i := 0;
    while i < a.top
      invariant i <= a.top == |A| <= |a.d| && |r.d| == old(|r.d|)
      invariant forall k :: i <= k < |A| ==> a.d[k] == A[k]
      invariant DoubleSoFar(r.d, A, i, c)
    {
      DoubleStep(r.d, A, i, c);
      var t := a.d[i];
      r.d := r.d[i := BitOr(Shl(t, 1), c)];
      c := TopBit(t);
      i := i + 1;
    }
  }

  /** BN2_lshift1: r := 2 * a; r may be a. */
  method LShift1(r: BigNum, a: BigNum)
    requires r.Valid() && a.Normal()
    modifies r
    ensures r.Normal() && r.Mag() == 2 * old(a.Mag()) && r.neg == old(a.neg)
  {
    ghost var A := a.d[..a.top];
    if r != a {
      r.neg := a.neg;
      r.WExpand(a.top + 1);
      r.top := a.top;
    } else {
      r.WExpand(a.top + 1);
    }
    var c := DoubleWords(r, a, A);
    if c != 0 {
      DoubleCarried(r.d, A);
      r.d := r.d[r.top := 1];
      r.top := r.top + 1;
    } else {
      DoubleNormal(r.d, A);
    }
  }

  lemma DoubleCarried(R: seq<Word>, A: seq<Word>)
    requires DoubleSoFar(R, A, |A|, 1) && |A| < |R|
    ensures Value(R[|A| := 1][..|A| + 1]) == 2 * Value(A)
  {
    var n := |A|;
    assert A[..n] == A;
    assert R[n := 1][..n + 1] == R[..n] + [1];
    ValueSnoc(R[..n], 1);
  }
}
