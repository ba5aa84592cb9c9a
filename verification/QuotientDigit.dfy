/**
 The arithmetic behind one round of long division (Knuth, The Art of Computer
 Programming, volume 2, section 4.3.1, Algorithm D): a digit estimated from the
 three leading words of the window and the two leading words of a normalised
 divisor is the true digit or one more.
 */
module QuotientDigit {
  import opened Words

  /** x / y is q when q * y fits below x and one more y does not. */
  lemma QuotientUnique(x: nat, y: nat, q: nat)
    requires y > 0 && q * y <= x < (q + 1) * y
    ensures x / y == q
  {
    var t := x / y;
    assert t * y <= x < (t + 1) * y by {
      assert x == t * y + x % y;
      assert (t + 1) * y == t * y + y;
    }
    if t < q {
      MulMonotone(y, t + 1, q);
      assert false;
    } else if t > q {
      MulMonotone(y, q + 1, t);
      assert false;
    }
  }

  lemma QuotientSpec(x: nat, y: nat)
    requires y > 0
    ensures (x / y) * y <= x < (x / y + 1) * y
    ensures x == (x / y) * y + x % y
  {
    assert x == (x / y) * y + x % y;
    assert (x / y + 1) * y == (x / y) * y + y;
  }

  /** No multiple of y above the quotient fits. */
  lemma QuotientMax(x: nat, y: nat, q: nat)
    requires y > 0 && q * y <= x
    ensures q <= x / y
  {
    QuotientSpec(x, y);
    if q > x / y {
      MulMonotone(y, x / y + 1, q);
      assert false;
    }
  }

  lemma QuotientBelow(x: nat, y: nat, b: nat)
    requires y > 0 && x < b * y
    ensures x / y < b
  {
    QuotientSpec(x, y);
    if x / y >= b {
      MulMonotone(y, b, x / y);
      assert false;
    }
  }

  /** Weighing by p and adding something below p keeps the order of products. */
  lemma PrefixNotTooSmall(u: nat, e: nat, p: nat, vlow: nat, dlow: nat, q: nat, t: nat)
    requires p > 0 && vlow < p && u < (q + 1) * e && t >= q + 1
    ensures t * (e * p + dlow) > u * p + vlow
  {
    MulMonotone(e, q + 1, t);
    MulMonotone(p, u + 1, t * e);
    MulAssoc(t, e, p);
    assert t * (e * p + dlow) == t * (e * p) + t * dlow;
    assert p * (u + 1) == u * p + p;
  }

  lemma PrefixNotTooBig(u: nat, e: nat, p: nat, vlow: nat, dlow: nat, r: nat)
    requires p > 0 && dlow < p && (r + 1) * e <= u && r <= e
    ensures r * (e * p + dlow) <= u * p + vlow
  {
    MulMonotone(r, dlow, p);
    MulAssoc(r, e, p);
    assert r * (e * p + dlow) == r * (e * p) + r * dlow;
    assert (r + 1) * e == r * e + e;
    MulMonotone(p, r * e + r, u);
    assert p * (r * e + r) == (r * e) * p + r * p;
  }

  /**
   The estimate u / e taken from leading words is right or one too big for the
   full division v / dd, where v and dd extend u and e by words of weight p.
   */
  lemma EstimateFromPrefix(u: nat, e: nat, p: nat, vlow: nat, dlow: nat, v: nat, dd: nat, q: nat)
    requires p > 0 && vlow < p && dlow < p
    requires v == u * p + vlow && dd == e * p + dlow
    requires e > 0 && q == u / e && q <= e
    ensures dd > 0 && v / dd <= q <= v / dd + 1
  {
    MulMonotone(p, 1, e);
    QuotientSpec(u, e);
    QuotientSpec(v, dd);
    if v / dd > q {
      PrefixNotTooSmall(u, e, p, vlow, dlow, q, v / dd);
      assert false;
    }
    if q >= 1 {
      PrefixNotTooBig(u, e, p, vlow, dlow, q - 1);
      QuotientMax(v, dd, q - 1);
    }
  }

  /** The shortcut: equal leading words give the largest digit, right or one too big. */
  lemma EstimateAllOnes(d0: Word, p: nat, dlow: nat, v: nat, dd: nat)
    requires p > 0 && dlow < p && dd == d0 * p + dlow
    requires BASE / 2 <= d0
    requires d0 * (BASE * p) <= v < dd * BASE
    ensures dd > 0 && v / dd <= BASE - 1 <= v / dd + 1
  {
    assert dd >= p by { MulMonotone(p, 1, d0); }
    QuotientBelow(v, dd, BASE);
    assert (BASE - 2) * dd <= v by {
      assert dd <= (d0 + 1) * p;
      MulMonotone(BASE - 2, dd, (d0 + 1) * p);
      assert (BASE - 2) * ((d0 + 1) * p) == ((BASE - 2) * (d0 + 1)) * p;
      assert (BASE - 2) * (d0 + 1) <= d0 * BASE;
      MulMonotone(p, (BASE - 2) * (d0 + 1), d0 * BASE);
      assert (d0 * BASE) * p == d0 * (BASE * p);
    }
    QuotientMax(v, dd, BASE - 2);
  }

  /** q times the divisor prefix against the window prefix, with the running remainder. */
  lemma EstimateGap(n: nat, n2: nat, d0: nat, d1: nat, q: nat, rem: nat)
    requires n == q * d0 + rem
    ensures (n * BASE + n2) - q * (d0 * BASE + d1) == rem * BASE + n2 - q * d1
  {
    assert q * (d0 * BASE + d1) == (q * d0) * BASE + q * d1;
  }

  lemma EstimateStart(n: nat, n2: Word, d0: Word, d1: Word, q: nat)
    requires n < (q + 1) * d0
    ensures n * BASE + n2 < (q + 1) * (d0 * BASE + d1)
  {
    MulMonotone(BASE, n + 1, (q + 1) * d0);
    assert (q + 1) * (d0 * BASE + d1) == BASE * ((q + 1) * d0) + (q + 1) * d1;
  }

  lemma WordSumOverflow(a: Word, b: Word)
    ensures (a + b) % BASE < b <==> a + b >= BASE
    ensures a + b < BASE ==> (a + b) % BASE == a + b
  {
  }

  lemma ProductOfWords(q: Word, d: Word)
    ensures q * d <= BASE * BASE
  {
    MulMonotone(q, d, BASE);
  }

  /** bn_div_words: a two-word number divided by one word that exceeds its high word. */
  method DivWords(n0: Word, n1: Word, d0: Word) returns (q: Word)
    requires n0 < d0
    ensures q == (n0 * BASE + n1) / d0
    ensures q * d0 <= n0 * BASE + n1 < (q + 1) * d0
  {
    QuotientBelow(n0 * BASE + n1, d0, BASE);
    QuotientSpec(n0 * BASE + n1, d0);
    q := (n0 * BASE + n1) / d0;
  }

  /** The remainder taken in one word, by wrap-around: it is known to be below the divisor. */
  method RemainderWord(n0: Word, n1: Word, q: Word, d0: Word) returns (rem: Word)
    requires q * d0 <= n0 * BASE + n1 < (q + 1) * d0
    ensures n0 * BASE + n1 == q * d0 + rem
  {
    assert (q + 1) * d0 == q * d0 + d0;
    rem := WrapSub(n1, q * d0, n0, n0 * BASE + n1 - q * d0);
  }

  method WrapSub(n1: Word, m: nat, ghost n0: Word, ghost r: Word) returns (rem: Word)
    requires n0 * BASE + n1 == m + r
    ensures rem == r
  {
    assert n1 - m == r - n0 * BASE;
    rem := (n1 - m) % BASE;
  }

  /** Lowering the estimate by one moves d0 into the remainder and takes d1 off the product. */
  lemma CorrectStep(u: nat, e: nat, q: nat, rem: nat, n2: nat, d0: nat, d1: nat, t2: nat)
    requires e == d0 * BASE + d1
    requires t2 == q * d1 && t2 > rem * BASE + n2
    requires u - q * e == rem * BASE + n2 - t2
    ensures q >= 1 && t2 >= d1
    ensures t2 - d1 == (q - 1) * d1
    ensures u < (q - 1) * e + e
    ensures u - (q - 1) * e == (rem + d0) * BASE + n2 - (t2 - d1)
  {
    assert (q - 1) * e == q * e - e;
    assert (q - 1) * d1 == q * d1 - d1;
    MulMonotone(d1, 1, q);
  }

  /**
   The correction loop: lowers the estimate while it asks for more than the
   three leading words hold, stopping early when the remainder leaves one word.
   */
  method CorrectDigit(q0: Word, rem0: Word, n2: Word, d0: Word, d1: Word, ghost u: nat, ghost e: nat) returns (q: Word)
    requires e == d0 * BASE + d1 && d0 > 0
    requires u < (q0 + 1) * e
    requires u - q0 * e == rem0 * BASE + n2 - q0 * d1
    ensures q * e <= u < (q + 1) * e
  {
    assert (q0 + 1) * e == q0 * e + e;
    q := q0;
    var rem: nat := rem0;
    var t2: nat := d1 * q;
    while t2 > rem * BASE + n2
      invariant rem < BASE
      invariant t2 == q * d1
      invariant u < q * e + e
      invariant u - q * e == rem * BASE + n2 - t2
      decreases q
    {
      CorrectStep(u, e, q, rem, n2, d0, d1, t2);
      q := q - 1;
      WordSumOverflow(rem, d0);
      var sum := (rem + d0) % BASE;
      if sum < d0 {
        ProductOfWords(q, d1);
        break;
      }
      rem := sum;
      t2 := t2 - d1;
    }
    assert (q + 1) * e == q * e + e;
  }

  /** The estimated digit: the largest q with q * (d0, d1) within (n0, n1, n2). */
  method EstimateDigit(n0: Word, n1: Word, n2: Word, d0: Word, d1: Word) returns (q: Word)
    requires n0 < d0
    ensures q == ((n0 * BASE + n1) * BASE + n2) / (d0 * BASE + d1)
  {
    ghost var n := n0 * BASE + n1;
    ghost var u := n * BASE + n2;
    ghost var e := d0 * BASE + d1;
    var q0 := DivWords(n0, n1, d0);
    var rem := RemainderWord(n0, n1, q0, d0);
    EstimateStart(n, n2, d0, d1, q0);
    EstimateGap(n, n2, d0, d1, q0, rem);
    q := CorrectDigit(q0, rem, n2, d0, d1, u, e);
    QuotientUnique(u, e, q);
  }
}
