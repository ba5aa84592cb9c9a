/** Powers of two, shifts of one 32-bit word, bitwise or, and bit lengths. */
module Bits {
  import opened Words
  import opened NumberTheory

  function Pow2(n: nat): (p: nat)
    ensures p >= 1
  {
    if n == 0 then 1 else 2 * Pow2(n - 1)
  }

  /** l >> k */
  function Shr(l: Word, k: nat): (r: Word)
    ensures r <= l
  {
    DivShrinks(l, Pow2(k));
    l / Pow2(k)
  }

  /** l << k, keeping the low 32 bits */
  function Shl(l: Word, k: nat): Word {
    (l * Pow2(k)) % BASE
  }

  /** a | b */
  function BitOr(a: nat, b: nat): nat
    decreases a + b
  {
    if a == 0 && b == 0 then 0
    else (if a % 2 == 1 || b % 2 == 1 then 1 else 0) + 2 * BitOr(a / 2, b / 2)
  }

  /** The number of binary digits of n. */
  function NumBits(n: nat): nat {
    if n == 0 then 0 else 1 + NumBits(n / 2)
  }

  lemma DivShrinks(x: nat, y: nat)
    requires y >= 1
    ensures 0 <= x / y <= x
  {
    assert x == y * (x / y) + x % y;
    MulMonotone(x / y, 1, y);
  }

  lemma Pow2Values()
    ensures Pow2(1) == 2 && Pow2(2) == 4 && Pow2(32) == BASE
  {
    assert Pow2(8) == 256;
    assert Pow2(16) == 256 * 256;
    assert Pow2(24) == 256 * 256 * 256;
  }

  lemma {:induction false} Pow2Add(m: nat, n: nat)
    ensures Pow2(m + n) == Pow2(m) * Pow2(n)
  {
    if m > 0 {
      Pow2Add(m - 1, n);
      assert Pow2(m + n) == 2 * (Pow2(m - 1) * Pow2(n)) == (2 * Pow2(m - 1)) * Pow2(n);
    }
  }

  lemma {:induction false} Pow2Monotone(m: nat, n: nat)
    requires m <= n
    ensures Pow2(m) <= Pow2(n)
    decreases n
  {
    if m < n {
      Pow2Monotone(m, n - 1);
    }
  }

  /** A word splits at any bit. */
  lemma Pow2Word(k: nat)
    requires k <= 32
    ensures Pow2(k) * Pow2(32 - k) == BASE
  {
    Pow2Values();
    Pow2Add(k, 32 - k);
  }

  lemma {:induction false} PowIsPow2(k: nat)
    ensures Pow(k) == Pow2(32 * k)
  {
    if k > 0 {
      PowIsPow2(k - 1);
      Pow2Add(32, 32 * (k - 1));
      Pow2Values();
    }
  }

  /** Or of two numbers that share no bit position is their sum. */
  lemma {:induction false} BitOrDisjoint(a: nat, b: nat, k: nat)
    requires a < Pow2(k) && b % Pow2(k) == 0
    ensures BitOr(a, b) == a + b
    decreases k
  {
    if k == 0 {
      BitOrZero(b);
    } else if a == 0 && b == 0 {
    } else {
      var p := Pow2(k - 1);
      HalfMultiple(b, p);
      BitOrDisjoint(a / 2, b / 2, k - 1);
    }
  }

  lemma HalfMultiple(b: nat, p: nat)
    requires p > 0 && b % (2 * p) == 0
    ensures b % 2 == 0 && (b / 2) % p == 0
  {
    var q := b / (2 * p);
    assert b == (2 * p) * q == 2 * (p * q);
    assert b / 2 == p * q;
    ModMultiple(p, q);
  }

  lemma ModMultiple(p: nat, q: nat)
    requires p > 0
    ensures (p * q) % p == 0
  {
    ModOf(p * q, p, q, 0);
  }

  lemma {:induction false} BitOrZero(b: nat)
    ensures BitOr(0, b) == b
  {
    if b > 0 {
      BitOrZero(b / 2);
    }
  }

  /** Scaling l by p in a word of size p * c: l / c is carried out, the rest is a multiple of p. */
  lemma ScaleSplit(l: nat, p: nat, c: nat, b: nat)
    requires p > 0 && c > 0 && p * c == b && l < b
    ensures b > 0 && l * p == (l * p) % b + b * (l / c)
    ensures l / c < p
    ensures (l * p) % b == p * (l % c)
    ensures ((l * p) % b) % p == 0
  {
    var hi, lo := l / c, l % c;
    assert l == c * hi + lo;
    assert l * p == b * hi + p * lo by {
      assert l * p == (c * hi) * p + lo * p;
      MulAssoc(p, c, hi);
    }
    MulMonotone(p, lo + 1, c);
    assert p * (lo + 1) == p * lo + p;
    ModOf(l * p, b, hi, p * lo);
    ModMultiple(p, lo);
    if hi >= p {
      MulMonotone(c, p, hi);
      assert false;
    }
  }

  /** A word shifted left by k: the part that stays and the part that is carried over. */
  lemma ShiftSplit(l: Word, k: nat)
    requires k <= 32
    ensures l * Pow2(k) == Shl(l, k) + BASE * Shr(l, 32 - k)
    ensures Shr(l, 32 - k) < Pow2(k)
    ensures Shl(l, k) % Pow2(k) == 0
  {
    Pow2Word(k);
    ScaleSplit(l, Pow2(k), Pow2(32 - k), BASE);
  }

  /** NumBits is the length of the binary expansion. */
  lemma {:induction false} NumBitsBounds(n: nat)
    ensures n < Pow2(NumBits(n))
    ensures n > 0 ==> Pow2(NumBits(n) - 1) <= n
  {
    if n > 0 {
      NumBitsBounds(n / 2);
    }
  }

  lemma NumBitsUnique(n: nat, k: nat)
    requires n > 0 && k > 0 && Pow2(k - 1) <= n < Pow2(k)
    ensures NumBits(n) == k
  {
    NumBitsBounds(n);
    if NumBits(n) < k {
      Pow2Monotone(NumBits(n), k - 1);
    } else if NumBits(n) > k {
      Pow2Monotone(k, NumBits(n) - 1);
    }
  }

  /** Dividing away whole low words and then p is dividing by their product. */
  lemma DivCompose(x: nat, d: nat, low: nat, w: nat, v: nat, p: nat)
    requires w > 0 && p > 0 && low < w
    requires x == low + w * v && d == w * p
    ensures d > 0 && x / d == v / p
  {
    var q, r := v / p, v % p;
    assert v == p * q + r;
    assert w * v == (w * p) * q + w * r by {
      assert w * v == w * (p * q) + w * r;
      MulAssoc(w, p, q);
    }
    MulMonotone(w, r + 1, p);
    assert w * (r + 1) == w * r + w;
    ModOf(x, d, q, low + w * r);
  }

  lemma QuotientOfSum(l: nat, p: nat, y: nat)
    requires p > 0
    ensures (l + p * y) / p == l / p + y
  {
    assert l == p * (l / p) + l % p;
    assert p * (l / p + y) == p * (l / p) + p * y;
    ModOf(l + p * y, p, l / p + y, l % p);
  }

  /** Shifting right a number whose lowest word is l and whose upper part is x. */
  lemma DivLowWord(l: Word, x: nat, k: nat)
    requires k <= 32
    ensures (l + BASE * x) / Pow2(k) == Shr(l, k) + Pow2(32 - k) * x
  {
    var p, c := Pow2(k), Pow2(32 - k);
    Pow2Word(k);
    MulAssoc(p, c, x);
    QuotientOfSum(l, p, c * x);
  }

  lemma QuotientAtLeast(x: nat, p: nat, b: nat)
    requires p > 0 && p * b <= x
    ensures x / p >= b
  {
    assert x == p * (x / p) + x % p;
    if x / p < b {
      MulMonotone(p, x / p + 1, b);
      assert false;
    }
  }

  lemma QuotientLess(x: nat, p: nat, b: nat)
    requires p > 0 && x < p * b
    ensures x / p < b
  {
    assert x == p * (x / p) + x % p;
    if x / p >= b {
      MulMonotone(p, b, x / p);
      assert false;
    }
  }

  lemma NumBitsSplit(l: nat, k: nat)
    requires l > 0
    ensures NumBits(l) == k + NumBits(l / Pow2(k)) || (NumBits(l) <= k && l / Pow2(k) == 0)
    ensures l / Pow2(k) != 0 <==> NumBits(l) > k
  {
    var b := NumBits(l);
    NumBitsBounds(l);
    if b <= k {
      Pow2Monotone(b, k);
      ModOf(l, Pow2(k), 0, l);
    } else {
      Pow2Add(k, b - k);
      Pow2Add(k, b - k - 1);
      QuotientLess(l, Pow2(k), Pow2(b - k));
      QuotientAtLeast(l, Pow2(k), Pow2(b - k - 1));
      NumBitsUnique(l / Pow2(k), b - k);
    }
  }

  lemma NumBitsOfWord(l: Word)
    ensures NumBits(l) <= 32
    ensures l > 0 ==> NumBits(l) > 0
  {
    NumBitsBounds(l);
    Pow2Values();
    if NumBits(l) > 32 {
      Pow2Monotone(32, NumBits(l) - 1);
    }
  }
}
