/** Little-endian sequences of 32-bit words and the natural number they stand for. */
module Words {

  const BASE: nat := 0x1_0000_0000
  const WORD64: nat := 0x1_0000_0000_0000_0000

  type Word = x: nat | x < 0x1_0000_0000

  /** BASE to the power n. */
  function Pow(n: nat): (p: nat)
    ensures p >= 1
  {
    if n == 0 then 1 else BASE * Pow(n - 1)
  }

  lemma PowSuccessor(n: nat)
    ensures Pow(n + 1) == BASE * Pow(n)
  {
  }

  /** The number a word array denotes, least significant word first. */
  function Value(s: seq<Word>): nat {
    if s == [] then 0 else s[0] + BASE * Value(s[1..])
  }

  function Zeros(n: nat): (z: seq<Word>)
    ensures |z| == n && forall i :: 0 <= i < n ==> z[i] == 0
  {
    seq(n, i => 0)
  }

  lemma {:induction false} PowAdd(m: nat, n: nat)
    ensures Pow(m + n) == Pow(m) * Pow(n)
  {
    if m == 0 {
    } else {
      PowAdd(m - 1, n);
      calc {
        Pow(m + n);
        BASE * Pow(m - 1 + n);
        BASE * (Pow(m - 1) * Pow(n));
        (BASE * Pow(m - 1)) * Pow(n);
        Pow(m) * Pow(n);
      }
    }
  }

  lemma {:induction false} PowMonotone(m: nat, n: nat)
    requires m <= n
    ensures Pow(m) <= Pow(n)
    ensures m < n ==> BASE * Pow(m) <= Pow(n)
    decreases n
  {
    if m < n {
      PowMonotone(m, n - 1);
    }
  }

  /** Concatenation weighs the upper part by the length of the lower one. */
  lemma {:induction false} ValueConcat(s: seq<Word>, t: seq<Word>)
    ensures Value(s + t) == Value(s) + Pow(|s|) * Value(t)
  {
    if s == [] {
      assert s + t == t;
    } else {
      ValueConcat(s[1..], t);
      assert (s + t)[1..] == s[1..] + t;
      calc {
        Value(s + t);
        s[0] + BASE * (Value(s[1..]) + Pow(|s| - 1) * Value(t));
        s[0] + BASE * Value(s[1..]) + BASE * (Pow(|s| - 1) * Value(t));
        { MulAssoc(BASE, Pow(|s| - 1), Value(t)); }
        Value(s) + Pow(|s|) * Value(t);
      }
    }
  }

  lemma MulCommutes(a: int, b: int)
    ensures a * b == b * a
  {
  }

  lemma MulAssoc(a: int, b: int, c: int)
    ensures a * (b * c) == (a * b) * c
  {
  }

  lemma ValueSplit(s: seq<Word>, k: nat)
    requires k <= |s|
    ensures Value(s) == Value(s[..k]) + Pow(k) * Value(s[k..])
  {
    assert s == s[..k] + s[k..];
    ValueConcat(s[..k], s[k..]);
  }

  lemma ValueOne(w: Word)
    ensures Value([w]) == w
  {
    assert [w][1..] == [];
  }

  /** Peels off the most significant word. */
  lemma ValueLast(s: seq<Word>)
    requires |s| > 0
    ensures Value(s) == Value(s[..|s| - 1]) + Pow(|s| - 1) * s[|s| - 1]
  {
    var k := |s| - 1;
    assert s == s[..k] + [s[k]];
    ValueConcat(s[..k], [s[k]]);
    ValueOne(s[k]);
  }

  lemma ValueSnoc(s: seq<Word>, w: Word)
    ensures Value(s + [w]) == Value(s) + Pow(|s|) * w
  {
    ValueConcat(s, [w]);
    ValueOne(w);
  }

  lemma {:induction false} ValueBound(s: seq<Word>)
    ensures Value(s) < Pow(|s|)
  {
    if s != [] {
      ValueBound(s[1..]);
    }
  }

  lemma {:induction false} ValueZeros(s: seq<Word>)
    requires forall i :: 0 <= i < |s| ==> s[i] == 0
    ensures Value(s) == 0
  {
    if s != [] {
      ValueZeros(s[1..]);
    }
  }

  /** A nonzero top word bounds the value from below. */
  lemma ValueTopNonzero(s: seq<Word>)
    requires |s| > 0 && s[|s| - 1] != 0
    ensures Value(s) >= Pow(|s| - 1)
  {
    ValueLast(s);
    MulMonotone(Pow(|s| - 1), 1, s[|s| - 1]);
  }

  lemma MulMonotone(a: nat, x: int, y: int)
    requires x <= y
    ensures a * x <= a * y
  {
  }

  /** Word arrays of equal length and value are equal. */
  lemma {:induction false} ValueInjective(s: seq<Word>, t: seq<Word>)
    requires |s| == |t| && Value(s) == Value(t)
    ensures s == t
  {
    if s != [] {
      assert Value(s) == s[0] + BASE * Value(s[1..]);
      assert Value(t) == t[0] + BASE * Value(t[1..]);
      assert s[0] == t[0];
      ValueInjective(s[1..], t[1..]);
      assert s == [s[0]] + s[1..] && t == [t[0]] + t[1..];
    }
  }
}
