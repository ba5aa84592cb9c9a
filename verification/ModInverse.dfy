/** BN2_mod_inverse, general branch: extended Euclid on word-array numbers with rotated storage. */
module ModInverse {
  import opened Words
  import opened Bits
  import opened BigNums
  import opened BigNumArith
  import opened QuotientDigit
  import opened Division
  import opened NumberTheory
  import opened ExtendedEuclid

  // ---- the steps on numbers ----

  ghost predicate Holds(x: BigNum, v: nat)
    reads x
  {
    x.Normal() && !x.neg && x.Mag() == v
  }

  lemma TopBound(x: BigNum, n: BigNum)
    requires x.Normal() && n.Normal() && x.Mag() <= n.Mag()
    ensures x.top <= n.top
  {
    LongerIsLarger(n.d[..n.top], x.d[..x.top]);
  }

  lemma DivisionUnique(A: nat, B: nat, d: nat, m: nat)
    requires B > 0 && m < B && A == d * B + m
    ensures A / B == d && A % B == m
  {
    QuotientUnique(A, B, d) by {
      assert (d + 1) * B == d * B + B;
    }
    QuotientSpec(A, B);
  }

  lemma HasBits(n: nat)
    requires n > 0
    ensures NumBits(n) >= 1
  {
  }

  lemma Pow2Doubles(k: nat)
    ensures Pow2(k + 1) == 2 * Pow2(k)
  {
  }

  /** Equal bit lengths leave less than twice the divisor; one bit more, less than four times. */
  lemma LengthsBound(A: nat, B: nat)
    requires 0 < B <= A
    ensures NumBits(A) == NumBits(B) ==> A < 2 * B
    ensures NumBits(A) == NumBits(B) + 1 ==> A < 4 * B
  {
    hide NumBits;
    NumBitsBounds(A);
    NumBitsBounds(B);
    HasBits(B);
    Pow2Doubles(NumBits(B) - 1);
    Pow2Doubles(NumBits(B));
  }

  /** Quotient and remainder when the quotient is one, two or three, found by comparison. */
  method SmallQuotient(D: BigNum, M: BigNum, T: BigNum, A: BigNum, B: BigNum, ghost a: nat, ghost b: nat)
    requires D != M && D != T && M != T && {D, M, T} !! {A, B}
    requires D.Valid() && M.Valid() && T.Valid()
    requires Holds(A, a) && Holds(B, b) && 0 < b < a < 4 * b
    modifies D, M, T
    ensures Holds(D, a / b) && Holds(M, a % b) && T.Valid()
  {
    hide Value;
    LShift1(T, B);
    var c := UCmp(A, T);
    if c < 0 {
      SetWord(D, 1);
      Sub(M, A, B);
      DivisionUnique(a, b, 1, a - b);
    } else {
      Sub(M, A, T);
      Add(D, T, B);
      c := UCmp(A, D);
      if c < 0 {
        SetWord(D, 2);
        DivisionUnique(a, b, 2, a - 2 * b);
      } else {
        SetWord(D, 3);
        Sub(M, M, B);
        DivisionUnique(a, b, 3, a - 3 * b);
      }
    }
  }

  /** (D, M) := (A / B, A % B), by comparison when the bit lengths say the quotient is at most three. */
  method DivMod(D: BigNum, M: BigNum, T: BigNum, A: BigNum, B: BigNum, ghost a: nat, ghost b: nat)
    requires D != M && D != T && M != T && {D, M, T} !! {A, B}
    requires D.Valid() && M.Valid() && T.Valid()
    requires Holds(A, a) && Holds(B, b) && 0 < b <= a && A.top + 3 <= 128 && B.top + 2 <= 128
    modifies D, M, T
    ensures Holds(D, a / b) && Holds(M, a % b) && T.Valid()
  {
    hide Value, NumBits;
    LengthsBound(a, b);
    var la := NumBitsOf(A);
    var lb := NumBitsOf(B);
    if la == lb {
      SetWord(D, 1);
      Sub(M, A, B);
      DivisionUnique(a, b, 1, a - b);
    } else if la == lb + 1 {
      SmallQuotient(D, M, T, A, B, a, b);
    } else {
      var ok := Div(D, M, A, B);
    }
  }

  /** BN_mul_word: r := r * w */
  method MulWord(r: BigNum, w: Word)
    requires r.Normal()
    modifies r
    ensures r.Normal() && r.Mag() == old(r.Mag()) * w && r.neg == old(r.neg)
  {
    hide Value;
    var s, carry := MulWords(r.d[..r.top], w);
    r.d := s + [carry];
    r.top := |r.d|;
    assert r.d[..r.top] == s + [carry];
    r.CorrectTop();
  }

  /** The words of a natural number. */
  function WordsOf(v: nat): seq<Word> {
    if v == 0 then [] else [v % BASE] + WordsOf(v / BASE)
  }

  lemma {:induction false} WordsOfValue(v: nat)
    ensures Value(WordsOf(v)) == v
  {
    if v > 0 {
      WordsOfValue(v / BASE);
      assert WordsOf(v)[1..] == WordsOf(v / BASE);
    }
  }

  /** BN_mul, by its meaning: r := a * b */
  method Mul(r: BigNum, a: BigNum, b: BigNum)
    requires r.Valid() && a.Normal() && b.Normal()
    modifies r
    ensures r.Normal() && r.Mag() == old(a.Mag()) * old(b.Mag()) && r.neg == (old(a.neg) != old(b.neg))
  {
    hide Value;
    var neg := a.neg != b.neg;
    WordsOfValue(a.Mag() * b.Mag());
    r.d := WordsOf(a.Mag() * b.Mag());
    r.top := |r.d|;
    r.neg := neg;
    assert r.d[..r.top] == r.d;
    r.CorrectTop();
  }

  lemma OneWordMag(x: BigNum)
    requires x.Normal() && x.top == 1
    ensures x.Mag() == x.d[0]
  {
    assert x.d[..1] == [x.d[0]];
    ValueOne(x.d[0]);
  }

  /** tmp := D * X + Y, with shortcuts for small quotients. */
  method Combine(tmp: BigNum, D: BigNum, X: BigNum, Y: BigNum, ghost d: nat, ghost x: nat, ghost y: nat)
    requires tmp !in {D, X, Y} && tmp.Valid()
    requires Holds(D, d) && Holds(X, x) && Holds(Y, y)
    modifies tmp
    ensures Holds(tmp, y + d * x)
  {
    hide Value;
    if D.top == 1 {
      OneWordMag(D);
    }
    if D.top == 1 && D.d[0] == 1 && !D.neg {
      Add(tmp, X, Y);
      return;
    }
    if D.top == 1 && D.d[0] == 2 && !D.neg {
      LShift1(tmp, X);
    } else if D.top == 1 && D.d[0] == 4 && !D.neg {
      Pow2Values();
      LShift(tmp, X, 2);
    } else if D.top == 1 {
      Copy(tmp, X);
      MulWord(tmp, D.d[0]);
    } else {
      Mul(tmp, D, X);
    }
    Add(tmp, tmp, Y);
  }

  // ---- the inversion ----

  /** The seven numbers of the computation; each round hands their storage on in a different order. */
  datatype Registers = Registers(A: BigNum, B: BigNum, X: BigNum, Y: BigNum, D: BigNum, M: BigNum, T: BigNum) {
    predicate Distinct() {
      && A !in {B, X, Y, D, M, T} && B !in {X, Y, D, M, T} && X !in {Y, D, M, T}
      && Y !in {D, M, T} && D !in {M, T} && M != T
    }

    function All(): set<BigNum> {
      {A, B, X, Y, D, M, T}
    }

    ghost predicate Holding(av: nat, bv: nat, xv: nat, yv: nat)
      reads A, B, X, Y, D, M, T
    {
      && Holds(A, av) && Holds(B, bv) && Holds(X, xv) && Holds(Y, yv)
      && D.Valid() && M.Valid() && T.Valid()
    }
  }

  /** Y + (A / B) * X */
  function NextCoefficient(av: nat, bv: nat, xv: nat, yv: nat): nat
    requires bv > 0
  {
    QuotientNatural(av, bv);
    MulMonotone(xv, 0, av / bv);
    yv + av / bv * xv
  }

  /** One round: divide, combine the coefficients into the storage A leaves behind, rotate. */
  method Round(g: Registers, ghost av: nat, ghost bv: nat, ghost xv: nat, ghost yv: nat) returns (g': Registers)
    requires g.Distinct() && g.Holding(av, bv, xv, yv)
    requires 0 < bv <= av && g.A.top + 3 <= 128
    modifies g.All()
    ensures g'.Distinct() && g'.All() == g.All()
    ensures g'.Holding(bv, av % bv, NextCoefficient(av, bv, xv, yv), xv)
  {
    hide Value;
    TopBound(g.B, g.A);
    DivMod(g.D, g.M, g.T, g.A, g.B, av, bv);
    QuotientNatural(av, bv);
    Combine(g.A, g.D, g.X, g.Y, av / bv, xv, yv);
    g' := Registers(g.B, g.M, g.A, g.X, g.D, g.Y, g.T);
  }

  /** A := |n| and B := a reduced modulo it. */
  method Reduce(A: BigNum, B: BigNum, a: BigNum, n: BigNum)
    requires A != B && {A, B} !! {a, n} && A.Valid() && B.Valid()
    requires a.Normal() && n.Normal()
    requires !n.neg && n.Mag() > 0 && a.top + 3 <= 128 && n.top + 3 <= 128
    modifies A, B
    ensures Holds(A, n.Mag()) && Holds(B, if NegativeZero(a) then n.Mag() else a.Int() % n.Mag())
  {
    hide Value;
    Copy(B, a);
    Copy(A, n);
    A.neg := false;
    var c := UCmp(B, A);
    if B.neg || c >= 0 {
      var ok := NNMod(B, B, A);
    } else {
      ModOf(a.Int(), n.Mag(), 0, a.Int());
    }
  }

  method NewRegisters() returns (g: Registers)
    ensures g.Distinct() && fresh(g.All()) && g.Holding(0, 0, 0, 0)
  {
    var A := new BigNum();
    var B := new BigNum();
    var X := new BigNum();
    var Y := new BigNum();
    var D := new BigNum();
    var M := new BigNum();
    var T := new BigNum();
    g := Registers(A, B, X, Y, D, M, T);
  }

  /** Rounds until the remainder is zero. */
  method Run(g0: Registers, n: BigNum, ghost a: int, ghost t0: Trace) returns (g: Registers, sign: int, ghost t: Trace)
    requires g0.Distinct() && g0.Holding(t0.A, t0.B, t0.X, t0.Y) && n !in g0.All()
    requires n.Normal() && n.Mag() > 0 && n.top + 3 <= 128
    requires Ready(a, n.Mag(), t0) && t0.Y <= n.Mag() && t0.sign == -1
    modifies g0.All()
    ensures g.Distinct() && g.All() == g0.All() && g.Holding(t.A, 0, t.X, t.Y)
    ensures Euclid(a, n.Mag(), t) && t.B == 0 && t.Y <= n.Mag() && sign == t.sign
  {
    hide Value, Euclid;
    g, sign, t := g0, -1, t0;
    ZeroTop(g.B);
    while g.B.top != 0
      invariant g.Distinct() && g.All() == g0.All() && g.Holding(t.A, t.B, t.X, t.Y)
      invariant g.B.top != 0 <==> t.B != 0
      invariant Ready(a, n.Mag(), t) && t.Y <= n.Mag() && sign == t.sign
      decreases t.B
    {
      ReadyStep(a, n.Mag(), t);
      TopBound(g.A, n);
      QuotientSpec(t.A, t.B);
      g := Round(g, t.A, t.B, t.X, t.Y);
      t := Next(t, t.A / t.B, t.A % t.B);
      ZeroTop(g.B);
      sign := 0 - sign;
    }
    ReadyEnd(a, n.Mag(), t);
  }

  /** From the last registers to the answer: none unless the common divisor is one. */
  method Finish(g: Registers, R: BigNum, n: BigNum, sign: int, ghost a: int, ghost t: Trace) returns (found: bool)
    requires g.Distinct() && g.Holding(t.A, 0, t.X, t.Y) && {R, n} !! g.All() && R.Valid()
    requires n.Normal() && !n.neg && n.Mag() > 0 && n.top + 3 <= 128
    requires Euclid(a, n.Mag(), t) && t.B == 0 && t.Y <= n.Mag() && sign == t.sign
    modifies R, g.Y
    ensures found == Coprime(a, old(n.Mag())) == Invertible(a, old(n.Mag()))
    ensures found ==> R.Normal() && IsInverse(a, old(n.Mag()), R.Int())
    ensures !found ==> unchanged(R)
  {
    hide Value, Euclid, IsInverse, Invertible, Coprime, Divides;
    InvertibleIffCoprime(a, n.Mag());
    ghost var nv, yv := n.Mag(), LastCoefficient(n.Mag(), t);
    if sign < 0 {
      Sub(g.Y, n, g.Y);
    }
    assert Holds(g.Y, yv);
    var one := IsOne(g.A);
    if !one {
      EndDivides(a, nv, t);
      CommonDivisorBlocks(a, nv, t.A);
      return false;
    }
    EndInverse(a, nv, t);
    StoreReduced(R, g.Y, n, yv);
    InverseFromMod(a, nv, yv, R.Int());
    return true;
  }

  /** R := y reduced modulo n, for 0 <= y <= n; R may be n itself. */
  method StoreReduced(R: BigNum, y: BigNum, n: BigNum, ghost yv: nat)
    requires R != y && y != n && R.Valid() && Holds(y, yv)
    requires n.Normal() && !n.neg && n.Mag() > 0 && n.top + 3 <= 128 && yv <= n.Mag()
    modifies R
    ensures R.Normal() && R.Int() == yv % old(n.Mag())
  {
    hide Value;
    TopBound(y, n);
    var c := UCmp(y, n);
    if !y.neg && c < 0 {
      ModOf(yv, n.Mag(), 0, yv);
      Copy(R, y);
    } else {
      var ok := NNMod(R, y, n);
    }
  }

  /**
   The general branch: R := the inverse of a modulo n, when there is one. The
   result may share the storage of either, and a may be a negative zero.
   */
  method Inverse(R: BigNum, a: BigNum, n: BigNum) returns (found: bool)
    requires R.Valid() && a.Normal() && n.Normal()
    requires !n.neg && n.Mag() > 0 && a.top + 3 <= 128 && n.top + 3 <= 128
    modifies R
    ensures found == Coprime(old(a.Int()), old(n.Mag())) == Invertible(old(a.Int()), old(n.Mag()))
    ensures found ==> R.Normal() && IsInverse(old(a.Int()), old(n.Mag()), R.Int())
    ensures !found ==> unchanged(R)
  {
    hide Value, Euclid, IsInverse, Invertible, Coprime;
    ghost var av := a.Int();
    ghost var t0 := if NegativeZero(a) then ZeroStart(n.Mag()) else Start(av, n.Mag());
    var g := NewRegisters();
    SetWord(g.X, 1);
    Reduce(g.A, g.B, a, n);
    EuclidStart(av, n.Mag());
    var sign;
    ghost var t;
    g, sign, t := Run(g, n, av, t0);
    found := Finish(g, R, n, sign, av, t);
  }

  /** BN_is_one */
  method IsOne(x: BigNum) returns (b: bool)
    requires x.Normal() && !x.neg
    ensures b == (x.Mag() == 1)
  {
    if x.top == 1 {
      OneWordMag(x);
      return x.d[0] == 1;
    }
    OneHasOneWord(x.d[..x.top]);
    return false;
  }

  lemma OneHasOneWord(s: seq<Word>)
    requires |s| != 1 && (|s| > 0 ==> s[|s| - 1] != 0)
    ensures Value(s) != 1
  {
    if |s| > 1 {
      ValueTopNonzero(s);
      PowMonotone(1, |s| - 1);
    }
  }
}
