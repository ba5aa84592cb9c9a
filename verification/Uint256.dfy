/** Fixed-width unsigned numbers on an array of eight words: arithmetic modulo 2^256, shifts and comparison. */
module Uint256 {
  import opened Words
  import opened Bits
  import opened NumberTheory
  import opened BigNums
  import opened BigNumArith

  const WIDTH: nat := 8

  /** 2^256 */
  function Modulus(): (m: nat)
    ensures m > 0
  {
    Pow(WIDTH)
  }

  lemma ValueFits(s: seq<Word>)
    requires |s| == WIDTH
    ensures Value(s) < Modulus()
  {
    ValueBound(s);
  }

  /** Replacing a word changes the value by its weight. */
  lemma ValueUpdate(s: seq<Word>, i: nat, w: Word)
    requires i < |s|
    ensures Value(s[i := w]) == Value(s) + Pow(i) * (w - s[i])
  {
    hide Value, Pow;
    var t := s[i := w];
    ValueSplit(s, i + 1);
    ValueSplit(t, i + 1);
    ValueTake(s, i);
    ValueTake(t, i);
    assert t[..i] == s[..i] && t[i + 1..] == s[i + 1..];
    assert Pow(i) * (w - s[i]) == Pow(i) * w - Pow(i) * s[i];
  }

  function Complemented(s: seq<Word>): (r: seq<Word>)
    ensures |r| == |s|
  {
    seq(|s|, i requires 0 <= i < |s| => BASE - 1 - s[i])
  }

  lemma {:induction false} ComplementValue(s: seq<Word>)
    ensures Value(Complemented(s)) + Value(s) == Pow(|s|) - 1
  {
    if s != [] {
      ComplementValue(s[1..]);
      assert Complemented(s)[1..] == Complemented(s[1..]);
    }
  }

  /** The carry of an increment has gone through the words before i. */
  ghost predicate Carrying(s: seq<Word>, v: nat, i: nat) {
    i < |s| && Value(s) + (if s[i] == 0 then Pow(i + 1) else 0) == v + 1
  }

  /** ++ and -- on one word, wrapping around */
  function Up(x: Word): Word {
    if x == BASE - 1 then 0 else x + 1
  }

  function Down(x: Word): Word {
    if x == 0 then BASE - 1 else x - 1
  }

  lemma UpdateUp(s: seq<Word>, i: nat)
    requires i < |s|
    ensures Value(s[i := Up(s[i])]) == Value(s) + Pow(i) - (if Up(s[i]) == 0 then Pow(i + 1) else 0)
  {
    hide Value;
    ValueUpdate(s, i, Up(s[i]));
    MulCommutes(Pow(i), Up(s[i]) - s[i]);
  }

  lemma UpdateDown(s: seq<Word>, i: nat)
    requires i < |s|
    ensures Value(s[i := Down(s[i])]) == Value(s) - Pow(i) + (if Down(s[i]) == BASE - 1 then Pow(i + 1) else 0)
  {
    hide Value;
    ValueUpdate(s, i, Down(s[i]));
    MulCommutes(Pow(i), Down(s[i]) - s[i]);
  }

  lemma CarryInto(s: seq<Word>, v: nat, i: nat)
    requires i < |s| && Value(s) + Pow(i) == v + 1
    ensures Carrying(s[i := Up(s[i])], v, i)
  {
    hide Value, Pow, Up;
    UpdateUp(s, i);
    assert s[i := Up(s[i])][i] == Up(s[i]);
  }

  /** The borrow of a decrement, likewise. */
  ghost predicate Borrowing(s: seq<Word>, v: int, i: nat) {
    i < |s| && Value(s) - (if s[i] == BASE - 1 then Pow(i + 1) else 0) == v - 1
  }

  lemma BorrowFrom(s: seq<Word>, v: int, i: nat)
    requires i < |s| && Value(s) - Pow(i) == v - 1
    ensures Borrowing(s[i := Down(s[i])], v, i)
  {
    hide Value, Pow, Down;
    UpdateDown(s, i);
    assert s[i := Down(s[i])][i] == Down(s[i]);
  }

  // ---- shifts ----

  /** The words of a shifted left by k bits, one more than a has. */
  function Lifted(a: seq<Word>, k: nat): (t: seq<Word>)
    requires k < 32
    ensures |t| == |a| + 1 && t[|a|] < Pow2(k)
    ensures Value(t) == Value(a) * Pow2(k)
  {
    if a == [] then
      ValueOne(0);
      [0]
    else
      var n := |a| - 1;
      var t, l := Lifted(a[..n], k), a[n];
      LiftedStep(a, t, k);
      t[n := BitOr(t[n], Shl(l, k))] + [Shr(l, 32 - k)]
  }

  lemma LiftedStep(a: seq<Word>, t: seq<Word>, k: nat)
    requires k < 32 && |a| > 0 && |t| == |a| && t[|a| - 1] < Pow2(k)
    requires Value(t) == Value(a[..|a| - 1]) * Pow2(k)
    ensures (var n, l := |a| - 1, a[|a| - 1];
             && BitOr(t[n], Shl(l, k)) < BASE && Shr(l, 32 - k) < Pow2(k)
             && Value(t[n := BitOr(t[n], Shl(l, k))] + [Shr(l, 32 - k)]) == Value(a) * Pow2(k))
  {
    hide Value, Pow, Pow2, Shl, Shr;
    var n, l, p := |a| - 1, a[|a| - 1], Pow2(k);
    ShiftSplit(l, k);
    BitOrDisjoint(t[n], Shl(l, k), k);
    Pow2Word(k);
    RoomAbove(Shl(l, k), p, Pow2(32 - k), t[n]);
    var w := t[n] + Shl(l, k);
    ValueUpdate(t, n, w);
    ValueSnoc(t[n := w], Shr(l, 32 - k));
    ValueLast(a);
    Weights(Value(a[..n]), n, l, p, Shl(l, k), Shr(l, 32 - k));
  }

  lemma Weights(v: nat, n: nat, l: nat, p: nat, lo: nat, hi: nat)
    requires l * p == lo + BASE * hi
    ensures (v + Pow(n) * l) * p == v * p + Pow(n) * lo + Pow(n + 1) * hi
  {
    var q := Pow(n);
    MulAssoc(q, l, p);
    assert q * (l * p) == q * lo + q * (BASE * hi);
    MulAssoc(q, BASE, hi);
  }

  /** WIDTH words with t from word k up, as far as there is room. */
  function Placed(t: seq<Word>, k: nat): (s: seq<Word>)
    ensures |s| == WIDTH
  {
    (Zeros(k) + t + Zeros(WIDTH))[..WIDTH]
  }

  lemma PlacedValue(t: seq<Word>, k: nat)
    ensures Value(Placed(t, k)) == Pow(k) * Value(t) % Modulus()
  {
    hide Value, Pow;
    var full := Zeros(k) + t + Zeros(WIDTH);
    ValueConcat(Zeros(k) + t, Zeros(WIDTH));
    ValueConcat(Zeros(k), t);
    ValueZeros(Zeros(k));
    ValueZeros(Zeros(WIDTH));
    ValueSplit(full, WIDTH);
    ValueFits(Placed(t, k));
    assert Pow(|Zeros(k) + t|) * 0 == 0;
    ModOf(Pow(k) * Value(t), Modulus(), Value(full[WIDTH..]), Value(Placed(t, k)));
  }

  lemma OrWithZero(x: Word)
    ensures BitOr(0, x) == x && BitOr(x, 0) == x
  {
    BitOrZero(x);
    BitOrSymmetric(x, 0);
  }

  /** A word shifted by a whole word leaves nothing. */
  lemma NothingOut(l: Word)
    ensures Shr(l, 32) == 0
  {
    Pow2Values();
    ModOf(l, BASE, 0, l);
  }

  lemma LiftedMore(a: seq<Word>, i: nat, b: nat)
    requires i < |a| && b < 32
    ensures (var t, l := Lifted(a[..i], b), a[i];
             && BitOr(t[i], Shl(l, b)) < BASE
             && Lifted(a[..i + 1], b) == t[i := BitOr(t[i], Shl(l, b))] + [Shr(l, 32 - b)])
  {
    hide Value, Shl, Shr, Pow2;
    var c := a[..i + 1];
    assert c[..i] == a[..i] && c[i] == a[i];
    LiftedStep(c, Lifted(a[..i], b), b);
  }

  /** One round of the left shift: the carried-out bits go to a free word, the others join the word below it. */
  lemma LiftRound(a: seq<Word>, i: nat, k: nat, b: nat)
    requires i < |a| && b < 32
    ensures (var s, l := Placed(Lifted(a[..i], b), k), a[i];
             && (i + k + 1 < WIDTH ==> BitOr(s[i + k + 1], Shr(l, 32 - b)) == Shr(l, 32 - b))
             && (i + k < WIDTH ==> BitOr(s[i + k], Shl(l, b)) < BASE)
             && Placed(Lifted(a[..i + 1], b), k) == LiftWrites(s, l, i + k, b))
  {
    hide Value, Pow, Shl, Shr, Lifted, BitOr;
    var t, l := Lifted(a[..i], b), a[i];
    LiftedMore(a, i, b);
    OrWithZero(Shr(l, 32 - b));
    if b == 0 {
      NothingOut(l);
    }
  }

  /** What the two writes of a round make of the array. */
  function LiftWrites(s: seq<Word>, l: Word, j: nat, b: nat): seq<Word>
    requires |s| == WIDTH && b < 32 && (j < WIDTH ==> BitOr(s[j], Shl(l, b)) < BASE)
    requires j + 1 < WIDTH ==> BitOr(s[j + 1], Shr(l, 32 - b)) == Shr(l, 32 - b)
  {
    var s1 := if j + 1 < WIDTH && b != 0 then s[j + 1 := Shr(l, 32 - b)] else s;
    if j < WIDTH then s1[j := BitOr(s[j], Shl(l, b))] else s1
  }

  /** The bits a word lends to the one below it. */
  function Lent(l: Word, b: nat): Word
    requires b < 32
  {
    if b == 0 then 0 else Shl(l, 32 - b)
  }

  lemma LentFits(m: Word, l: Word, b: nat)
    requires b < 32
    ensures BitOr(Shr(m, b), Lent(l, b)) < BASE
  {
    if b == 0 {
      OrWithZero(Shr(m, 0));
    } else {
      ShiftRightStep(m, l, 0, b);
    }
  }

  /** The words of F shifted right by b bits. */
  function Dropped(F: seq<Word>, b: nat): (r: seq<Word>)
    requires b < 32
    ensures |r| == |F|
    ensures F != [] ==> r[|F| - 1] == Shr(F[|F| - 1], b)
  {
    if |F| == 0 then []
    else if |F| == 1 then [Shr(F[0], b)]
    else
      LentFits(F[0], F[1], b);
      [BitOr(Shr(F[0], b), Lent(F[1], b))] + Dropped(F[1..], b)
  }

  lemma {:induction false} DroppedValue(F: seq<Word>, b: nat)
    requires b < 32
    ensures Value(Dropped(F, b)) == Shifted(F, b)
  {
    hide Shl, Shr, Pow2, BitOr, Shifted;
    if |F| == 0 {
      ShiftedNone(b);
    } else if |F| == 1 {
      ShiftedOne(F, b);
      ValueOne(Shr(F[0], b));
    } else {
      DroppedValue(F[1..], b);
      LentFits(F[0], F[1], b);
      ShiftedMore(F, b);
      assert Dropped(F, b)[1..] == Dropped(F[1..], b);
    }
  }

  lemma ShiftedNone(b: nat)
    ensures Shifted([], b) == 0
  {
    ModOf(0, Pow2(b), 0, 0);
  }

  lemma ShiftedOne(F: seq<Word>, b: nat)
    requires |F| == 1
    ensures Shifted(F, b) == Shr(F[0], b)
  {
    ShiftedLast(F, b);
  }

  lemma ShiftedMore(F: seq<Word>, b: nat)
    requires b < 32 && |F| >= 2
    ensures Shifted(F, b) == BitOr(Shr(F[0], b), Lent(F[1], b)) + BASE * Shifted(F[1..], b)
  {
    if b == 0 {
      assert Pow2(0) == 1;
      OrWithZero(F[0]);
      ShrZero(F[0]);
    } else {
      ShiftedStep(F, b);
    }
  }

  /** One more word on top lends its bits to the one that was last. */
  lemma {:induction false} DroppedMore(F: seq<Word>, l: Word, b: nat)
    requires b < 32 && F != []
    ensures (var r, n := Dropped(F, b), |F| - 1;
             BitOr(r[n], Lent(l, b)) < BASE
             && Dropped(F + [l], b) == r[n := BitOr(r[n], Lent(l, b))] + [Shr(l, b)])
  {
    hide Shl, Shr, BitOr, Lent;
    var G := F + [l];
    LentFits(F[|F| - 1], l, b);
    assert G[1..] == F[1..] + [l];
    if |F| == 1 {
      assert G[1..] == [l];
    } else {
      DroppedMore(F[1..], l, b);
    }
  }

  lemma NoWords()
    ensures Value([]) == 0
  {
  }

  lemma PowZero()
    ensures Pow(0) == 1
  {
  }

  lemma CarriedOn(s: seq<Word>, v: nat, i: nat)
    requires 0 < i < |s| && Carrying(s, v, i - 1) && s[i - 1] == 0
    ensures Value(s) + Pow(i) == v + 1
  {
    hide Value, Pow;
  }

  lemma CarryEnds(s: seq<Word>, v: nat, i: nat)
    requires |s| == WIDTH && Carrying(s, v, i) && (s[i] != 0 || i == WIDTH - 1) && v < Modulus()
    ensures Value(s) == (v + 1) % Modulus()
  {
    hide Value, Pow;
    ValueFits(s);
    ModOf(v + 1, Modulus(), if s[i] == 0 then 1 else 0, Value(s));
  }

  lemma BorrowedOn(s: seq<Word>, v: int, i: nat)
    requires 0 < i < |s| && Borrowing(s, v, i - 1) && s[i - 1] == BASE - 1
    ensures Value(s) - Pow(i) == v - 1
  {
    hide Value, Pow;
  }

  lemma BorrowEnds(s: seq<Word>, v: int, i: nat)
    requires |s| == WIDTH && Borrowing(s, v, i) && (s[i] != BASE - 1 || i == WIDTH - 1)
    ensures Value(s) == (v - 1) % Modulus()
  {
    hide Value, Pow;
    ValueFits(s);
    ModOf(v - 1, Modulus(), if s[i] == BASE - 1 then -1 else 0, Value(s));
  }

  lemma LiftNothing(k: nat, b: nat)
    requires b < 32
    ensures Placed(Lifted([], b), k) == Zeros(WIDTH)
  {
  }

  lemma ShiftWeight(v: nat, k: nat, b: nat, n: nat)
    requires n == 32 * k + b
    ensures Pow(k) * (v * Pow2(b)) == v * Pow2(n)
  {
    hide Pow, Pow2;
    PowIsPow2(k);
    Pow2Add(32 * k, b);
    ScaleAssoc(Pow(k) * (v * Pow2(b)), Pow(k), v, Pow2(b), Pow2(n));
  }

  /** The words the right shift has taken in after i rounds. */
  function From(a: seq<Word>, k: nat, i: nat): seq<Word>
    requires i <= |a|
  {
    if i > k then a[k..i] else []
  }

  lemma DropNothing(b: nat)
    requires b < 32
    ensures Placed(Dropped([], b), 0) == Zeros(WIDTH)
  {
  }

  /** What the two writes of a round of the right shift make of the array. */
  function DropWrites(s: seq<Word>, l: Word, i: nat, k: nat, b: nat): seq<Word>
    requires |s| == WIDTH && i < WIDTH && b < 32
    requires i >= k + 1 && b != 0 ==> BitOr(s[i - k - 1], Shl(l, 32 - b)) < BASE
  {
    var s1 := if i >= k + 1 && b != 0 then s[i - k - 1 := BitOr(s[i - k - 1], Shl(l, 32 - b))] else s;
    if i >= k then s1[i - k := Shr(l, b)] else s1
  }

  lemma DropRound(a: seq<Word>, i: nat, k: nat, b: nat)
    requires |a| == WIDTH && i < WIDTH && b < 32
    ensures (var s, l := Placed(Dropped(From(a, k, i), b), 0), a[i];
             && (i >= k + 1 && b != 0 ==> BitOr(s[i - k - 1], Shl(l, 32 - b)) < BASE)
             && (i >= k ==> BitOr(s[i - k], Shr(l, b)) == Shr(l, b))
             && Placed(Dropped(From(a, k, i + 1), b), 0) == DropWrites(s, l, i, k, b))
  {
    hide Shl, Shr, Dropped, BitOr;
    var F, l := From(a, k, i), a[i];
    if i >= k {
      assert From(a, k, i + 1) == F + [l];
      OrWithZero(Shr(l, b));
      if i == k {
        DroppedOne(l, b);
        assert F + [l] == [l];
      } else {
        DroppedMore(F, l, b);
        if b == 0 {
          OrWithZero(Dropped(F, b)[|F| - 1]);
        }
      }
    }
  }

  lemma DroppedOne(l: Word, b: nat)
    requires b < 32
    ensures Dropped([l], b) == [Shr(l, b)] && Dropped([], b) == []
  {
  }

  lemma DropEnds(a: seq<Word>, k: nat, b: nat, n: nat)
    requires |a| == WIDTH && b == n % 32 && k == n / 32
    ensures Value(Placed(Dropped(From(a, k, WIDTH), b), 0)) == Value(a) / Pow2(n)
  {
    hide Value, Pow, Pow2, Dropped, Shifted;
    var F := From(a, k, WIDTH);
    var t := Dropped(F, b);
    assert Placed(t, 0) == t + Zeros(WIDTH - |t|);
    ValueConcat(t, Zeros(WIDTH - |t|));
    ValueZeros(Zeros(WIDTH - |t|));
    DroppedValue(F, b);
    if k < WIDTH {
      ShiftRightTotal(a, n);
      assert F == a[k..];
    } else {
      ShiftRightAll(a, n);
      ShiftedNone(b);
    }
  }

  // ---- laws ----

  lemma SumLessAddend(x: nat, y: nat, m: nat)
    requires x < m
    ensures ((x + y) % m - y) % m == x
  {
    ModSpec(x + y, m);
    ModOf((x + y) % m - y, m, 0 - (x + y) / m, x) by {
      assert m * (0 - (x + y) / m) == 0 - m * ((x + y) / m);
    }
  }

  /** A product reduced modulo 2^256 and divided again gives the number back exactly when it was not reduced. */
  lemma ReducedProduct(x: nat, n: nat)
    requires x < Modulus()
    ensures (x * Pow2(n) % Modulus()) / Pow2(n) == x <==> x * Pow2(n) < Modulus()
  {
    hide Pow, Pow2;
    var p, m := Pow2(n), Modulus();
    MulCommutes(x, p);
    if x * p < m {
      ModOf(x * p, m, 0, x * p);
      ModOf(x * p, p, x, 0);
    } else {
      var r := x * p % m;
      ModSpec(x * p, m);
      MultipleBounds(m, x * p / m);
      QuotientAtLeast(x * p, m, 0);
      QuotientLess(r, p, x);
    }
  }

  // ---- the number ----

  class BaseUint {
    const pn: array<Word>

    ghost predicate Valid() {
      pn.Length == WIDTH
    }

    ghost function Val(): (v: nat)
      requires Valid()
      reads pn
      ensures v < Modulus()
    {
      ValueFits(pn[..]);
      Value(pn[..])
    }

    constructor ()
      ensures Valid() && fresh(pn) && Val() == 0
    {
      pn := new Word[WIDTH](_ => 0);
      new;
      ValueZeros(pn[..]);
    }

    /** operator+=; b may be this number itself. */
    method Plus(b: BaseUint)
      requires Valid() && b.Valid()
      modifies pn
      ensures Val() == (old(Val()) + old(b.Val())) % Modulus()
    {
      hide Value, Pow;
      ghost var A, B := pn[..], b.pn[..];
      var carry: nat := 0;
      var i := 0;
      NoWords();
      while i < WIDTH
        invariant i <= WIDTH && carry <= 1 && pn[i..] == A[i..] && b.pn[i..] == B[i..]
        invariant Value(pn[..i]) + Pow(i) * carry == Value(A[..i]) + Value(B[..i])
      {
        assert pn[i] == A[i] && b.pn[i] == B[i];
        ghost var low := pn[..i];
        var n: nat := carry + pn[i] + b.pn[i];
        CarryStep(i, A[i], B[i], n % BASE, carry, n / BASE, Value(A[..i]), Value(B[..i]), Value(low));
        ValueTake(A, i);
        ValueTake(B, i);
        pn[i] := n % BASE;
        carry := n / BASE;
        assert pn[..i + 1] == low + [n % BASE];
        ValueSnoc(low, n % BASE);
        i := i + 1;
      }
      assert pn[..i] == pn[..] && A[..i] == A && B[..i] == B;
      ValueFits(pn[..]);
      ModOf(Value(A) + Value(B), Modulus(), carry, Value(pn[..]));
    }

    /** operator++, the carry running up as long as words turn zero. */
    method Increment()
      requires Valid()
      modifies pn
      ensures Val() == (old(Val()) + 1) % Modulus()
    {
      hide Value, Pow, Carrying;
      ghost var v := Val();
      ghost var s := pn[..];
      PowZero();
      CarryInto(s, v, 0);
      var i := 0;
      pn[i] := Up(pn[i]);
      assert pn[..] == s[i := Up(s[i])];
      while pn[i] == 0 && i < WIDTH - 1
        invariant i < WIDTH && Carrying(pn[..], v, i)
      {
        i := i + 1;
        s := pn[..];
        CarriedOn(s, v, i);
        CarryInto(s, v, i);
        pn[i] := Up(pn[i]);
        assert pn[..] == s[i := Up(s[i])];
      }
      CarryEnds(pn[..], v, i);
    }

    /** operator--, the borrow running up as long as words turn all ones. */
    method Decrement()
      requires Valid()
      modifies pn
      ensures Val() == (old(Val()) - 1) % Modulus()
    {
      hide Value, Pow, Borrowing;
      ghost var v := Val();
      ghost var s := pn[..];
      PowZero();
      BorrowFrom(s, v, 0);
      var i := 0;
      pn[i] := Down(pn[i]);
      assert pn[..] == s[i := Down(s[i])];
      while pn[i] == BASE - 1 && i < WIDTH - 1
        invariant i < WIDTH && Borrowing(pn[..], v, i)
      {
        i := i + 1;
        s := pn[..];
        BorrowedOn(s, v, i);
        BorrowFrom(s, v, i);
        pn[i] := Down(pn[i]);
        assert pn[..] == s[i := Down(s[i])];
      }
      BorrowEnds(pn[..], v, i);
    }

    /** unary minus: the complement plus one. */
    method Negated() returns (ret: BaseUint)
      requires Valid()
      ensures ret.Valid() && fresh(ret) && fresh(ret.pn) && ret.Val() == (0 - Val()) % Modulus()
    {
      hide Value, Pow;
      ret := new BaseUint();
      var i := 0;
      while i < WIDTH
        invariant i <= WIDTH && forall j :: 0 <= j < i ==> ret.pn[j] == BASE - 1 - pn[j]
      {
        ret.pn[i] := BASE - 1 - pn[i];
        i := i + 1;
      }
      assert ret.pn[..] == Complemented(pn[..]);
      ComplementValue(pn[..]);
      ret.Increment();
      ModShift(Modulus() - Val(), 0 - Val(), Modulus(), 1);
    }

    /** operator-= */
    method Minus(b: BaseUint)
      requires Valid() && b.Valid()
      modifies pn
      ensures Val() == (old(Val()) - old(b.Val())) % Modulus()
    {
      hide Value, Pow;
      ghost var x, y := Val(), b.Val();
      var negated := b.Negated();
      Plus(negated);
      ModSpec(0 - y, Modulus());
      ModShift(x - y, x + negated.Val(), Modulus(), (0 - y) / Modulus());
    }

    /** operator<<= */
    method ShiftLeft(shift: nat)
      requires Valid()
      modifies pn
      ensures Val() == old(Val()) * Pow2(shift) % Modulus()
    {
      hide Value, Pow, Pow2, Shl, Shr, Lifted, Placed, BitOr;
      var a := pn[..];
      Clear();
      var k, b := shift / 32, shift % 32;
      LiftNothing(k, b);
      assert a[..0] == [];
      var i := 0;
      while i < WIDTH
        invariant i <= WIDTH && pn[..] == Placed(Lifted(a[..i], b), k)
      {
        ghost var s := pn[..];
        LiftRound(a, i, k, b);
        if i + k + 1 < WIDTH && b != 0 {
          pn[i + k + 1] := BitOr(pn[i + k + 1], Shr(a[i], 32 - b));
        }
        if i + k < WIDTH {
          pn[i + k] := BitOr(pn[i + k], Shl(a[i], b));
        }
        assert pn[..] == LiftWrites(s, a[i], i + k, b);
        i := i + 1;
      }
      assert a[..i] == a;
      PlacedValue(Lifted(a, b), k);
      ShiftWeight(Value(a), k, b, shift);
    }

    method Clear()
      requires Valid()
      modifies pn
      ensures pn[..] == Zeros(WIDTH)
    {
      var i := 0;
      while i < WIDTH
        invariant i <= WIDTH && forall j :: 0 <= j < i ==> pn[j] == 0
      {
        pn[i] := 0;
        i := i + 1;
      }
    }

    /** operator>>= */
    method ShiftRight(shift: nat)
      requires Valid()
      modifies pn
      ensures Val() == old(Val()) / Pow2(shift)
    {
      hide Value, Pow, Pow2, Shl, Shr, Dropped, Placed, BitOr, Shifted;
      var a := pn[..];
      Clear();
      var k, b := shift / 32, shift % 32;
      DropNothing(b);
      var i := 0;
      while i < WIDTH
        invariant i <= WIDTH && pn[..] == Placed(Dropped(From(a, k, i), b), 0)
      {
        ghost var s := pn[..];
        DropRound(a, i, k, b);
        if i >= k + 1 && b != 0 {
          pn[i - k - 1] := BitOr(pn[i - k - 1], Shl(a[i], 32 - b));
        }
        if i >= k {
          pn[i - k] := BitOr(pn[i - k], Shr(a[i], b));
        }
        assert pn[..] == DropWrites(s, a[i], i, k, b);
        i := i + 1;
      }
      DropEnds(a, k, b, shift);
    }

    /** operator<, from the top word down */
    method Less(b: BaseUint) returns (r: bool)
      requires Valid() && b.Valid()
      ensures r == (Val() < b.Val())
    {
      hide Value, Pow;
      var i: nat := WIDTH;
      while i > 0
        invariant i <= WIDTH && pn[i..] == b.pn[i..]
      {
        i := i - 1;
        if pn[i] < b.pn[i] {
          CompareAt(pn[..], b.pn[..], i);
          return true;
        } else if pn[i] > b.pn[i] {
          CompareAt(b.pn[..], pn[..], i);
          return false;
        }
      }
      assert pn[..] == b.pn[..];
      return false;
    }

    /** operator== : equal words are equal numbers, and only they. */
    method Equal(b: BaseUint) returns (r: bool)
      requires Valid() && b.Valid()
      ensures r == (Val() == b.Val())
    {
      hide Value, Pow;
      var i := 0;
      while i < WIDTH
        invariant i <= WIDTH && pn[..i] == b.pn[..i]
      {
        if pn[i] != b.pn[i] {
          if Val() == b.Val() {
            ValueInjective(pn[..], b.pn[..]);
          }
          return false;
        }
        i := i + 1;
      }
      assert pn[..] == pn[..i] && b.pn[..] == b.pn[..i];
      return true;
    }
  }

  // ---- laws of the operators ----

  lemma ModulusIs()
    ensures Modulus() == Pow2(256)
  {
    PowIsPow2(WIDTH);
  }

  /** a += b; a -= b; leaves a as it was. */
  method PlusThenMinus(a: BaseUint, b: BaseUint)
    requires a.Valid() && b.Valid() && a.pn != b.pn
    modifies a.pn
    ensures a.Val() == old(a.Val())
  {
    hide Value;
    SumLessAddend(a.Val(), b.Val(), Modulus());
    a.Plus(b);
    a.Minus(b);
  }

  /** a += a; a -= a; leaves zero. */
  method DoubleThenMinus(a: BaseUint)
    requires a.Valid()
    modifies a.pn
    ensures a.Val() == 0
  {
    a.Plus(a);
    a.Minus(a);
    ModOf(0, Modulus(), 0, 0);
  }

  /** Shifting left and back returns the number if and only if no bit was shifted out. */
  method ShiftThereAndBack(a: BaseUint, n: nat)
    requires a.Valid()
    modifies a.pn
    ensures a.Val() == old(a.Val()) <==> old(a.Val()) * Pow2(n) < Modulus()
  {
    hide Value, Pow, Pow2;
    ReducedProduct(a.Val(), n);
    a.ShiftLeft(n);
    a.ShiftRight(n);
  }

  /** Negating twice changes nothing. */
  method NegateTwice(a: BaseUint) returns (b: BaseUint)
    requires a.Valid()
    ensures b.Valid() && b.Val() == a.Val()
  {
    hide Value, Pow;
    b := a.Negated();
    b := b.Negated();
    NegationInvolutive(a.Val(), Modulus());
  }

  lemma NegationInvolutive(x: nat, m: nat)
    requires x < m
    ensures (0 - (0 - x) % m) % m == x
  {
    if x == 0 {
      ModOf(0, m, 0, 0);
    } else {
      ModOf(0 - x, m, -1, m - x);
      ModOf(x - m, m, -1, x);
    }
  }
}
