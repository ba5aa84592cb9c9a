/** The order in which the scan visits candidate bits, and the list of those it stops at. */
module SieveScanSpec {
  import opened Words
  import opened Bits
  import opened NumberTheory
  import opened SieveBits
  import opened SieveApply

  /** Level 0 is the default part; level e + 1 is extension e. */
  datatype Place = Place(level: nat, index: nat)

  /** The candidate bitmaps of a sieve with ext extensions. */
  datatype View = View(candidates: seq<SieveWord>, extended: seq<SieveWord>, words: nat, ext: nat) {
    predicate Valid() {
      |candidates| == words && |extended| == ext * words && words % 2 == 0
    }

    function Size(): nat {
      words * WORD_BITS
    }

    /** The bitmap of a level. */
    function Level(level: nat): (bitmap: seq<SieveWord>)
      requires Valid() && level <= ext
      ensures |bitmap| == words
    {
      if level == 0 then candidates
      else
        RowRange(level - 1, ext, words);
        Row(extended, level - 1, words)
    }

    predicate SetAt(level: nat, index: nat)
      requires Valid() && level <= ext && index < Size()
    {
      Bit(Level(level), index)
    }

    /** Where a level's scan begins: extensions repeat nothing of their lower half. */
    function Begin(level: nat): (b: nat)
      ensures b <= Size()
    {
      if level == 0 then 0 else Size() / 2
    }

    /** The set places at or after an index of a level, in scan order. */
    function Rest(level: nat, index: nat): seq<Place>
      requires Valid() && level <= ext && index <= Size()
      decreases ext - level, Size() - index
    {
      if index < Size() then
        (if SetAt(level, index) then [Place(level, index)] else []) + Rest(level, index + 1)
      else if level < ext then Rest(level + 1, Begin(level + 1))
      else []
    }

    /** A stretch without set bits can be skipped. */
    lemma {:induction false} RestSkips(level: nat, index: nat, to: nat)
      requires Valid() && level <= ext && index <= to <= Size()
      requires forall j :: index <= j < to ==> !SetAt(level, j)
      ensures Rest(level, index) == Rest(level, to)
      decreases Size() - index
    {
      hide SetAt, Begin, Level, Rest;
      if index < to {
        RestHere(level, index);
        RestSkips(level, index + 1, to);
      }
    }

    lemma ZeroWordSkips(level: nat, index: nat)
      requires Valid() && level <= ext && index < Size() && index % WORD_BITS == 0
      requires Level(level)[GetWordNum(index)] == ZeroWord()
      ensures Rest(level, index) == Rest(level, index + WORD_BITS)
    {
      forall j | index <= j < index + WORD_BITS
        ensures !SetAt(level, j)
      {
        assert GetWordNum(j) == GetWordNum(index);
      }
      RestSkips(level, index, index + WORD_BITS);
    }

    /** Every listed place is set, lies in its level's scanned range and comes no earlier than asked. */
    lemma {:induction false} RestSound(level: nat, index: nat, n: nat)
      requires Valid() && level <= ext && Begin(level) <= index <= Size() && n < |Rest(level, index)|
      ensures var q := Rest(level, index)[n];
              && level <= q.level <= ext && Begin(q.level) <= q.index < Size() && SetAt(q.level, q.index)
              && (q.level == level ==> index <= q.index)
      decreases ext - level, Size() - index
    {
      hide SetAt, Begin, Level;
      if index < Size() {
        if SetAt(level, index) {
          if n > 0 {
            RestSound(level, index + 1, n - 1);
          }
        } else {
          RestSound(level, index + 1, n);
        }
      } else if level < ext {
        RestSound(level + 1, Begin(level + 1), n);
      }
    }

    /** Every set place of a scanned range is listed. */
    lemma {:induction false} RestComplete(level: nat, index: nat, q: Place) returns (n: nat)
      requires Valid() && level <= ext && Begin(level) <= index <= Size()
      requires level <= q.level <= ext && Begin(q.level) <= q.index < Size() && SetAt(q.level, q.index)
      requires q.level == level ==> index <= q.index
      ensures n < |Rest(level, index)| && Rest(level, index)[n] == q
      decreases ext - level, Size() - index
    {
      hide SetAt, Begin, Level;
      if index < Size() {
        if q == Place(level, index) {
          n := 0;
        } else {
          n := RestComplete(level, index + 1, q);
          if SetAt(level, index) {
            n := n + 1;
          }
        }
      } else {
        n := RestComplete(level + 1, Begin(level + 1), q);
      }
    }

    lemma RestHere(level: nat, index: nat)
      requires Valid() && level <= ext && index <= Size()
      ensures index < Size() && SetAt(level, index) ==>
                Rest(level, index)[0] == Place(level, index) && Rest(level, index)[1..] == Rest(level, index + 1)
      ensures index < Size() && !SetAt(level, index) ==> Rest(level, index) == Rest(level, index + 1)
      ensures index == Size() ==> Rest(level, index) == if level < ext then Rest(level + 1, Begin(level + 1)) else []
    {
      hide SetAt, Begin, Level;
    }

    /** The rest after a listed place is the tail of the list. */
    lemma {:induction false} RestTail(level: nat, index: nat)
      requires Valid() && level <= ext && Begin(level) <= index <= Size() && |Rest(level, index)| > 0
      ensures var q := Rest(level, index)[0];
              q.level <= ext && q.index < Size() && Rest(q.level, q.index + 1) == Rest(level, index)[1..]
      decreases ext - level, Size() - index
    {
      hide SetAt, Begin, Level, Rest;
      RestHere(level, index);
      if index < Size() {
        if !SetAt(level, index) {
          RestTail(level, index + 1);
        }
      } else if level < ext {
        RestTail(level + 1, Begin(level + 1));
      }
    }
  }

  lemma {:induction false} DistinctCount(s: seq<Place>, S: set<Place>)
    requires forall m, n :: 0 <= m < n < |s| ==> s[m] != s[n]
    requires forall q :: q in s <==> q in S
    ensures |s| == |S|
  {
    if s != [] {
      var q := s[|s| - 1];
      DistinctCount(s[..|s| - 1], S - {q});
    } else {
      assert S == {};
    }
  }

  /** The multiplier a place stands for. */
  function Multiplier(q: Place): nat {
    q.index * Pow2(q.level)
  }

  predicate Before(q: Place, r: Place) {
    q.level < r.level || (q.level == r.level && q.index < r.index)
  }

  lemma CrossLevels(i: nat, j: nat, p: nat, half: nat, r: nat)
    requires i < 2 * j && p <= half && r == 2 * half && half > 0
    ensures i * p < j * r
  {
    MulMonotone(i, p, half);
    MulMonotone(half, i + 1, 2 * j);
    assert half * (2 * j) == j * (2 * half);
  }

  lemma SameLevel(i: nat, j: nat, p: nat)
    requires i < j && p > 0
    ensures i * p < j * p
  {
    MulMonotone(p, i + 1, j);
  }

  /** Later places stand for larger multipliers: an extension starts where the level below it ends. */
  lemma MultiplierIncreases(v: View, q: Place, r: Place)
    requires v.Valid() && Before(q, r) && q.index < v.Size() && v.Begin(r.level) <= r.index
    ensures Multiplier(q) < Multiplier(r)
  {
    hide Pow2;
    if q.level == r.level {
      SameLevel(q.index, r.index, Pow2(q.level));
    } else {
      Pow2Monotone(q.level, r.level - 1);
      DoublePower(r.level);
      CrossLevels(q.index, r.index, Pow2(q.level), Pow2(r.level - 1), Pow2(r.level));
    }
  }

  lemma DoublePower(k: nat)
    requires k > 0
    ensures Pow2(k) == 2 * Pow2(k - 1)
  {
  }

  /** The list is in scan order, hence strictly increasing as multipliers. */
  lemma {:induction false} RestIncreases(v: View, level: nat, index: nat, m: nat, n: nat)
    requires v.Valid() && level <= v.ext && v.Begin(level) <= index <= v.Size()
    requires m < n < |v.Rest(level, index)|
    ensures Multiplier(v.Rest(level, index)[m]) < Multiplier(v.Rest(level, index)[n])
    decreases v.ext - level, v.Size() - index
  {
    hide Multiplier, View.Rest, View.SetAt, View.Begin, View.Level;
    v.RestHere(level, index);
    if index < v.Size() {
      if !v.SetAt(level, index) {
        RestIncreases(v, level, index + 1, m, n);
      } else if m > 0 {
        RestIncreases(v, level, index + 1, m - 1, n - 1);
      } else {
        v.RestSound(level, index + 1, n - 1);
        MultiplierIncreases(v, Place(level, index), v.Rest(level, index + 1)[n - 1]);
      }
    } else if level < v.ext {
      RestIncreases(v, level + 1, v.Begin(level + 1), m, n);
    }
  }
}
