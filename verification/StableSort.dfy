/** Stable sorting by insertion, the meaning of the tree sorter. */
module StableSort {
  import opened Pointers

  datatype Item = Item(value: int, p: Pointer)

  /** x goes after everything that is not greater. */
  function Insert(s: seq<Item>, x: Item): (r: seq<Item>)
    ensures |r| == |s| + 1
  {
    if s == [] then [x]
    else if x.value < s[0].value then [x] + s
    else [s[0]] + Insert(s[1..], x)
  }

  function StableSorted(items: seq<Item>): (r: seq<Item>)
    ensures |r| == |items|
  {
    if items == [] then [] else Insert(StableSorted(items[..|items| - 1]), items[|items| - 1])
  }

  predicate Sorted(s: seq<Item>) {
    forall i, j :: 0 <= i < j < |s| ==> s[i].value <= s[j].value
  }

  lemma {:induction false} InsertContents(s: seq<Item>, x: Item)
    ensures multiset(Insert(s, x)) == multiset(s) + multiset{x}
    ensures forall e :: e in Insert(s, x) <==> e in s || e == x
  {
    if s != [] && x.value >= s[0].value {
      InsertContents(s[1..], x);
      assert s == [s[0]] + s[1..];
    }
  }

  lemma SortedCons(e: Item, s: seq<Item>)
    requires Sorted(s) && forall d :: d in s ==> e.value <= d.value
    ensures Sorted([e] + s)
  {
  }

  lemma {:induction false} InsertSorted(s: seq<Item>, x: Item)
    requires Sorted(s)
    ensures Sorted(Insert(s, x))
  {
    hide Sorted;
    if s != [] {
      SortedTail(s);
      if x.value < s[0].value {
        SortedCons(x, s);
      } else {
        InsertSorted(s[1..], x);
        InsertContents(s[1..], x);
        SortedCons(s[0], Insert(s[1..], x));
      }
    } else {
      SortedCons(x, s);
      assert [x] + s == [x];
    }
  }

  lemma SortedTail(s: seq<Item>)
    requires Sorted(s) && s != []
    ensures Sorted(s[1..]) && forall e :: e in s ==> s[0].value <= e.value
  {
  }

  /** The items of one value, in order. */
  function OfValue(s: seq<Item>, v: int): seq<Item> {
    if s == [] then [] else OfValue(s[..|s| - 1], v) + (if s[|s| - 1].value == v then [s[|s| - 1]] else [])
  }

  lemma {:induction false} OfValueConcat(a: seq<Item>, b: seq<Item>, v: int)
    ensures OfValue(a + b, v) == OfValue(a, v) + OfValue(b, v)
  {
    if b == [] {
      assert a + b == a;
    } else {
      OfValueConcat(a, b[..|b| - 1], v);
      assert (a + b)[..|a + b| - 1] == a + b[..|b| - 1];
    }
  }

  lemma {:induction false} NoneGreaterOfValue(s: seq<Item>, v: int)
    requires forall e :: e in s ==> v < e.value
    ensures OfValue(s, v) == []
  {
    if s != [] {
      assert s[|s| - 1] in s;
      NoneGreaterOfValue(s[..|s| - 1], v);
    }
  }

  function IfOfValue(e: Item, v: int): seq<Item> {
    if e.value == v then [e] else []
  }

  lemma OfValueCons(e: Item, s: seq<Item>, v: int)
    ensures OfValue([e] + s, v) == IfOfValue(e, v) + OfValue(s, v)
  {
    OfValueConcat([e], s, v);
    assert [e][..0] == [];
  }

  lemma OfValueNone(v: int)
    ensures OfValue([], v) == []
  {
  }

  /** Inserting puts an item last among its equals. */
  lemma {:induction false} InsertOfValue(s: seq<Item>, x: Item, v: int)
    requires Sorted(s)
    ensures OfValue(Insert(s, x), v) == OfValue(s, v) + IfOfValue(x, v)
  {
    hide Sorted, OfValue;
    if s == [] {
      OfValueCons(x, s, v);
      OfValueNone(v);
      assert [x] + s == [x];
    } else {
      SortedTail(s);
      if x.value < s[0].value {
        OfValueCons(x, s, v);
        if x.value == v {
          NoneGreaterOfValue(s, v);
        }
      } else {
        InsertOfValue(s[1..], x, v);
        OfValueCons(s[0], Insert(s[1..], x), v);
        OfValueCons(s[0], s[1..], v);
        assert s == [s[0]] + s[1..];
      }
    }
  }

  /** StableSorted is what its name says: ordered, nothing lost or added, equal values in their first order. */
  lemma {:induction false} StableSortedIsStableSort(items: seq<Item>)
    ensures Sorted(StableSorted(items)) && multiset(StableSorted(items)) == multiset(items)
    ensures forall v :: OfValue(StableSorted(items), v) == OfValue(items, v)
  {
    if items != [] {
      var n := |items| - 1;
      StableSortedIsStableSort(items[..n]);
      InsertSorted(StableSorted(items[..n]), items[n]);
      InsertContents(StableSorted(items[..n]), items[n]);
      assert items == items[..n] + [items[n]];
      forall v ensures OfValue(StableSorted(items), v) == OfValue(items, v) {
        InsertOfValue(StableSorted(items[..n]), items[n], v);
      }
    }
  }

  /** Items with something attached */
  function NonNull(s: seq<Item>): (r: seq<Item>)
    ensures forall e :: e in r ==> e in s
  {
    if s == [] then [] else NonNull(s[..|s| - 1]) + (if s[|s| - 1].p != NULL then [s[|s| - 1]] else [])
  }

  lemma {:induction false} NonNullConcat(a: seq<Item>, b: seq<Item>)
    ensures NonNull(a + b) == NonNull(a) + NonNull(b)
  {
    if b == [] {
      assert a + b == a;
    } else {
      NonNullConcat(a, b[..|b| - 1]);
      assert (a + b)[..|a + b| - 1] == a + b[..|b| - 1];
    }
  }

  function IfNonNull(e: Item): seq<Item> {
    if e.p != NULL then [e] else []
  }

  lemma NonNullCons(e: Item, s: seq<Item>)
    ensures NonNull([e] + s) == IfNonNull(e) + NonNull(s)
  {
    NonNullConcat([e], s);
    assert [e][..0] == [];
  }

  lemma InsertBeforeAll(s: seq<Item>, x: Item)
    requires forall e :: e in s ==> x.value < e.value
    ensures Insert(s, x) == [x] + s
  {
  }

  lemma {:induction false} InsertNonNull(s: seq<Item>, x: Item)
    requires Sorted(s)
    ensures NonNull(Insert(s, x)) == if x.p == NULL then NonNull(s) else Insert(NonNull(s), x)
  {
    hide Sorted, NonNull;
    if s == [] {
      NonNullCons(x, s);
      NonNullNone();
      assert [x] + s == [x];
    } else {
      SortedTail(s);
      if x.value < s[0].value {
        NonNullCons(x, s);
        InsertBeforeAll(NonNull(s), x);
      } else {
        InsertNonNull(s[1..], x);
        NonNullCons(s[0], Insert(s[1..], x));
        NonNullCons(s[0], s[1..]);
        assert s == [s[0]] + s[1..];
        if x.p != NULL {
          InsertRight(IfNonNull(s[0]), NonNull(s[1..]), x);
        }
      }
    }
  }

  lemma NonNullNone()
    ensures NonNull([]) == []
  {
  }

  lemma SortedAppend(items: seq<Item>, x: Item)
    ensures StableSorted(items + [x]) == Insert(StableSorted(items), x)
    ensures NonNull(items + [x]) == NonNull(items) + IfNonNull(x)
  {
    assert (items + [x])[..|items|] == items;
  }

  /** Leaving out empty items before or after sorting makes no difference. */
  lemma {:induction false} SortNonNull(items: seq<Item>)
    ensures NonNull(StableSorted(items)) == StableSorted(NonNull(items))
  {
    if items == [] {
    } else {
      hide NonNull, StableSorted, Sorted;
      var rest, x := items[..|items| - 1], items[|items| - 1];
      assert items == rest + [x];
      SortNonNull(rest);
      StableSortedIsStableSort(rest);
      InsertNonNull(StableSorted(rest), x);
      SortedAppend(rest, x);
      SortedAppend(NonNull(rest), x);
      assert x.p == NULL ==> NonNull(items) == NonNull(rest);
    }
  }

  /** Insertion below a pivot that is greater, and above one that is not. */
  lemma {:induction false} InsertLeft(a: seq<Item>, b: seq<Item>, x: Item)
    requires b != [] && x.value < b[0].value
    ensures Insert(a + b, x) == Insert(a, x) + b
  {
    if a == [] {
      assert a + b == b;
    } else if x.value >= a[0].value {
      InsertLeft(a[1..], b, x);
      assert (a + b)[1..] == a[1..] + b;
      assert [a[0]] + (Insert(a[1..], x) + b) == [a[0]] + Insert(a[1..], x) + b;
    } else {
      assert [x] + (a + b) == [x] + a + b;
    }
  }

  lemma {:induction false} InsertRight(a: seq<Item>, b: seq<Item>, x: Item)
    requires forall e :: e in a ==> e.value <= x.value
    ensures Insert(a + b, x) == a + Insert(b, x)
  {
    if a == [] {
      assert a + b == b;
    } else {
      InsertRight(a[1..], b, x);
      assert (a + b)[1..] == a[1..] + b;
    }
  }
}
