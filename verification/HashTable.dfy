/** The growing hash table with 32-bit keys: open addressing over an index into item arrays. */
module HashTable {
  import opened NumberTheory
  import opened Pointers

  const MAXSCAN_LENGTH: nat := 32

  type Key = k: nat | k < 0x1_0000_0000

  /** key + key*3 + key*7 + key*11 on 32 bits */
  function Hash(key: Key): nat {
    (key + key * 3 + key * 7 + key * 11) % 0x1_0000_0000
  }

  /** The slot o steps after a key's home slot. */
  function Slot(key: Key, size: nat, o: nat): (s: nat)
    requires size > 0
    ensures s < size
  {
    (Hash(key) % size + o) % size
  }

  lemma NextSlot(key: Key, size: nat, o: nat)
    requires size > 0
    ensures (Slot(key, size, o) + 1) % size == Slot(key, size, o + 1)
    ensures Hash(key) % size == Slot(key, size, 0)
  {
    hide Hash;
    var h := Hash(key) % size;
    ModSpec(h + o, size);
    ModShift(h + o + 1, (h + o) % size + 1, size, (h + o) / size);
    ModOf(h, size, 0, h);
  }

  /** The last value stored for k. */
  function Value(keys: seq<Key>, values: seq<Pointer>, k: Key): (v: Pointer)
    requires |keys| == |values|
    ensures k !in keys ==> v == NULL
  {
    if keys == [] then NULL
    else if keys[|keys| - 1] == k then values[|keys| - 1]
    else Value(keys[..|keys| - 1], values[..|keys| - 1], k)
  }

  lemma {:induction false} ValueAt(keys: seq<Key>, values: seq<Pointer>, j: nat)
    requires |keys| == |values| && j < |keys| && Distinct(keys)
    ensures Value(keys, values, keys[j]) == values[j]
  {
    var n := |keys| - 1;
    if j < n {
      ValueAt(keys[..n], values[..n], j);
    }
  }

  predicate Distinct(keys: seq<Key>) {
    forall i, j :: 0 <= i < j < |keys| ==> keys[i] != keys[j]
  }

  lemma ValueAppend(keys: seq<Key>, values: seq<Pointer>, key: Key, item: Pointer, k: Key)
    requires |keys| == |values|
    ensures Value(keys + [key], values + [item], k) == if k == key then item else Value(keys, values, k)
  {
    assert (keys + [key])[..|keys|] == keys && (values + [item])[..|keys|] == values;
  }

  lemma ValueUpdate(keys: seq<Key>, values: seq<Pointer>, j: nat, item: Pointer, k: Key)
    requires |keys| == |values| && j < |keys| && Distinct(keys)
    ensures Value(keys, values[j := item], k) == if k == keys[j] then item else Value(keys, values, k)
  {
    if i :| 0 <= i < |keys| && keys[i] == k {
      ValueAt(keys, values, i);
      ValueAt(keys, values[j := item], i);
    }
  }

  /** The slots a probe passes before offset o are all taken. */
  ghost predicate Passed(entrys: seq<int>, key: Key, o: nat)
    requires |entrys| > 0
  {
    forall t: nat :: t < o ==> entrys[Slot(key, |entrys|, t)] != 0
  }

  /** A probe for key gets to item j. */
  ghost predicate Reaches(entrys: seq<int>, key: Key, j: nat) {
    |entrys| > 0 && exists o: nat :: o < MAXSCAN_LENGTH && ReachesAt(entrys, key, j, o)
  }

  ghost predicate ReachesAt(entrys: seq<int>, key: Key, j: nat, o: nat)
    requires |entrys| > 0
  {
    Passed(entrys, key, o) && entrys[Slot(key, |entrys|, o)] == j + 1
  }

  /** No item is referred to from two slots. */
  ghost predicate OneSlotEach(entrys: seq<int>) {
    forall s, t :: 0 <= s < t < |entrys| && entrys[s] != 0 ==> entrys[s] != entrys[t]
  }

  /** Item indices are one-based, zero marking a free slot; every item is where a probe finds it. */
  ghost predicate Consistent(entrys: seq<int>, keys: seq<Key>) {
    && (forall s :: 0 <= s < |entrys| ==> 0 <= entrys[s] <= |keys|)
    && OneSlotEach(entrys) && Distinct(keys)
    && (forall j :: 0 <= j < |keys| ==> Reaches(entrys, keys[j], j))
  }

  /** What a probe knows after i steps without an answer. */
  ghost predicate Scanned(entrys: seq<int>, keys: seq<Key>, key: Key, i: nat)
    requires |entrys| > 0
  {
    forall t: nat :: t < i ==> TakenByOther(entrys, keys, entrys[Slot(key, |entrys|, t)], key)
  }

  predicate TakenByOther(entrys: seq<int>, keys: seq<Key>, e: int, key: Key) {
    0 < e <= |keys| && keys[e - 1] != key
  }

  ghost predicate NoFreeSlot(entrys: seq<int>, key: Key)
    requires |entrys| > 0
  {
    Passed(entrys, key, MAXSCAN_LENGTH)
  }

  lemma ScannedToTheLimit(entrys: seq<int>, keys: seq<Key>, key: Key)
    requires |entrys| > 0 && Scanned(entrys, keys, key, MAXSCAN_LENGTH)
    ensures NoFreeSlot(entrys, key)
  {
    hide Slot;
  }

  lemma FreeSlotSeen(entrys: seq<int>, key: Key, i: nat)
    requires |entrys| > 0 && i < MAXSCAN_LENGTH && entrys[Slot(key, |entrys|, i)] == 0
    ensures !NoFreeSlot(entrys, key)
  {
    hide Slot;
  }

  lemma ScannedStep(entrys: seq<int>, keys: seq<Key>, key: Key, i: nat)
    requires |entrys| > 0 && Scanned(entrys, keys, key, i)
    requires TakenByOther(entrys, keys, entrys[Slot(key, |entrys|, i)], key)
    ensures Scanned(entrys, keys, key, i + 1)
  {
    hide Slot, TakenByOther;
  }

  /** A free slot, or the scan limit, says the key is not there. */
  lemma NotThere(entrys: seq<int>, keys: seq<Key>, key: Key, i: nat)
    requires |entrys| > 0 && Consistent(entrys, keys) && Scanned(entrys, keys, key, i)
    requires i == MAXSCAN_LENGTH || entrys[Slot(key, |entrys|, i)] == 0
    ensures key !in keys
  {
    hide Slot, Distinct, OneSlotEach;
  }

  /** Filling the free slot a probe ended at makes the new item reachable and leaves the others so. */
  lemma Inserted(entrys: seq<int>, keys: seq<Key>, key: Key, i: nat)
    requires |entrys| > 0 && Consistent(entrys, keys) && Scanned(entrys, keys, key, i)
    requires i < MAXSCAN_LENGTH && entrys[Slot(key, |entrys|, i)] == 0
    ensures Consistent(entrys[Slot(key, |entrys|, i) := |keys| + 1], keys + [key])
  {
    hide Slot;
    NotThere(entrys, keys, key, i);
    var s := Slot(key, |entrys|, i);
    var entrys', keys' := entrys[s := |keys| + 1], keys + [key];
    forall j | 0 <= j < |keys'|
      ensures Reaches(entrys', keys'[j], j)
    {
      if j < |keys| {
        assert Reaches(entrys, keys[j], j);
        StillReaches(entrys, keys[j], j, s, |keys| + 1);
      } else {
        forall t: nat | t < i
          ensures entrys'[Slot(key, |entrys'|, t)] != 0
        {
          assert TakenByOther(entrys, keys, entrys[Slot(key, |entrys|, t)], key);
        }
        assert ReachesAt(entrys', key, j, i);
      }
    }
  }

  // ---- when memory runs out ----

  /**
   A table of the largest size in reach that some of the keys have used up: it is
   at its load limit, or one more of the keys finds no free slot.
   */
  ghost predicate UsedUp(entrys: seq<int>, items: seq<Key>, memory: nat, keys: set<Key>) {
    && 0 < |entrys| <= memory < 2 * |entrys| && |items| <= |entrys| && Consistent(entrys, items)
    && (forall k :: k in items ==> k in keys)
    && (|items| >= Threshold(|entrys|) || exists k :: k in keys && k !in items && NoFreeSlot(entrys, k))
  }

  ghost predicate Exhausted(memory: nat, keys: set<Key>) {
    exists entrys: seq<int>, items: seq<Key> :: UsedUp(entrys, items, memory, keys)
  }

  lemma ExhaustedByMore(memory: nat, keys: set<Key>, more: set<Key>)
    requires Exhausted(memory, keys) && keys <= more
    ensures Exhausted(memory, more)
  {
    hide Consistent, Threshold, NoFreeSlot;
    var entrys: seq<int>, items: seq<Key> :| UsedUp(entrys, items, memory, keys);
    assert UsedUp(entrys, items, memory, more);
  }

  ghost function KeySet(items: seq<Key>): set<Key> {
    set k | k in items
  }

  lemma {:induction false} DistinctWithin<T(!new)>(s: seq<T>, S: set<T>)
    requires forall i, j :: 0 <= i < j < |s| ==> s[i] != s[j]
    requires forall i :: 0 <= i < |s| ==> s[i] in S
    ensures |s| <= |S|
  {
    if s != [] {
      DistinctWithin(s[..|s| - 1], S - {s[|s| - 1]});
    }
  }

  /** The numbers from one to m. */
  ghost function UpTo(m: nat): (r: set<int>)
    ensures |r| == m && forall i :: i in r <==> 1 <= i <= m
  {
    if m == 0 then {} else UpTo(m - 1) + {m}
  }

  lemma SlotsDiffer(key: Key, size: nat, t: nat, u: nat)
    requires t < u < MAXSCAN_LENGTH <= size
    ensures Slot(key, size, t) != Slot(key, size, u)
  {
    hide Hash;
    var h := Hash(key) % size;
    if Slot(key, size, t) == Slot(key, size, u) {
      var e := ModEqual(h + u, h + t, size);
      SmallDifference(u - t, size, e);
    }
  }

  /** A probe that finds no free slot has passed as many items as it took steps. */
  lemma ProbeCounts(entrys: seq<int>, items: seq<Key>, key: Key)
    requires |entrys| >= MAXSCAN_LENGTH && Consistent(entrys, items) && NoFreeSlot(entrys, key)
    ensures |items| >= MAXSCAN_LENGTH
  {
    hide Slot, Distinct, Reaches;
    var passed := seq(MAXSCAN_LENGTH, t requires 0 <= t < MAXSCAN_LENGTH => entrys[Slot(key, |entrys|, t)]);
    forall t, u | 0 <= t < u < |passed|
      ensures passed[t] != passed[u]
    {
      SlotsDiffer(key, |entrys|, t, u);
      assert entrys[Slot(key, |entrys|, t)] != 0;
    }
    forall t | 0 <= t < |passed|
      ensures passed[t] in UpTo(|items|)
    {
      assert entrys[Slot(key, |entrys|, t)] != 0;
    }
    DistinctWithin(passed, UpTo(|items|));
  }

  /** No more keys than a probe takes steps never run out of memory, given a table of 45 slots can be had. */
  lemma FewKeysFit(memory: nat, keys: set<Key>)
    requires |keys| <= 32 && 89 <= memory <= LARGEST_TABLE
    ensures !Exhausted(memory, keys)
  {
    hide Consistent, NoFreeSlot, Threshold;
    if Exhausted(memory, keys) {
      var entrys: seq<int>, items: seq<Key> :| UsedUp(entrys, items, memory, keys);
      FewKeysLeaveRoom(entrys, items, memory, keys);
    }
  }

  lemma FewKeysLeaveRoom(entrys: seq<int>, items: seq<Key>, memory: nat, keys: set<Key>)
    requires |keys| <= MAXSCAN_LENGTH && 89 <= memory <= LARGEST_TABLE
    ensures !UsedUp(entrys, items, memory, keys)
  {
    hide NoFreeSlot, Threshold, Reaches;
    if UsedUp(entrys, items, memory, keys) {
      DistinctWithin(items, keys);
      ThresholdAbove(|entrys|);
      var k :| k in keys && k !in items && NoFreeSlot(entrys, k);
      ProbeCounts(entrys, items, k);
      DistinctWithin(items + [k], keys);
    }
  }

  lemma ThresholdIs(size: nat)
    requires size <= LARGEST_TABLE
    ensures Threshold(size) == size * 3 / 4
  {
    ModOf(size * 3, 0x1_0000_0000, 0, size * 3);
  }

  lemma ThresholdAbove(size: nat)
    requires 45 <= size <= LARGEST_TABLE
    ensures Threshold(size) > MAXSCAN_LENGTH
  {
  }

  lemma StillReaches(entrys: seq<int>, key: Key, j: nat, s: nat, e: int)
    requires s < |entrys| && entrys[s] == 0 && e != 0 && Reaches(entrys, key, j)
    ensures Reaches(entrys[s := e], key, j)
  {
    hide Slot;
    var o: nat :| o < MAXSCAN_LENGTH && ReachesAt(entrys, key, j, o);
    assert ReachesAt(entrys[s := e], key, j, o);
  }

  /** The load that makes a table grow: three quarters, in 32-bit arithmetic. */
  function Threshold(size: nat): nat {
    (size * 3) % 0x1_0000_0000 / 4
  }

  /** Larger tables than this cannot be allocated (their load threshold would not fit 32 bits either). */
  const LARGEST_TABLE: nat := 0x5555_5555

  class HashTable {
    var entrys: seq<int>
    var itemKeyArray: seq<Key>
    var itemValueArray: seq<Pointer>
    var size: nat
    var count: nat
    const memory: nat  // the largest size this run can allocate

    /** Storage agrees with the counters; probing finds every item. */
    ghost predicate Stored()
      reads this
    {
      && |entrys| == |itemKeyArray| == |itemValueArray| == size && count <= size <= memory <= LARGEST_TABLE
      && Consistent(entrys, itemKeyArray[..count])
    }

    /** Between calls there is always room for one more item. */
    ghost predicate Valid()
      reads this
    {
      Stored() && (count == 0 || count < Threshold(size))
    }

    ghost function ValueOf(k: Key): Pointer
      requires Stored()
      reads this
    {
      Value(itemKeyArray[..count], itemValueArray[..count], k)
    }

    /** The keys with a value, and their values. */
    ghost function View(): map<Key, Pointer>
      requires Stored()
      reads this
    {
      map k: Key | k in itemKeyArray[..count] && ValueOf(k) != NULL :: ValueOf(k)
    }

    /** Every key has the value it has in m. */
    ghost predicate Matches(m: map<Key, Pointer>)
      requires Stored()
      reads this
    {
      forall k: Key :: ValueOf(k) == Lookup(m, k)
    }

    lemma MatchingView(m: map<Key, Pointer>)
      requires Stored() && Matches(m) && forall k :: k in m ==> m[k] != NULL
      ensures View() == m
    {
      hide Consistent, Value;
      forall k: Key
        ensures k in View() <==> k in m
      {
        assert ValueOf(k) == Lookup(m, k);
      }
    }

    constructor (itemLimit: nat, memory: nat)
      requires itemLimit <= memory <= LARGEST_TABLE
      ensures Valid() && size == itemLimit && count == 0 && this.memory == memory && View() == map[]
    {
      this.size := itemLimit;
      this.count := 0;
      this.memory := memory;
      this.entrys := seq(itemLimit, i => 0);
      this.itemKeyArray := seq(itemLimit, i => 0);
      this.itemValueArray := seq(itemLimit, i => NULL);
    }

    /** The value last stored for the key, or none. */
    method Get(key: Key) returns (item: Pointer)
      requires Valid()
      ensures item == if key in View() then View()[key] else NULL
    {
      hide Consistent, Slot, Scanned, Threshold;
      if size == 0 {
        return NULL;
      }
      NextSlot(key, size, 0);
      var index := Hash(key) % size;
      var i := 0;
      ScannedNone(entrys, itemKeyArray[..count], key);
      while i < MAXSCAN_LENGTH
        invariant i <= MAXSCAN_LENGTH && index == Slot(key, size, i)
        invariant Scanned(entrys, itemKeyArray[..count], key, i)
      {
        var ridx := entrys[index];
        if ridx == 0 {
          NotThere(entrys, itemKeyArray[..count], key, i);
          return NULL;
        }
        ItemIndex(entrys, itemKeyArray[..count], index);
        if itemKeyArray[ridx - 1] == key {
          Found(ridx - 1);
          return itemValueArray[ridx - 1];
        }
        ScannedStep(entrys, itemKeyArray[..count], key, i);
        NextSlot(key, size, i);
        index := (index + 1) % size;
        i := i + 1;
      }
      NotThere(entrys, itemKeyArray[..count], key, i);
      return NULL;
    }

    lemma Found(j: nat)
      requires Stored() && j < count
      ensures ValueOf(itemKeyArray[j]) == itemValueArray[j] && itemKeyArray[j] in itemKeyArray[..count]
    {
      hide Reaches, Value;
      assert itemKeyArray[..count][j] == itemKeyArray[j] && itemValueArray[..count][j] == itemValueArray[j];
      ValueAt(itemKeyArray[..count], itemValueArray[..count], j);
    }

    /** A key that is not there finds no free slot within the scan limit, or its item fills the table up to its load limit. */
    ghost predicate NeedsGrowth(key: Key, item: Pointer)
      requires Stored() && size >= 1
      reads this
    {
      && key !in itemKeyArray[..count]
      && (NoFreeSlot(entrys, key) || (item != NULL && count + 1 >= size * 3 / 4))
    }

    /** Stores an item, NULL to unset the key. done is false when memory ran out on the way. */
    method Set(key: Key, item: Pointer) returns (done: bool, r: bool)
      requires Valid() && size >= 1
      modifies this
      ensures done ==> Valid() && size >= old(size) && r == (item != NULL || key in old(itemKeyArray[..count]))
      ensures done ==> forall k: Key :: ValueOf(k) == if k == key then item else old(ValueOf(k))
      ensures done ==> forall k: Key :: k in itemKeyArray[..count] ==> k == key || k in old(itemKeyArray[..count])
      ensures !old(NeedsGrowth(key, item)) ==> done && size == old(size)
      ensures !done ==> Exhausted(memory, old(KeySet(itemKeyArray[..count])) + {key})
      decreases memory - size, 2
    {
      hide Consistent, Slot, Scanned, Threshold, Value, NoFreeSlot, Exhausted;
      ThresholdIs(size);
      NextSlot(key, size, 0);
      var index := Hash(key) % size;
      var i := 0;
      ScannedNone(entrys, itemKeyArray[..count], key);
      while i < MAXSCAN_LENGTH
        invariant unchanged(this) && Valid() && size >= 1
        invariant i <= MAXSCAN_LENGTH && index == Slot(key, size, i)
        invariant Scanned(entrys, itemKeyArray[..count], key, i)
      {
        var ridx := entrys[index];
        if ridx == 0 {
          NotThere(entrys, itemKeyArray[..count], key, i);
          FreeSlotSeen(entrys, key, i);
          if item != NULL {
            done := InsertAndGrow(key, item, index, i);
            return done, true;
          }
          return true, false;
        }
        ItemIndex(entrys, itemKeyArray[..count], index);
        if itemKeyArray[ridx - 1] == key {
          Found(ridx - 1);
          Update(ridx - 1, item);
          return true, true;
        }
        ScannedStep(entrys, itemKeyArray[..count], key, i);
        NextSlot(key, size, i);
        index := (index + 1) % size;
        i := i + 1;
      }
      NotThere(entrys, itemKeyArray[..count], key, i);
      ScannedToTheLimit(entrys, itemKeyArray[..count], key);
      ghost var keys := KeySet(itemKeyArray[..count]) + {key};
      done := Enlarge(keys);
      if !done {
        return false, false;
      }
      ghost var kept := KeySet(itemKeyArray[..count]) + {key};
      done, r := Set(key, item);
      if !done {
        ExhaustedByMore(memory, kept, keys);
      }
    }

    /** Fills the free slot and grows the table when the load limit is reached. */
    method InsertAndGrow(key: Key, item: Pointer, index: nat, ghost i: nat) returns (done: bool)
      requires Valid() && size >= 1 && i < MAXSCAN_LENGTH && index == Slot(key, size, i) && entrys[index] == 0
      requires Scanned(entrys, itemKeyArray[..count], key, i)
      modifies this
      ensures done ==> Valid() && size >= old(size)
      ensures done ==> forall k: Key :: ValueOf(k) == if k == key then item else old(ValueOf(k))
      ensures done ==> forall k: Key :: k in itemKeyArray[..count] ==> k == key || k in old(itemKeyArray[..count])
      ensures old(count) + 1 < Threshold(old(size)) ==> done && size == old(size)
      ensures !done ==> Exhausted(memory, old(KeySet(itemKeyArray[..count])) + {key})
      decreases memory - size, 1
    {
      hide Consistent, Slot, Scanned, Threshold, Value, NoFreeSlot, Exhausted;
      RoomLeft();
      ghost var keys := KeySet(itemKeyArray[..count]) + {key};
      Insert(key, item, index, i);
      done := true;
      if count >= Threshold(size) {
        done := Enlarge(keys);
      }
    }

    lemma RoomLeft()
      requires Valid() && size >= 1
      ensures count < size
    {
    }

    /** A new item in the free slot the probe ended at. */
    method Insert(key: Key, item: Pointer, index: nat, ghost i: nat)
      requires Stored() && count < size && i < MAXSCAN_LENGTH && index == Slot(key, size, i) && entrys[index] == 0
      requires Scanned(entrys, itemKeyArray[..count], key, i)
      modifies this
      ensures Stored() && size == old(size) && count == old(count) + 1
      ensures itemKeyArray[..count] == old(itemKeyArray[..count]) + [key]
      ensures forall k: Key :: ValueOf(k) == if k == key then item else old(ValueOf(k))
    {
      hide Consistent, Slot, Scanned, Value;
      ghost var keys, values := itemKeyArray[..count], itemValueArray[..count];
      Inserted(entrys, keys, key, i);
      entrys := entrys[index := count + 1];
      itemKeyArray := itemKeyArray[count := key];
      itemValueArray := itemValueArray[count := item];
      count := count + 1;
      assert itemKeyArray[..count] == keys + [key] && itemValueArray[..count] == values + [item];
      forall k: Key
        ensures ValueOf(k) == if k == key then item else Value(keys, values, k)
      {
        ValueAppend(keys, values, key, item, k);
      }
    }

    /** A new value, possibly none, for the item of a key already there. */
    method Update(j: nat, item: Pointer)
      requires Stored() && j < count
      modifies this`itemValueArray
      ensures Stored() && forall k: Key :: ValueOf(k) == if k == itemKeyArray[j] then item else old(ValueOf(k))
    {
      hide Reaches, Slot, Value;
      ghost var keys, values := itemKeyArray[..count], itemValueArray[..count];
      itemValueArray := itemValueArray[j := item];
      assert itemValueArray[..count] == values[j := item];
      forall k: Key
        ensures ValueOf(k) == if k == keys[j] then item else Value(keys, values, k)
      {
        ValueUpdate(keys, values, j, item, k);
      }
    }

    /** Moves everything to a table of twice the size, which may itself have grown by then. */
    method Enlarge(ghost keys: set<Key>) returns (done: bool)
      requires Stored() && size >= 1 && (forall k :: k in itemKeyArray[..count] ==> k in keys)
      requires count >= Threshold(size) || exists k :: k in keys && k !in itemKeyArray[..count] && NoFreeSlot(entrys, k)
      modifies this
      ensures done ==> Valid() && size >= 2 * old(size)
      ensures done ==> forall k: Key :: ValueOf(k) == old(ValueOf(k))
      ensures done ==> forall k: Key :: k in itemKeyArray[..count] ==> k in old(itemKeyArray[..count])
      ensures !done ==> Exhausted(memory, keys)
      decreases memory - size, 0
    {
      hide Consistent, Threshold, Value, MovedKey, NoFreeSlot, Exhausted;
      if size * 2 > memory {
        MemoryUsedUp(keys);
        return false;
      }
      var hashTable2 := new HashTable(size * 2, memory);
      ghost var items := itemKeyArray[..count];
      var i := 0;
      NothingMoved(entrys, items);
      while i < size
        invariant i <= size && unchanged(this) && fresh(hashTable2)
        invariant hashTable2.Valid() && hashTable2.size >= size * 2 && hashTable2.memory == memory
        invariant forall k: Key :: hashTable2.ValueOf(k) == if MovedKey(entrys, items, i, k) then ValueOf(k) else NULL
        invariant forall k: Key :: k in hashTable2.itemKeyArray[..hashTable2.count] ==> k in items
      {
        ItemIndex(entrys, items, i);
        MovedStep(entrys, items, i);
        if entrys[i] != 0 {
          var index := entrys[i] - 1;
          Found(index);
          var r;
          ghost var moved := KeySet(hashTable2.itemKeyArray[..hashTable2.count]);
          done, r := hashTable2.Set(itemKeyArray[index], itemValueArray[index]);
          if !done {
            ExhaustedByMore(memory, moved + {itemKeyArray[index]}, keys);
            return;
          }
        }
        i := i + 1;
      }
      AllMoved(entrys, items);
      count := hashTable2.count;
      size := hashTable2.size;
      entrys := hashTable2.entrys;
      itemKeyArray := hashTable2.itemKeyArray;
      itemValueArray := hashTable2.itemValueArray;
      done := true;
    }

    lemma MemoryUsedUp(keys: set<Key>)
      requires Stored() && size >= 1 && size * 2 > memory && (forall k :: k in itemKeyArray[..count] ==> k in keys)
      requires count >= Threshold(size) || exists k :: k in keys && k !in itemKeyArray[..count] && NoFreeSlot(entrys, k)
      ensures Exhausted(memory, keys)
    {
      hide Consistent, Threshold, NoFreeSlot;
      assert UsedUp(entrys, itemKeyArray[..count], memory, keys);
    }
  }

  /** The item of key k is referred to by one of the first i slots. */
  ghost predicate MovedKey(entrys: seq<int>, keys: seq<Key>, i: nat, k: Key) {
    exists s :: 0 <= s < i && s < |entrys| && RefersTo(entrys, keys, s, k)
  }

  predicate RefersTo(entrys: seq<int>, keys: seq<Key>, s: nat, k: Key)
    requires s < |entrys|
  {
    0 < entrys[s] <= |keys| && keys[entrys[s] - 1] == k
  }

  lemma NothingMoved(entrys: seq<int>, keys: seq<Key>)
    ensures forall k: Key :: !MovedKey(entrys, keys, 0, k)
  {
  }

  lemma MovedStep(entrys: seq<int>, keys: seq<Key>, i: nat)
    requires i < |entrys|
    ensures forall k: Key :: MovedKey(entrys, keys, i + 1, k) <==> MovedKey(entrys, keys, i, k) || RefersTo(entrys, keys, i, k)
  {
    hide RefersTo;
  }

  lemma AllMoved(entrys: seq<int>, keys: seq<Key>)
    requires Consistent(entrys, keys)
    ensures forall k: Key :: k in keys ==> MovedKey(entrys, keys, |entrys|, k)
  {
    hide Slot, Passed;
    forall k: Key | k in keys
      ensures MovedKey(entrys, keys, |entrys|, k)
    {
      var j :| 0 <= j < |keys| && keys[j] == k;
      assert Reaches(entrys, keys[j], j);
      var o: nat :| o < MAXSCAN_LENGTH && ReachesAt(entrys, k, j, o);
      assert RefersTo(entrys, keys, Slot(k, |entrys|, o), k);
    }
  }

  lemma ScannedNone(entrys: seq<int>, keys: seq<Key>, key: Key)
    requires |entrys| > 0
    ensures Scanned(entrys, keys, key, 0)
  {
  }

  lemma ItemIndex(entrys: seq<int>, keys: seq<Key>, s: nat)
    requires Consistent(entrys, keys) && s < |entrys|
    ensures 0 <= entrys[s] <= |keys|
  {
  }

  // ---- whole runs ----

  /** What a map makes of one set. */
  function Updated(m: map<Key, Pointer>, key: Key, item: Pointer): map<Key, Pointer> {
    if item == NULL then m - {key} else m[key := item]
  }

  function MapAfter(sets: seq<(Key, Pointer)>): map<Key, Pointer> {
    if sets == [] then map[]
    else var n := |sets| - 1; Updated(MapAfter(sets[..n]), sets[n].0, sets[n].1)
  }

  /** The map after a run of sets holds, for each key, the value last set for it, unless that was NULL or never. */
  lemma {:induction false} LastSetWins(sets: seq<(Key, Pointer)>, k: Key, last: nat)
    requires last < |sets| && sets[last].0 == k && forall j :: last < j < |sets| ==> sets[j].0 != k
    ensures if sets[last].1 == NULL then k !in MapAfter(sets)
            else k in MapAfter(sets) && MapAfter(sets)[k] == sets[last].1
  {
    var n := |sets| - 1;
    if last < n {
      LastSetWins(sets[..n], k, last);
    }
  }

  lemma {:induction false} NeverSet(sets: seq<(Key, Pointer)>, k: Key)
    requires forall j :: 0 <= j < |sets| ==> sets[j].0 != k
    ensures k !in MapAfter(sets)
  {
    if sets != [] {
      NeverSet(sets[..|sets| - 1], k);
    }
  }

  function Lookup(m: map<Key, Pointer>, k: Key): Pointer {
    if k in m then m[k] else NULL
  }

  lemma LookupUpdated(m: map<Key, Pointer>, key: Key, item: Pointer, k: Key)
    ensures Lookup(Updated(m, key, item), k) == if k == key then item else Lookup(m, k)
  {
  }

  lemma {:induction false} NoNulls(sets: seq<(Key, Pointer)>)
    ensures forall k :: k in MapAfter(sets) ==> MapAfter(sets)[k] != NULL
  {
    if sets != [] {
      NoNulls(sets[..|sets| - 1]);
    }
  }

  ghost function SetKeys(sets: seq<(Key, Pointer)>): set<Key> {
    set i | 0 <= i < |sets| :: sets[i].0
  }

  /**
   Any run of sets on a new table leaves exactly that map, whatever growth happened
   on the way. It only fails when its keys can use up the largest table in reach,
   never when there are no more of them than a probe takes steps.
   */
  method RunSets(itemLimit: nat, memory: nat, sets: seq<(Key, Pointer)>) returns (done: bool, hashTable: HashTable)
    requires 1 <= itemLimit <= memory <= LARGEST_TABLE
    ensures fresh(hashTable)
    ensures done ==> hashTable.Valid() && hashTable.View() == MapAfter(sets)
    ensures !done ==> Exhausted(memory, SetKeys(sets))
    ensures |SetKeys(sets)| <= 32 && memory >= 89 ==> done
  {
    hide Consistent, Threshold, Value, NoFreeSlot, Updated, Exhausted;
    hashTable := new HashTable(itemLimit, memory);
    done := true;
    var i := 0;
    while i < |sets|
      invariant i <= |sets| && fresh(hashTable) && hashTable.Valid() && hashTable.size >= 1
      invariant hashTable.Matches(MapAfter(sets[..i])) && hashTable.memory == memory
      invariant forall k: Key :: k in hashTable.itemKeyArray[..hashTable.count] ==> k in SetKeys(sets)
    {
      ghost var m := MapAfter(sets[..i]);
      var (key, item) := sets[i];
      ghost var kept := KeySet(hashTable.itemKeyArray[..hashTable.count]) + {key};
      var r;
      done, r := hashTable.Set(key, item);
      if !done {
        ExhaustedByMore(memory, kept, SetKeys(sets));
        if |SetKeys(sets)| <= MAXSCAN_LENGTH && memory >= 89 {
          FewKeysFit(memory, SetKeys(sets));
        }
        return;
      }
      forall k: Key
        ensures hashTable.ValueOf(k) == Lookup(Updated(m, key, item), k)
      {
        LookupUpdated(m, key, item, k);
      }
      assert sets[..i + 1][..i] == sets[..i];
      i := i + 1;
    }
    assert sets[..|sets|] == sets;
    NoNulls(sets);
    hashTable.MatchingView(MapAfter(sets));
  }
}
