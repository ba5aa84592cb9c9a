/**
 The tree sorter: a binary tree in one growing block of nodes, linked by
 addresses, walked in order with an explicit stack.
 */
module FastSorter {
  import opened NumberTheory
  import opened Pointers
  import opened StableSort

  const NODE_SIZE: nat := 16           // pointer, value and two links, on 32 bits
  const MEMORY: nat := 0x1_0000_0000

  /** Links are addresses; zero is none. */
  datatype Node = Node(item: Item, left: nat, right: nat)

  datatype Tree = Leaf | Branch(left: Tree, index: nat, item: Item, right: Tree)

  function Address(base: nat, index: nat): nat {
    base + NODE_SIZE * index
  }

  /** The node a link leads to. */
  function IndexOf(base: nat, link: nat): (i: nat)
    requires link >= base
  {
    (link - base) / NODE_SIZE
  }

  lemma IndexOfAddress(base: nat, index: nat)
    ensures IndexOf(base, Address(base, index)) == index
  {
  }

  function Indices(t: Tree): set<nat> {
    if t.Leaf? then {} else Indices(t.left) + {t.index} + Indices(t.right)
  }

  function Items(t: Tree): seq<Item> {
    if t.Leaf? then [] else Items(t.left) + [t.item] + Items(t.right)
  }

  /** No node is shared. */
  predicate Separate(t: Tree) {
    t.Branch? ==>
      && Separate(t.left) && Separate(t.right)
      && t.index !in Indices(t.left) && t.index !in Indices(t.right) && Indices(t.left) !! Indices(t.right)
  }

  /** The nodes below a link make up a tree. */
  predicate Represents(nodes: seq<Node>, base: nat, link: nat, t: Tree)
    decreases t
  {
    match t
    case Leaf => link == 0
    case Branch(left, index, item, right) =>
      && link == Address(base, index) && index < |nodes| && nodes[index].item == item
      && Represents(nodes, base, nodes[index].left, left) && Represents(nodes, base, nodes[index].right, right)
  }

  lemma {:induction false} RepresentsFrame(nodes: seq<Node>, nodes': seq<Node>, base: nat, link: nat, t: Tree)
    requires Represents(nodes, base, link, t) && |nodes| <= |nodes'|
    requires forall i :: i in Indices(t) && i < |nodes| ==> nodes'[i] == nodes[i]
    ensures Represents(nodes', base, link, t)
    decreases t
  {
    if t.Branch? {
      RepresentsFrame(nodes, nodes', base, nodes[t.index].left, t.left);
      RepresentsFrame(nodes, nodes', base, nodes[t.index].right, t.right);
    }
  }

  /** The tree with x in a new node n: left of what is greater, right of the rest. */
  function TreeInsert(t: Tree, x: Item, n: nat): Tree {
    if t.Leaf? then Branch(Leaf, n, x, Leaf)
    else if x.value < t.item.value then t.(left := TreeInsert(t.left, x, n))
    else t.(right := TreeInsert(t.right, x, n))
  }

  lemma {:induction false} TreeInsertShape(t: Tree, x: Item, n: nat)
    requires Separate(t) && n !in Indices(t)
    ensures Separate(TreeInsert(t, x, n)) && Indices(TreeInsert(t, x, n)) == Indices(t) + {n}
  {
    if t.Branch? {
      if x.value < t.item.value {
        TreeInsertShape(t.left, x, n);
      } else {
        TreeInsertShape(t.right, x, n);
      }
    }
  }

  /** In-order, a tree insertion is an insertion after everything not greater. */
  lemma {:induction false} TreeInsertItems(t: Tree, x: Item, n: nat)
    requires Sorted(Items(t))
    ensures Items(TreeInsert(t, x, n)) == Insert(Items(t), x)
  {
    if t.Branch? {
      var l, r := Items(t.left), [t.item] + Items(t.right);
      assert Items(t) == l + r;
      SortedParts(l, t.item, Items(t.right));
      if x.value < t.item.value {
        TreeInsertItems(t.left, x, n);
        InsertLeft(l, r, x);
        assert Items(TreeInsert(t, x, n)) == Insert(l, x) + r;
      } else {
        TreeInsertItems(t.right, x, n);
        InsertRight(l, r, x);
        assert Insert(r, x) == [t.item] + Insert(Items(t.right), x);
        assert Items(TreeInsert(t, x, n)) == l + ([t.item] + Insert(Items(t.right), x));
      }
    }
  }

  lemma SortedParts(l: seq<Item>, e: Item, r: seq<Item>)
    requires Sorted(l + [e] + r)
    ensures Sorted(l) && Sorted(r) && forall d :: d in l ==> d.value <= e.value
  {
    var s := l + [e] + r;
    assert forall i :: 0 <= i < |l| ==> s[i] == l[i];
    assert forall i :: 0 <= i < |r| ==> s[|l| + 1 + i] == r[i];
    assert s[|l|] == e;
  }

  /** The node at which the descent for a value ends. */
  function DescentEnd(t: Tree, value: int): nat
    requires t.Branch?
  {
    var next := if value < t.item.value then t.left else t.right;
    if next.Leaf? then t.index else DescentEnd(next, value)
  }

  /** The two writes that attach node n below node e. */
  function Attached(nodes: seq<Node>, base: nat, e: nat, x: Item, n: nat): seq<Node>
    requires e < |nodes| && n < |nodes|
  {
    var link := Address(base, n);
    nodes[e := if x.value < nodes[e].item.value then nodes[e].(left := link) else nodes[e].(right := link)]
    [n := Node(x, 0, 0)]
  }

  lemma {:induction false} DescentEndIn(t: Tree, value: int)
    requires t.Branch?
    ensures DescentEnd(t, value) in Indices(t)
  {
    var next := if value < t.item.value then t.left else t.right;
    if next.Branch? {
      DescentEndIn(next, value);
    }
  }

  /** Attaching the new node there makes the nodes represent the larger tree. */
  lemma {:induction false} AttachRepresents(nodes: seq<Node>, base: nat, link: nat, t: Tree, x: Item, n: nat)
    requires Represents(nodes, base, link, t) && t.Branch? && Separate(t) && n !in Indices(t) && n < |nodes|
    requires DescentEnd(t, x.value) < |nodes|
    ensures Represents(Attached(nodes, base, DescentEnd(t, x.value), x, n), base, link, TreeInsert(t, x, n))
    decreases t
  {
    var e := DescentEnd(t, x.value);
    var nodes' := Attached(nodes, base, e, x, n);
    var goLeft := x.value < t.item.value;
    var next := if goLeft then t.left else t.right;
    var other := if goLeft then t.right else t.left;
    var otherLink := if goLeft then nodes[t.index].right else nodes[t.index].left;
    if next.Branch? {
      DescentEndIn(next, x.value);
      AttachRepresents(nodes, base, if goLeft then nodes[t.index].left else nodes[t.index].right, next, x, n);
    }
    RepresentsFrame(nodes, nodes', base, otherLink, other);
  }

  // ---- moving the block ----

  /** A link after adding the distance the block moved, on 32 bits. */
  function Rebased(link: nat, cBias: nat): nat {
    if link == 0 then 0 else (link + cBias) % MEMORY
  }

  function RebasedNode(node: Node, cBias: nat): Node {
    Node(node.item, Rebased(node.left, cBias), Rebased(node.right, cBias))
  }

  function Bias(newBase: nat, base: nat): nat {
    (newBase - base) % MEMORY
  }

  lemma RebasedAddress(base: nat, newBase: nat, index: nat)
    requires 0 < base && base < MEMORY && Address(newBase, index) < MEMORY
    ensures Rebased(Address(base, index), Bias(newBase, base)) == Address(newBase, index)
  {
    ModSpec(newBase - base, MEMORY);
    ModOf(Address(base, index) + Bias(newBase, base), MEMORY, 0 - (newBase - base) / MEMORY, Address(newBase, index));
  }

  lemma {:induction false} RebaseRepresents(nodes: seq<Node>, nodes': seq<Node>, base: nat, newBase: nat, link: nat, t: Tree,
                                            count: nat)
    requires Represents(nodes, base, link, t) && count <= |nodes| && count <= |nodes'|
    requires 0 < base && base < MEMORY && Address(newBase, count) <= MEMORY
    requires forall i :: i in Indices(t) ==> i < count
    requires forall i :: 0 <= i < count ==> nodes'[i] == RebasedNode(nodes[i], Bias(newBase, base))
    ensures Represents(nodes', newBase, Rebased(link, Bias(newBase, base)), t)
    decreases t
  {
    hide Bias, Rebased, Address;
    if t.Branch? {
      SubtreeIndices(t);
      RebaseRepresents(nodes, nodes', base, newBase, nodes[t.index].left, t.left, count);
      RebaseRepresents(nodes, nodes', base, newBase, nodes[t.index].right, t.right, count);
    }
    RebaseLink(base, newBase, link, t, count);
  }

  lemma SubtreeIndices(t: Tree)
    requires t.Branch?
    ensures Indices(t.left) <= Indices(t) && Indices(t.right) <= Indices(t) && t.index in Indices(t)
  {
  }

  lemma RebaseLink(base: nat, newBase: nat, link: nat, t: Tree, count: nat)
    requires t.Branch? ==> link == Address(base, t.index) && t.index < count
    requires t.Leaf? ==> link == 0
    requires 0 < base && base < MEMORY && Address(newBase, count) <= MEMORY
    ensures var link' := Rebased(link, Bias(newBase, base)); if t.Leaf? then link' == 0 else link' == Address(newBase, t.index)
  {
    hide Bias, Rebased;
    if t.Branch? {
      RebasedAddress(base, newBase, t.index);
    } else {
      RebasedNull(Bias(newBase, base));
    }
  }

  lemma RebasedNull(cBias: nat)
    ensures Rebased(0, cBias) == 0
  {
  }

  function Grown(nodeLimit: nat): nat {
    if nodeLimit <= 8 then nodeLimit + 4 else nodeLimit + nodeLimit / 2
  }

  // ---- the walk ----

  /** What is left to visit below the stacked nodes: each itself, then its right part, from the top of the stack down. */
  function Pend(pending: seq<Tree>): (r: seq<Item>)
    requires forall j :: 0 <= j < |pending| ==> pending[j].Branch?
    ensures |r| >= |pending|
  {
    if pending == [] then []
    else var n := |pending| - 1; [pending[n].item] + Items(pending[n].right) + Pend(pending[..n])
  }

  ghost predicate Stacked(nodes: seq<Node>, base: nat, stack: seq<nat>, pending: seq<Tree>) {
    && |pending| <= |stack|
    && forall j :: 0 <= j < |pending| ==> pending[j].Branch? && Represents(nodes, base, stack[j], pending[j])
  }

  /** What is left to visit in all. */
  ghost function Rest(cur: Tree, resumed: bool, pending: seq<Tree>): seq<Item>
    requires cur.Branch? && forall j :: 0 <= j < |pending| ==> pending[j].Branch?
  {
    (if resumed then [cur.item] + Items(cur.right) else Items(cur)) + Pend(pending)
  }

  lemma DescendKeepsRest(cur: Tree, pending: seq<Tree>)
    requires cur.Branch? && cur.left.Branch? && forall j :: 0 <= j < |pending| ==> pending[j].Branch?
    ensures Rest(cur.left, false, pending + [cur]) == Rest(cur, false, pending)
  {
    assert (pending + [cur])[..|pending|] == pending;
  }

  lemma VisitTakesFirst(cur: Tree, resumed: bool, pending: seq<Tree>)
    requires cur.Branch? && (resumed || cur.left.Leaf?) && forall j :: 0 <= j < |pending| ==> pending[j].Branch?
    ensures Rest(cur, resumed, pending) == [cur.item] + AfterVisit(cur, pending)
  {
    hide Pend, Items;
    ItemsOf(cur);
    ItemsOf(cur.left);
    var a, b := Items(cur.right), Pend(pending);
    if !resumed {
      assert [] + [cur.item] + a == [cur.item] + a;
    }
    assert ([cur.item] + a) + b == [cur.item] + (a + b);
  }

  lemma AfterVisitGoesOn(cur: Tree, pending: seq<Tree>)
    requires cur.Branch? && forall j :: 0 <= j < |pending| ==> pending[j].Branch?
    ensures cur.right.Branch? ==> AfterVisit(cur, pending) == Rest(cur.right, false, pending)
    ensures cur.right.Leaf? ==> AfterVisit(cur, pending) == Pend(pending)
  {
    hide Pend, Items;
    ItemsOf(cur.right);
    if cur.right.Leaf? {
      assert [] + Pend(pending) == Pend(pending);
    }
  }

  lemma ItemsOf(t: Tree)
    ensures t.Branch? ==> Items(t) == Items(t.left) + [t.item] + Items(t.right)
    ensures t.Leaf? ==> Items(t) == []
  {
  }

  ghost function AfterVisit(cur: Tree, pending: seq<Tree>): seq<Item>
    requires cur.Branch? && forall j :: 0 <= j < |pending| ==> pending[j].Branch?
  {
    Items(cur.right) + Pend(pending)
  }

  /** Popping the stack. */
  lemma PopKeepsRest(pending: seq<Tree>)
    requires forall j :: 0 <= j < |pending| ==> pending[j].Branch?
    ensures pending == [] ==> Pend(pending) == []
    ensures pending != [] ==> Pend(pending) == Rest(pending[|pending| - 1], true, pending[..|pending| - 1])
  {
    hide Items;
  }

  function Called(s: seq<Item>): seq<Pointer> {
    seq(|s|, i requires 0 <= i < |s| => s[i].p)
  }

  /** The calls made once e is visited. */
  lemma CallStep(visited: seq<Item>, e: Item)
    ensures Called(NonNull(visited + [e])) == Called(NonNull(visited)) + (if e.p != NULL then [e.p] else [])
  {
    assert (visited + [e])[..|visited|] == visited;
  }

  class FastSorter {
    var nodeList: seq<Node>
    var base: nat               // where the block of nodes lies
    var nodeCount: nat
    var nodeLimit: nat
    const autoIncreaseLimit: bool
    var traverseStack: seq<nat>
    ghost var tree: Tree
    ghost var added: seq<Item>  // since the last clear, without what did not fit

    ghost predicate Allocated()
      reads this
    {
      && |nodeList| == |traverseStack| == nodeLimit && nodeCount <= nodeLimit
      && 0 < base && Address(base, nodeLimit) <= MEMORY
    }

    ghost predicate Valid()
      reads this
    {
      && Allocated() && tree.Branch? && Separate(tree)
      && (forall i :: i in Indices(tree) <==> 0 <= i < nodeCount)
      && Represents(nodeList, base, base, tree)
      && Items(tree) == StableSorted([Item(0, NULL)] + added) && |added| + 1 == nodeCount
    }

    constructor (initialLimit: nat, autoIncreaseLimit: bool, base: nat)
      requires 0 < base && Address(base, initialLimit) <= MEMORY
      ensures Allocated() && nodeCount == 0 && nodeLimit == initialLimit && this.autoIncreaseLimit == autoIncreaseLimit
    {
      this.nodeCount := 0;
      this.nodeLimit := initialLimit;
      this.nodeList := seq(initialLimit, i => Node(Item(0, NULL), 0, 0));
      this.traverseStack := seq(initialLimit, i => 0);
      this.autoIncreaseLimit := autoIncreaseLimit;
      this.base := base;
    }

    /** Only the default entry is left. */
    method Clear()
      requires Allocated() && nodeLimit >= 1
      modifies this
      ensures Valid() && added == [] && nodeLimit == old(nodeLimit)
    {
      nodeCount := 1;
      nodeList := nodeList[0 := Node(Item(0, NULL), 0, 0)];
      tree := Branch(Leaf, 0, Item(0, NULL), Leaf);
      added := [];
      OneItem(Item(0, NULL));
    }

    /** Moves the nodes to a larger block at newBase and corrects every link. */
    method Enlarge(newBase: nat)
      requires Valid() && 0 < newBase && Address(newBase, Grown(nodeLimit)) <= MEMORY
      modifies this`nodeList, this`base, this`nodeLimit, this`traverseStack
      ensures Valid() && nodeLimit == Grown(old(nodeLimit)) && base == newBase
    {
      hide Separate, Represents, StableSorted, Rebased, Bias;
      var newLimit := Grown(nodeLimit);
      var newNodeList := nodeList[..nodeCount] + seq(newLimit - nodeCount, i => Node(Item(0, NULL), 0, 0));
      var cBias := Bias(newBase, base);
      var i := 0;
      while i < nodeCount
        invariant i <= nodeCount && |newNodeList| == newLimit
        invariant forall k :: 0 <= k < i ==> newNodeList[k] == RebasedNode(nodeList[k], cBias)
        invariant forall k :: i <= k < nodeCount ==> newNodeList[k] == nodeList[k]
      {
        newNodeList := newNodeList[i := RebasedNode(newNodeList[i], cBias)];
        i := i + 1;
      }
      RebaseRepresents(nodeList, newNodeList, base, newBase, base, tree, nodeCount);
      RebasedAddress(base, newBase, 0);
      traverseStack := seq(newLimit, i => 0);
      nodeList := newNodeList;
      nodeLimit := newLimit;
      base := newBase;
    }

    /** Adds an item; newBase is where a larger block would be allocated. */
    method Add(value: int, p: Pointer, newBase: nat)
      requires Valid()
      requires nodeLimit == nodeCount && autoIncreaseLimit ==> 0 < newBase && Address(newBase, Grown(nodeLimit)) <= MEMORY
      modifies this
      ensures Valid() && nodeLimit == if !old(nodeLimit == nodeCount) || !autoIncreaseLimit then old(nodeLimit)
                                      else if old(nodeLimit) <= 8 then old(nodeLimit) + 4
                                      else old(nodeLimit) + old(nodeLimit) / 2
      ensures added == if old(nodeLimit == nodeCount) && !autoIncreaseLimit then old(added) else old(added) + [Item(value, p)]
    {
      assert Grown(nodeLimit) == if nodeLimit <= 8 then nodeLimit + 4 else nodeLimit + nodeLimit / 2;
      hide Separate, Represents, StableSorted, Grown;
      if nodeLimit == nodeCount {
        if !autoIncreaseLimit {
          return;
        }
        GrownIsMore(nodeLimit);
        Enlarge(newBase);
      }
      var entry := base;
      ghost var cur := tree;
      while true
        invariant Valid() && nodeCount < nodeLimit && added == old(added) && cur.Branch?
        invariant nodeLimit == if old(nodeLimit == nodeCount) then Grown(old(nodeLimit)) else old(nodeLimit)
        invariant Represents(nodeList, base, entry, cur) && Indices(cur) <= Indices(tree)
        invariant DescentEnd(cur, value) == DescentEnd(tree, value)
        decreases cur
      {
        EntryOf(entry, cur);
        var i := IndexOf(base, entry);
        if value < nodeList[i].item.value {
          var next := nodeList[i].left;
          if next != 0 {
            entry := next;
            cur := cur.left;
            continue;
          } else {
            Attach(i, true, Item(value, p));
            return;
          }
        } else {
          var next := nodeList[i].right;
          if next != 0 {
            entry := next;
            cur := cur.right;
            continue;
          } else {
            Attach(i, false, Item(value, p));
            return;
          }
        }
      }
    }

    /** The entry stands for the root of the current subtree; a missing link for a missing subtree. */
    lemma EntryOf(entry: nat, cur: Tree)
      requires Valid() && cur.Branch? && Represents(nodeList, base, entry, cur)
      ensures entry == Address(base, cur.index) && IndexOf(base, entry) == cur.index < |nodeList|
      ensures nodeList[cur.index].item == cur.item
      ensures Represents(nodeList, base, nodeList[cur.index].left, cur.left)
      ensures Represents(nodeList, base, nodeList[cur.index].right, cur.right)
      ensures (nodeList[cur.index].left == 0 <==> cur.left.Leaf?) && (nodeList[cur.index].right == 0 <==> cur.right.Leaf?)
    {
      hide Separate;
      IndexOfAddress(base, cur.index);
    }

    /** Creates the branch at the end of the descent. */
    method Attach(e: nat, left: bool, x: Item)
      requires Valid() && nodeCount < nodeLimit && e == DescentEnd(tree, x.value) && e < nodeCount
      requires left == (x.value < nodeList[e].item.value)
      modifies this`nodeList, this`nodeCount, this`tree, this`added
      ensures Valid() && added == old(added) + [x]
    {
      hide Separate, Represents, StableSorted, Insert, Sorted, Indices, Items, DescentEnd, TreeInsert;
      ghost var n, items := nodeCount, [Item(0, NULL)] + added;
      AttachRepresents(nodeList, base, base, tree, x, n);
      TreeInsertShape(tree, x, n);
      StableSortedIsStableSort(items);
      TreeInsertItems(tree, x, n);
      SortedAppend(items, x);
      assert items + [x] == [Item(0, NULL)] + (added + [x]);
      var next := Address(base, nodeCount);
      nodeList := nodeList[e := if left then nodeList[e].(left := next) else nodeList[e].(right := next)];
      nodeList := nodeList[nodeCount := Node(x, 0, 0)];
      nodeCount := nodeCount + 1;
      tree := TreeInsert(tree, x, n);
      added := added + [x];
    }

    /** The callbacks of a traversal: the added items that are not null, stably sorted. */
    method TraverseAscending() returns (calls: seq<Pointer>)
      requires Valid()
      modifies this`traverseStack
      ensures calls == Called(StableSorted(NonNull(added))) && Valid()
    {
      hide Separate, Represents, StableSorted, Items, Called, NonNull, Rest, Pend, AfterVisit;
      var stackSize := 0;
      var entry := base;
      var resumed := false;
      calls := [];
      ghost var cur, pending: seq<Tree>, visited: seq<Item> := tree, [], [];
      assert Rest(cur, resumed, pending) == Items(tree) by { StartRest(tree); }
      NoCalls();
      while true
        invariant Valid() && tree == old(tree) && added == old(added)
        invariant cur.Branch? && Represents(nodeList, base, entry, cur) && stackSize == |pending|
        invariant Stacked(nodeList, base, traverseStack, pending)
        invariant Items(tree) == visited + Rest(cur, resumed, pending)
        invariant calls == Called(NonNull(visited))
        decreases |Rest(cur, resumed, pending)|, cur
      {
        EntryOf(entry, cur);
        var i := IndexOf(base, entry);
        if !resumed && nodeList[i].left != 0 {
          StackFits(cur, resumed, pending, visited);
          DescendKeepsRest(cur, pending);
          traverseStack := traverseStack[stackSize := entry];
          stackSize := stackSize + 1;
          entry := nodeList[i].left;
          pending := pending + [cur];
          cur := cur.left;
          continue;
        }
        VisitTakesFirst(cur, resumed, pending);
        AfterVisitGoesOn(cur, pending);
        PopKeepsRest(pending);
        CallStep(visited, cur.item);
        if nodeList[i].item.p != NULL {
          calls := calls + [nodeList[i].item.p];
        }
        visited := visited + [cur.item];
        if nodeList[i].right != 0 {
          entry := nodeList[i].right;
          cur := cur.right;
          resumed := false;
          continue;
        }
        if stackSize == 0 {
          AllVisited(visited);
          return;
        }
        stackSize := stackSize - 1;
        entry := traverseStack[stackSize];
        resumed := true;
        cur := pending[stackSize];
        pending := pending[..stackSize];
      }
    }

    lemma StackFits(cur: Tree, resumed: bool, pending: seq<Tree>, visited: seq<Item>)
      requires Valid() && cur.Branch? && forall j :: 0 <= j < |pending| ==> pending[j].Branch?
      requires Items(tree) == visited + Rest(cur, resumed, pending)
      ensures |pending| < nodeLimit
    {
      hide Separate, Represents, StableSorted, Pend;
    }

    lemma AllVisited(visited: seq<Item>)
      requires Valid() && Items(tree) == visited + []
      ensures Called(NonNull(visited)) == Called(StableSorted(NonNull(added)))
    {
      hide Separate, Represents, StableSorted, Called, NonNull;
      SortNonNull([Item(0, NULL)] + added);
      NonNullCons(Item(0, NULL), added);
      assert visited + [] == visited && IfNonNull(Item(0, NULL)) + NonNull(added) == NonNull(added);
    }
  }

  lemma NoCalls()
    ensures Called(NonNull([])) == []
  {
  }

  lemma StartRest(t: Tree)
    requires t.Branch?
    ensures Rest(t, false, []) == Items(t)
  {
  }

  lemma GrownIsMore(nodeLimit: nat)
    ensures Grown(nodeLimit) > nodeLimit
  {
  }

  lemma OneItem(x: Item)
    ensures StableSorted([x]) == [x]
  {
    assert [x][..0] == [];
  }

  // ---- a whole run ----

  /** The largest block a run over n items can ask for. */
  function LargestBlock(initialLimit: nat, n: nat): nat {
    initialLimit + 2 * n + 8
  }

  lemma GrownBound(nodeLimit: nat, initialLimit: nat, n: nat)
    requires nodeLimit <= n
    ensures Grown(nodeLimit) <= LargestBlock(initialLimit, n)
  {
  }

  /**
   A growing sorter, cleared, filled and traversed: the callbacks are the stable
   sort of the items that are not null. block(n) is where the allocator puts a
   block of n nodes.
   */
  method SortItems(f: FastSorter, items: seq<Item>, block: nat -> nat) returns (calls: seq<Pointer>)
    requires f.Allocated() && f.nodeLimit >= 1 && f.autoIncreaseLimit
    requires forall n :: 0 < n <= LargestBlock(f.nodeLimit, |items|) ==> 0 < block(n) && Address(block(n), n) <= MEMORY
    modifies f
    ensures f.Valid() && f.added == items
    ensures calls == Called(StableSorted(NonNull(items)))
  {
    hide Represents, Separate, StableSorted, NonNull, Called, Items, Indices, Grown, Address;
    ghost var initialLimit := f.nodeLimit;
    f.Clear();
    var i := 0;
    while i < |items|
      invariant i <= |items| && f.Valid() && f.added == items[..i] && f.nodeCount == i + 1
      invariant f.nodeLimit <= LargestBlock(initialLimit, |items|)
    {
      GrownIsMore(f.nodeLimit);
      if f.nodeLimit <= |items| {
        GrownBound(f.nodeLimit, initialLimit, |items|);
      }
      assert items[..i + 1] == items[..i] + [items[i]];
      f.Add(items[i].value, items[i].p, block(Grown(f.nodeLimit)));
      i := i + 1;
    }
    assert items[..i] == items;
    calls := f.TraverseAscending();
  }
}
