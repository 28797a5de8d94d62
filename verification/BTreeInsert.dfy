/** Insertion in place: full nodes are split on the way down. */
module BTreeInsert {
  import opened Orders
  import opened BTree
  import opened BTreeSearch
  import opened BTreeRemoval
  import opened BTreeDeleted
  import opened BTreeHeap
  import opened BTreeDelete

  // ----- splitting a full node

  /** The halves of a full node: T - 1 keys each, and one between them. */
  function Lower<N, K>(y: Tree<N, K>, T: nat): Tree<N, K>
    requires 0 < T && |y.keys| == 2 * T - 1
  {
    Node(y.node, y.keys[..T - 1], if |y.kids| < T then [] else y.kids[..T])
  }

  function Upper<N, K>(y: Tree<N, K>, T: nat, z: N): Tree<N, K>
    requires 0 < T && |y.keys| == 2 * T - 1
  {
    Node(z, y.keys[T..], if |y.kids| < T then [] else y.kids[T..])
  }

  lemma HalvesFormed<N, K>(y: Tree<N, K>, T: nat, z: N, h: nat)
    requires 0 < T && |y.keys| == 2 * T - 1 && Formed(y, h)
    ensures Formed(Lower(y, T), h) && Formed(Upper(y, T, z), h)
  {
  }

  lemma HalvesJoin<N, K>(y: Tree<N, K>, T: nat, z: N, h: nat)
    requires 0 < T && |y.keys| == 2 * T - 1 && Formed(y, h)
    ensures Formed(Lower(y, T), h) && Formed(Upper(y, T, z), h)
    ensures Flat(y, h) == Flat(Lower(y, T), h) + [y.keys[T - 1]] + Flat(Upper(y, T, z), h)
  {
    hide Formed, Flat;
    var l, u := Lower(y, T), Upper(y, T, z);
    HalvesFormed(y, T, z, h);
    FlatJoin(l, y.keys[T - 1], u, h);
    assert y.keys == y.keys[..T - 1] + [y.keys[T - 1]] + y.keys[T..];
    HalfKids(y, T, z, h);
    assert Join(l, y.keys[T - 1], u) == y;
  }

  lemma HalfKids<N, K>(y: Tree<N, K>, T: nat, z: N, h: nat)
    requires 0 < T && |y.keys| == 2 * T - 1 && Formed(y, h)
    ensures Lower(y, T).kids + Upper(y, T, z).kids == y.kids
  {
  }

  lemma HalvesFilled<N, K>(y: Tree<N, K>, T: nat, z: N, h: nat)
    requires 0 < T && |y.keys| == 2 * T - 1 && Filled(y, T, h, T - 1)
    ensures Filled(Lower(y, T), T, h, T - 1) && Filled(Upper(y, T, z), T, h, T - 1)
  {
  }

  lemma HalvesApart<N, K>(y: Tree<N, K>, T: nat, z: N, h: nat)
    requires 0 < T && |y.keys| == 2 * T - 1 && Formed(y, h) && Sep(y, h) && z !in Nodes(y, h)
    ensures var l, u := Lower(y, T), Upper(y, T, z);
      && Sep(l, h) && Sep(u, h) && Nodes(l, h) !! Nodes(u, h)
      && Nodes(l, h) <= Nodes(y, h) && Nodes(u, h) <= Nodes(y, h) + {z}
  {
    if h > 0 {
      Stretches(y.kids, h - 1, T, T);
      assert y.kids[T..T] == [];
      hide AllNodes, AllSep;
    }
  }

  /** Moves the upper half of y to a new node z; mid is the key between them. */
  method Halve<K>(y: KbNode<K>, T: nat, ghost ty: HeapTree<K>, ghost g: nat) returns (z: KbNode<K>, mid: K)
    requires 0 < T && |ty.keys| == 2 * T - 1 && Fits(ty, g) && Sep(ty, g) && Formed(ty, g) && y == ty.node
    modifies y
    ensures fresh(z) && z !in Nodes(ty, g) && mid == ty.keys[T - 1]
    ensures Fits(Lower(ty, T), g) && Fits(Upper(ty, T, z), g)
  {
    NodesAllocated(ty, g);
    Local(ty, g);
    if g > 0 {
      HalfFits(ty, T, g);
    }
    hide Fits, AllFit, Formed, Sep, AllSep, Nodes;
    z := new KbNode(y.isInternal, y.keys[T..], if y.isInternal then y.kids[T..] else []);
    mid := y.keys[T - 1];
    y.keys := y.keys[..T - 1];
    if y.isInternal {
      y.kids := y.kids[..T];
    }
    if g > 0 {
      FitsInternal(Lower(ty, T), g);
      FitsInternal(Upper(ty, T, z), g);
    } else {
      FitsLeaf(Lower(ty, T));
      FitsLeaf(Upper(ty, T, z));
    }
  }

  lemma HalfFits<K>(ty: HeapTree<K>, T: nat, g: nat)
    requires 0 < T && |ty.keys| == 2 * T - 1 && g > 0 && Fits(ty, g) && Sep(ty, g) && |ty.kids| == 2 * T
    ensures AllFit(ty.kids[..T], g - 1) && AllFit(ty.kids[T..], g - 1)
    ensures ty.node !in AllNodes(ty.kids[..T], g - 1) && ty.node !in AllNodes(ty.kids[T..], g - 1)
    ensures Ids(ty.kids[..T]) == Ids(ty.kids)[..T] && Ids(ty.kids[T..]) == Ids(ty.kids)[T..]
    ensures AllNodes(ty.kids[..T], g - 1) + AllNodes(ty.kids[T..], g - 1) <= Nodes(ty, g)
  {
    FitStretches(ty.kids, g - 1, T, T);
    Stretches(ty.kids, g - 1, T, T);
  }

  /** The tree after kid i has been split. */
  function SplitTree<N, K>(t: Tree<N, K>, i: nat, T: nat, z: N): Tree<N, K>
    requires 0 < T && i < |t.kids| == |t.keys| + 1 && |t.kids[i].keys| == 2 * T - 1
  {
    Splice(t, i, i, [t.kids[i].keys[T - 1]], [Lower(t.kids[i], T), Upper(t.kids[i], T, z)])
  }

  /** Splits kid i of x, which is full. */
  method Split<K>(x: KbNode<K>, i: nat, T: nat, ghost t: HeapTree<K>, ghost h: nat) returns (ghost z: KbNode<K>)
    requires 0 < T && i < |t.kids| == |t.keys| + 1 && |t.kids[i].keys| == 2 * T - 1
    requires h > 0 && Fits(t, h) && Sep(t, h) && Formed(t, h) && x == t.node
    modifies Nodes(t, h)
    ensures fresh(z) && z !in Nodes(t, h) && Fits(SplitTree(t, i, T, z), h)
  {
    hide Fits, AllFit, Formed, Sep, AllSep, Nodes, AllNodes;
    NodesAllocated(t, h);
    KidFormed(t, h, i);
    Enter(t, h, i);
    ghost var ty := t.kids[i];
    InOwnNodes(t, h);
    InOwnNodes(ty, h - 1);
    var y := x.kids[i];
    var n, mid := Halve(y, T, ty, h - 1);
    z := n;
    ghost var l, u := Lower(ty, T), Upper(ty, T, n);
    HalvesApart(ty, T, n, h - 1);
    FitTwo(l, u, h - 1);
    NodesTwo(l, u, h - 1);
    x.kids := x.kids[..i + 1] + [n] + x.kids[i + 1..];
    x.keys := x.keys[..i] + [mid] + x.keys[i..];
    SplitIds(t, i, l, u);
    Close(t, h, i, i, [mid], [l, u]);
  }

  lemma SplitIds<N, K>(t: Tree<N, K>, i: nat, l: Tree<N, K>, u: Tree<N, K>)
    requires i < |t.kids| && l.node == t.kids[i].node
    ensures Ids(t.kids)[..i + 1] + [u.node] + Ids(t.kids)[i + 1..] == Ids(t.kids)[..i] + Ids([l, u]) + Ids(t.kids)[i + 1..]
  {
    var ids := Ids(t.kids);
    assert Ids([l, u]) == [ids[i], u.node];
    assert ids[..i + 1] == ids[..i] + [ids[i]];
  }

  /** A split keeps the keys in order and the sizes in range. */
  lemma SplitIs<N, K>(t: Tree<N, K>, i: nat, T: nat, z: N, h: nat, lo: nat)
    requires 0 < T && i < |t.kids| == |t.keys| + 1 && |t.kids[i].keys| == 2 * T - 1
    requires h > 0 && Sep(t, h) && Formed(t, h) && Filled(t, T, h, lo) && |t.keys| < 2 * T - 1 && z !in Nodes(t, h)
    ensures var u := SplitTree(t, i, T, z);
      && u.node == t.node && |u.keys| == |t.keys| + 1 && |u.kids| == |t.kids| + 1
      && u.keys == t.keys[..i] + [t.kids[i].keys[T - 1]] + t.keys[i..]
      && |u.kids[i].keys| == T - 1 == |u.kids[i + 1].keys|
      && Formed(u, h) && Flat(u, h) == Flat(t, h)
      && Filled(u, T, h, lo) && Sep(u, h) && Nodes(u, h) <= Nodes(t, h) + {z}
  {
    hide Fits, AllFit, Filled, AllFilled, Formed, Flat, Before, After, Sep, AllSep, Nodes, AllNodes;
    var y, u := t.kids[i], SplitTree(t, i, T, z);
    KidFormed(t, h, i);
    KidFilled(t, T, h, lo, i);
    TopFilled(t, T, h, lo);
    SepKid(t, h, i);
    InNodes(t, h, i);
    HalvesJoin(y, T, z, h - 1);
    HalvesFilled(y, T, z, h - 1);
    HalvesApart(y, T, z, h - 1);
    FlatAt(t, h, i);
    FlatToTwo(t, h, i, i, Lower(y, T), y.keys[T - 1], Upper(y, T, z));
    FilledTwo(Lower(y, T), Upper(y, T, z), T, h - 1);
    FilledSplice(t, T, h, i, i, [y.keys[T - 1]], [Lower(y, T), Upper(y, T, z)], lo, lo);
    SplitApart(t, i, T, z, h);
  }

  lemma InNodes<N, K>(t: Tree<N, K>, h: nat, i: nat)
    requires h > 0 && i < |t.kids|
    ensures Nodes(t.kids[i], h - 1) <= Nodes(t, h)
  {
    Stretches(t.kids, h - 1, i, i + 1);
    assert t.kids[i..i + 1] == [t.kids[i]];
    NodesOne(t.kids[i], h - 1);
  }

  lemma SplitApart<N, K>(t: Tree<N, K>, i: nat, T: nat, z: N, h: nat)
    requires 0 < T && i < |t.kids| == |t.keys| + 1 && |t.kids[i].keys| == 2 * T - 1
    requires h > 0 && Sep(t, h) && Formed(t.kids[i], h - 1) && z !in Nodes(t, h)
    ensures var u := SplitTree(t, i, T, z); Sep(u, h) && Nodes(u, h) <= Nodes(t, h) + {z}
  {
    hide AllSep, AllNodes;
    var y := t.kids[i];
    var l, u := Lower(y, T), Upper(y, T, z);
    InNodes(t, h, i);
    SepKid(t, h, i);
    HalvesApart(y, T, z, h - 1);
    NodesTwo(l, u, h - 1);
    Stretches(t.kids, h - 1, i, i + 1);
    assert t.kids[i..i + 1] == [y];
    NodesOne(y, h - 1);
    AllNodesAppend(t.kids[..i], [l, u], h - 1);
    AllNodesAppend(t.kids[..i] + [l, u], t.kids[i + 1..], h - 1);
  }

  // ----- insertion

  /** k may stand at place at of s. */
  ghost predicate Fitting<K>(cmp: (K, K) -> int, s: seq<K>, k: K, at: nat) {
    at <= |s| && NoneGreater(cmp, s[..at], k) && NoneLess(cmp, s[at..], k)
  }

  function Inserted<K>(s: seq<K>, k: K, at: nat): seq<K>
    requires at <= |s|
  {
    s[..at] + [k] + s[at..]
  }

  lemma InsertedAt<K>(s: seq<K>, k: K, at: nat, i: nat)
    requires at <= |s| && i <= |s|
    ensures |Inserted(s, k, at)| == |s| + 1
    ensures Inserted(s, k, at)[i] == if i < at then s[i] else if i == at then k else s[i - 1]
  {
  }

  lemma InsertedSorted<K(!new)>(cmp: (K, K) -> int, s: seq<K>, k: K, at: nat)
    requires Order(cmp) && SortedUp(cmp, s) && Fitting(cmp, s, k, at)
    ensures SortedUp(cmp, Inserted(s, k, at))
  {
    var r := Inserted(s, k, at);
    forall i, j | 0 <= i < j < |r|
      ensures cmp(r[i], r[j]) <= 0
    {
      InsertedAt(s, k, at, i);
      InsertedAt(s, k, at, j);
      if i == at { assert s[at..][j - at - 1] == s[j - 1]; }
      if j == at { assert s[..at][i] == s[i]; }
      hide Inserted, Order;
    }
  }

  lemma InsertedInside<K>(cmp: (K, K) -> int, a: seq<K>, m: seq<K>, b: seq<K>, k: K, at: nat)
    requires NoneGreater(cmp, a, k) && NoneLess(cmp, b, k) && Fitting(cmp, m, k, at)
    ensures Fitting(cmp, a + m + b, k, |a| + at)
    ensures Inserted(a + m + b, k, |a| + at) == a + Inserted(m, k, at) + b
  {
    var s := a + m + b;
    assert s[..|a| + at] == a + m[..at] && s[|a| + at..] == m[at..] + b;
  }

  /** The leaf with k put behind key i. */
  function PutAt<N, K>(t: Tree<N, K>, k: K, i: int): Tree<N, K>
    requires -1 <= i < |t.keys|
  {
    t.(keys := t.keys[..i + 1] + [k] + t.keys[i + 1..])
  }

  lemma PutInLeaf<N, K(!new)>(cmp: (K, K) -> int, t: Tree<N, K>, T: nat, lo: nat, k: K)
    requires 0 < T && Filled(t, T, 0, lo) && Formed(t, 0) && |t.keys| < 2 * T - 1 && Order(cmp) && SortedUp(cmp, t.keys)
    ensures var i := Locate(cmp, t.keys, k).i; var u := PutAt(t, k, i);
      && Filled(u, T, 0, lo) && Formed(u, 0) && Fitting(cmp, Flat(t, 0), k, i + 1) && Flat(u, 0) == Inserted(Flat(t, 0), k, i + 1)
  {
    FittingKeys(cmp, t.keys, k);
    hide SortedUp, Order, Locate, Fitting;
  }

  lemma FittingKeys<K(!new)>(cmp: (K, K) -> int, keys: seq<K>, k: K)
    requires Order(cmp) && SortedUp(cmp, keys)
    ensures Fitting(cmp, keys, k, Locate(cmp, keys, k).i + 1)
  {
    hide SortedUp, Order, Locate;
    if keys != [] {
      LocateIs(cmp, keys, k);
      var at := Locate(cmp, keys, k).i + 1;
      assert forall j :: 0 <= j < at ==> cmp(keys[j], k) <= 0;
      assert forall j :: at <= j < |keys| ==> cmp(keys[j], k) >= 0;
    }
  }

  /** Kid j of u is sorted, and k belongs in it: nothing before is greater, nothing after less. */
  ghost predicate BelongsIn<N, K>(cmp: (K, K) -> int, u: Tree<N, K>, h: nat, j: nat, k: K) {
    hide Flat, Before, After, SortedUp, NoneGreater, NoneLess;
    && h > 0 && Formed(u, h) && j < |u.kids| && j <= |u.keys| && Formed(u.kids[j], h - 1)
    && SortedUp(cmp, Flat(u.kids[j], h - 1)) && NoneGreater(cmp, Before(u, h, j), k) && NoneLess(cmp, After(u, h, j), k)
  }

  /** Where the descent goes on when a split of kid i has put its middle key at i: kid i, or the next one. */
  lemma SideAfterSplit<N, K(!new)>(cmp: (K, K) -> int, u: Tree<N, K>, h: nat, i: nat, k: K)
    requires Order(cmp) && h > 0 && Formed(u, h) && SortedUp(cmp, Flat(u, h)) && i < |u.keys|
    requires i > 0 ==> cmp(u.keys[i - 1], k) <= 0
    requires i + 1 < |u.keys| ==> cmp(u.keys[i + 1], k) >= 0
    ensures BelongsIn(cmp, u, h, if cmp(k, u.keys[i]) > 0 then i + 1 else i, k)
  {
    assert |u.kids| == |u.keys| + 1;
    hide Formed, Flat, Before, After, SortedUp, Order, NoneGreater, NoneLess, AllLess, AllGreater;
    NotAbove(cmp, k, u.keys[i]);
    if cmp(k, u.keys[i]) > 0 {
      SideKeys(cmp, u, h, i, k);
    } else {
      SideKeys(cmp, u, h, i - 1, k);
    }
  }

  lemma KeysAround<K>(keys: seq<K>, i: nat, mid: K, after: seq<K>)
    requires i <= |keys| && after == keys[..i] + [mid] + keys[i..]
    ensures |after| == |keys| + 1 && after[i] == mid
    ensures (i > 0 ==> after[i - 1] == keys[i - 1]) && (i < |keys| ==> after[i + 1] == keys[i])
  {
  }

  lemma NotAbove<K(!new)>(cmp: (K, K) -> int, k: K, x: K)
    requires Order(cmp)
    ensures cmp(k, x) > 0 <==> cmp(x, k) < 0
  {
  }

  /** The keys on both sides of where a search in a node leads. */
  lemma LocateSides<K(!new)>(cmp: (K, K) -> int, keys: seq<K>, k: K)
    requires Order(cmp) && SortedUp(cmp, keys) && keys != []
    ensures var i := Locate(cmp, keys, k).i + 1;
      && 0 <= i <= |keys| && (i > 0 ==> cmp(keys[i - 1], k) <= 0) && (i < |keys| ==> cmp(keys[i], k) >= 0)
  {
    LocateIs(cmp, keys, k);
    hide SortedUp, Order, Locate;
  }

  /** Insertion below x, which is not full. */
  method PutAux<K(!new)>(cmp: (K, K) -> int, T: nat, x: KbNode<K>, k: K, ghost t: HeapTree<K>, ghost h: nat, ghost lo: nat)
      returns (ghost u: HeapTree<K>, ghost at: nat)
    requires 2 <= T && Filled(t, T, h, lo) && |t.keys| < 2 * T - 1 && (h > 0 ==> lo > 0)
    requires Order(cmp) && Formed(t, h) && SortedUp(cmp, Flat(t, h)) && Fits(t, h) && Sep(t, h) && x == t.node
    modifies Nodes(t, h)
    ensures Fits(u, h) && Sep(u, h) && u.node == x
    ensures forall n :: n in Nodes(u, h) ==> n in Nodes(t, h) || fresh(n)
    ensures Filled(u, T, h, lo) && Formed(u, h)
    ensures Fitting(cmp, Flat(t, h), k, at) && Flat(u, h) == Inserted(Flat(t, h), k, at)
    decreases h
  {
    hide Flat, Filled, AllFilled, Formed, SortedUp, Order, Locate, Before, After, AllSep, AllNodes, Sep, Nodes, Fits, AllFit, Fitting, Inserted;
    NodesAllocated(t, h);
    InOwnNodes(t, h);
    Local(t, h);
    KeysSorted(cmp, t, h);
    var i, r := FindInNode(cmp, x.keys, k);
    if !x.isInternal {
      u, at := PutInLeafNode(cmp, T, x, k, i, t, lo);
    } else {
      u, at := PutBelow(cmp, T, x, k, i + 1, t, h, lo);
    }
  }

  /** Puts k behind key i of a leaf. */
  method PutKey<K>(x: KbNode<K>, k: K, i: int, ghost t: HeapTree<K>)
    requires -1 <= i < |t.keys| && x == t.node && Formed(t, 0) && Fits(t, 0)
    modifies x
    ensures Fits(PutAt(t, k, i), 0)
  {
    x.keys := x.keys[..i + 1] + [k] + x.keys[i + 1..];
  }

  method PutInLeafNode<K(!new)>(cmp: (K, K) -> int, T: nat, x: KbNode<K>, k: K, i: int, ghost t: HeapTree<K>, ghost lo: nat)
      returns (ghost u: HeapTree<K>, ghost at: nat)
    requires 2 <= T && |t.keys| < 2 * T - 1 && i == Locate(cmp, t.keys, k).i && x == t.node
    requires Filled(t, T, 0, lo) && Formed(t, 0) && Fits(t, 0) && Order(cmp) && SortedUp(cmp, t.keys)
    modifies x
    ensures Fits(u, 0) && Sep(u, 0) && u.node == x && Nodes(u, 0) == {x}
    ensures Filled(u, T, 0, lo) && Formed(u, 0)
    ensures Fitting(cmp, Flat(t, 0), k, at) && Flat(u, 0) == Inserted(Flat(t, 0), k, at)
  {
    hide SortedUp, Order, Locate, Fitting, Inserted, Flat, Filled, Formed, Fits, AllFit;
    PutInLeaf(cmp, t, T, lo, k);
    u, at := PutAt(t, k, i), i + 1;
    PutKey(x, k, i, t);
  }

  method PutBelow<K(!new)>(cmp: (K, K) -> int, T: nat, x: KbNode<K>, k: K, i: int, ghost t: HeapTree<K>, ghost h: nat, ghost lo: nat)
      returns (ghost u: HeapTree<K>, ghost at: nat)
    requires 2 <= T && |t.keys| < 2 * T - 1 && h > 0 && lo > 0 && i == Locate(cmp, t.keys, k).i + 1 && x == t.node
    requires Filled(t, T, h, lo) && Formed(t, h) && Fits(t, h) && Sep(t, h) && Order(cmp) && SortedUp(cmp, Flat(t, h))
    modifies Nodes(t, h)
    ensures Fits(u, h) && Sep(u, h) && u.node == x
    ensures forall n :: n in Nodes(u, h) ==> n in Nodes(t, h) || fresh(n)
    ensures Filled(u, T, h, lo) && Formed(u, h)
    ensures Fitting(cmp, Flat(t, h), k, at) && Flat(u, h) == Inserted(Flat(t, h), k, at)
    decreases h, 1
  {
    hide Flat, Filled, AllFilled, Formed, SortedUp, Order, Locate, Before, After, AllSep, AllNodes, Sep, Nodes, Fits, AllFit, Fitting, Inserted, NoneGreater, NoneLess;
    NodesAllocated(t, h);
    TopFilled(t, T, h, lo);
    KeysSorted(cmp, t, h);
    LocateSides(cmp, t.keys, k);
    KidLocal(t, h, i);
    KidFilled(t, T, h, lo, i);
    TopFilled(t.kids[i], T, h - 1, T - 1);
    if |x.kids[i].keys| == 2 * T - 1 {
      ghost var z := Split(x, i, T, t, h);
      SplitIs(t, i, T, z, h, lo);
      ghost var v := SplitTree(t, i, T, z);
      KidLocal(v, h, i);
      ghost var mid := t.kids[i].keys[T - 1];
      KeysAround(t.keys, i, mid, v.keys);
      SideAfterSplit(cmp, v, h, i, k);
      var j := if cmp(k, x.keys[i]) > 0 then i + 1 else i;
      KidLocal(v, h, j);
      u, at := PutInKid(cmp, T, x.kids[j], k, v, h, j, lo);
    } else {
      SideKeys(cmp, t, h, i - 1, k);
      u, at := PutInKid(cmp, T, x.kids[i], k, t, h, i, lo);
    }
  }

  /** Inserts in kid j of v, which is not full and where k belongs. */
  method PutInKid<K(!new)>(cmp: (K, K) -> int, T: nat, c: KbNode<K>, k: K, ghost v: HeapTree<K>, ghost h: nat, ghost j: nat, ghost lo: nat)
      returns (ghost u: HeapTree<K>, ghost at: nat)
    requires 2 <= T && h > 0 && lo > 0 && j < |v.kids| == |v.keys| + 1 && |v.kids[j].keys| < 2 * T - 1 && c == v.kids[j].node
    requires Filled(v, T, h, lo) && Fits(v, h) && Sep(v, h) && Formed(v, h) && BelongsIn(cmp, v, h, j, k) && Order(cmp)
    modifies Nodes(v, h)
    ensures Fits(u, h) && Sep(u, h) && u.node == v.node
    ensures forall n :: n in Nodes(u, h) ==> n in Nodes(v, h) || fresh(n)
    ensures Filled(u, T, h, lo) && Formed(u, h)
    ensures Fitting(cmp, Flat(v, h), k, at) && Flat(u, h) == Inserted(Flat(v, h), k, at)
    decreases h, 0
  {
    hide Flat, Filled, AllFilled, Formed, SortedUp, Order, Before, After, AllSep, AllNodes, Sep, Nodes, Fits, AllFit, Fitting, Inserted, NoneGreater, NoneLess;
    NodesAllocated(v, h);
    KidFilled(v, T, h, lo, j);
    Enter(v, h, j);
    FlatAt(v, h, j);
    ghost var w := v.kids[j];
    ghost var d, at' := PutAux(cmp, T, c, k, w, h - 1, T - 1);
    Leave(v, h, j, d);
    FlatKid(v, T, h, j, d);
    TopFilled(v, T, h, lo);
    LooserFilled(v, T, h, lo, 0);
    FilledKid(v, T, h, j, d, lo);
    InsertedInside(cmp, Before(v, h, j), Flat(w, h - 1), After(v, h, j), k, at');
    u, at := v.(kids := v.kids[j := d]), |Before(v, h, j)| + at';
    PutApart(v, h, j, d);
  }

  lemma PutApart<N, K>(v: Tree<N, K>, h: nat, j: nat, d: Tree<N, K>)
    requires h > 0 && j < |v.kids| == |v.keys| + 1 && Sep(v, h) && Sep(d, h - 1)
    requires forall n :: n in Nodes(d, h - 1) ==> n in Nodes(v.kids[j], h - 1) || n !in Nodes(v, h)
    ensures var u := v.(kids := v.kids[j := d]);
      && Sep(u, h)
      && forall n :: n in Nodes(u, h) ==> n in Nodes(v, h) || n in Nodes(d, h - 1)
  {
    hide AllNodes, AllSep;
    Stretches(v.kids, h - 1, j, j + 1);
    assert v.kids[j..j + 1] == [v.kids[j]];
    NodesOne(v.kids[j], h - 1);
    NodesOne(d, h - 1);
    var a, b := AllNodes(v.kids[..j], h - 1), AllNodes(v.kids[j + 1..], h - 1);
    assert Nodes(v, h) == {v.node} + a + Nodes(v.kids[j], h - 1) + b;
    assert Nodes(d, h - 1) !! a && Nodes(d, h - 1) !! b && v.node !in Nodes(d, h - 1);
    assert v.kids[j := d] == v.kids[..j] + [d] + v.kids[j + 1..];
    AllNodesAppend(v.kids[..j], [d], h - 1);
    AllNodesAppend(v.kids[..j] + [d], v.kids[j + 1..], h - 1);
  }
}
