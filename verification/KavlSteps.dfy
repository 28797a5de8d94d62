/** The steps of the tree of kavl.h on the heap: the size stores of rotations, of the two ways of unlinking and
    of the loops along a path, and settling after an insertion. Links and balance factors are changed by the
    methods for the AVL table; the sizes, which that table does not have, are a map that is changed beside them. */
module KavlSteps {
  import opened Orders
  import opened AvlTree
  import opened AvlOrder
  import opened AvlShape
  import opened AvlInsert
  import opened AvlDelete
  import opened AvlSplice
  import opened AvlTable
  import opened AvlBounds
  import opened KavlSizes

  type Sizes<T> = map<AvlNode<T>, nat>

  /** KAVL_MAX_DEPTH. */
  const MAX_DEPTH := 64

  /** The greatest value of an unsigned size. */
  const MAX_SIZE := 0xFFFF_FFFF

  /** Outside s the sizes are as they were. */
  ghost predicate Elsewhere<T>(a: Sizes<T>, b: Sizes<T>, s: set<AvlNode<T>>) {
    forall n :: n in a && n !in s ==> n in b && b[n] == a[n]
  }

  /** While sizes fit their type, no path is as long as the path arrays. */
  lemma DepthFits<N, T>(t: Tree<N, T>)
    requires Avl(t) && |InOrder(t)| <= MAX_SIZE
    ensures Height(t) < 48
  {
    FewestItems(t);
    MinItemsValues();
    EightOn(32, 5702886, 9227464, 13 * 5702886 + 21 * 9227464 + 33, 21 * 5702886 + 34 * 9227464 + 54);
    var a, b := 13 * 5702886 + 21 * 9227464 + 33, 21 * 5702886 + 34 * 9227464 + 54;
    EightOn(40, a, b, 13 * a + 21 * b + 33, 21 * a + 34 * b + 54);
    if Height(t) >= 48 { MinItemsGrows(48, Height(t)); }
  }

  // ----- rotations

  /** kavl_size_child. */
  function ChildSize<T>(sizes: Sizes<T>, p: AvlNode<T>, d: bool): nat
    requires p.Link(d) != null ==> p.Link(d) in sizes
    reads p
  {
    if p.Link(d) == null then 0 else sizes[p.Link(d)]
  }

  /** What the shape and the sizes of s say about its top node. */
  lemma SizesAt<T>(sizes: Sizes<T>, y: AvlNode<T>, s: HeapTree<T>, d: bool)
    requires Shape(y, s) && Sized(sizes, s)
    ensures s.Node? && s.node == y && y in Nodes(s) && y in sizes && sizes[y] == Count(s) == Count(Child(s, d)) + 1 + Count(Child(s, !d))
    ensures (y.Link(d) != null ==> y.Link(d) in sizes) && ChildSize(sizes, y, d) == Count(Child(s, d))
    ensures y.Link(d) == Root(Child(s, d)) && Shape(y.Link(d), Child(s, d)) && Sized(sizes, Child(s, d))
    ensures Child(s, d).Node? ==> y.Link(d) in Nodes(s)
  {
    Unpack(y, s, d);
    ShapeSimple(y, s);
    SizedChildren(sizes, s, d);
    SizeOfIs(sizes, Child(s, d));
  }

  /** The size stores of kavl_rotate1 at y, whose child in direction d goes up. */
  method RotateOnce<T>(sizes: Sizes<T>, y: AvlNode<T>, d: bool, ghost bx: int, ghost b: int, ghost s: HeapTree<T>) returns (after: Sizes<T>)
    requires Shape(y, s) && Sized(sizes, s) && s.Node? && Child(s, d).Node?
    ensures Sized(after, Single(s, d, bx, b)) && Count(Single(s, d, bx, b)) == Count(s) && Elsewhere(sizes, after, Nodes(s))
  {
    SizesAt(sizes, y, s, d);
    ShapeSimple(y, s);
    hide Shape, Simple, Sized, Count, Nodes, Single, ChildSize;
    var x := y.Link(d);
    SizesAt(sizes, x, Child(s, d), !d);
    after := sizes[y := sizes[y] - (sizes[x] - ChildSize(sizes, x, !d))][x := sizes[y]];
    SizedSingle(sizes, s, d, bx, b, after);
  }

  /** The size stores of kavl_rotate2 at y, whose inner grandchild on side d goes up. */
  method RotateTwice<T>(sizes: Sizes<T>, y: AvlNode<T>, d: bool, ghost s: HeapTree<T>) returns (after: Sizes<T>)
    requires Shape(y, s) && Sized(sizes, s) && s.Node? && Child(s, d).Node? && Child(Child(s, d), !d).Node?
    ensures Sized(after, Double(s, d)) && Count(Double(s, d)) == Count(s) && Elsewhere(sizes, after, Nodes(s))
  {
    hide Shape, Simple, Sized, Count, Nodes, Double, ChildSize;
    SizesAt(sizes, y, s, d);
    ShapeSimple(y, s);
    var x := y.Link(d);
    SizesAt(sizes, x, Child(s, d), !d);
    InnerNodes(s, d);
    var w := x.Link(!d);
    SizesAt(sizes, w, Child(Child(s, d), !d), !d);
    var c := ChildSize(sizes, w, !d);
    after := sizes[w := sizes[y]][y := sizes[y] - (sizes[x] - c)][x := sizes[x] - (c + 1)];
    SizedDouble(sizes, s, d, after);
  }

  lemma InnerNodes<N, T>(s: Tree<N, T>, d: bool)
    requires s.Node? && Child(s, d).Node?
    ensures Nodes(Child(Child(s, d), !d)) <= Nodes(Child(s, d)) <= Nodes(s)
  {
  }

  /** The size stores of the rotation at y, whose heavy child is in direction d. */
  method RotateSizes<T>(sizes: Sizes<T>, y: AvlNode<T>, d: bool, ghost s: HeapTree<T>) returns (after: Sizes<T>)
    requires Shape(y, s) && Sized(sizes, s) && s.Node? && Child(s, d).Node?
    requires Child(s, d).balance == -Sign(d) ==> Child(Child(s, d), !d).Node?
    ensures Sized(after, Rebalance(s, d)) && Count(Rebalance(s, d)) == Count(s) && Elsewhere(sizes, after, Nodes(s))
  {
    Unpack(y, s, d);
    Unpack(y.Link(d), Child(s, d), d);
    hide Shape, Sized, Count, Nodes, Single, Double;
    if y.Link(d).balance == -Sign(d) {
      after := RotateTwice(sizes, y, d, s);
    } else {
      ghost var level := Child(s, d).balance == 0;
      after := RotateOnce(sizes, y, d, if level then -Sign(d) else 0, if level then Sign(d) else 0, s);
    }
  }

  /** Adds c to the sizes of the nodes pa[from..to]. */
  method ShiftSizes<T>(sizes: Sizes<T>, pa: array<AvlNode?<T>>, from: nat, to: nat, c: int) returns (after: Sizes<T>)
    requires from <= to <= pa.Length
    requires forall i :: from <= i < to ==> pa[i] != null && pa[i] in sizes && sizes[pa[i]] + c >= 0
    requires forall i, j :: from <= i < j < to ==> pa[i] != pa[j]
    ensures forall i :: from <= i < to ==> pa[i] in after && after[pa[i]] == sizes[pa[i]] + c
    ensures forall n :: n in sizes && (forall i :: from <= i < to ==> pa[i] != n) ==> n in after && after[n] == sizes[n]
  {
    after := sizes;
    for i := from to to
      invariant forall j :: from <= j < i ==> pa[j] in after && after[pa[j]] == sizes[pa[j]] + c
      invariant forall j :: i <= j < to ==> pa[j] in after && after[pa[j]] == sizes[pa[j]]
      invariant forall n :: n in sizes && (forall j :: from <= j < to ==> pa[j] != n) ==> n in after && after[n] == sizes[n]
    {
      after := after[pa[i] := after[pa[i]] + c];
    }
  }

  // ----- sizes along a path

  lemma {:induction false} AncestorsDiffer<N, T>(t: Tree<N, T>, w: seq<bool>, i: nat, j: nat)
    requires IsPath(t, w) && Simple(t) && i < j < |w|
    ensures Ancestors(t, w)[i] != Ancestors(t, w)[j]
    decreases |w|
  {
    var c := Child(t, w[0]);
    if i == 0 {
      AncestorIn(c, w[1..], j - 1);
    } else {
      AncestorsDiffer(c, w[1..], i - 1, j - 1);
    }
  }

  lemma {:induction false} AncestorIn<N, T>(t: Tree<N, T>, w: seq<bool>, i: nat)
    requires IsPath(t, w) && i < |w|
    ensures Ancestors(t, w)[i] in PathNodes(t, w) && PathNodes(t, w) <= Nodes(t)
    decreases |w|
  {
    PathNodesIn(t, w);
    if i > 0 { AncestorIn(Child(t, w[0]), w[1..], i - 1); }
  }

  lemma {:induction false} AncestorOf<N, T>(t: Tree<N, T>, w: seq<bool>, n: N)
    requires IsPath(t, w) && n in PathNodes(t, w)
    ensures exists i :: 0 <= i < |w| && Ancestors(t, w)[i] == n
    decreases |w|
  {
    if n == t.node {
      assert Ancestors(t, w)[0] == n;
    } else {
      AncestorOf(Child(t, w[0]), w[1..], n);
      var i :| 0 <= i < |w| - 1 && Ancestors(Child(t, w[0]), w[1..])[i] == n;
      assert Ancestors(t, w)[i + 1] == n;
    }
  }

  lemma {:induction false} AncestorSized<N, T>(sizes: map<N, nat>, t: Tree<N, T>, w: seq<bool>, i: nat)
    requires IsPath(t, w) && Sized(sizes, t) && i < |w|
    ensures var n := Ancestors(t, w)[i]; n in sizes && sizes[n] >= 1
    decreases |w|
  {
    if i > 0 { AncestorSized(sizes, Child(t, w[0]), w[1..], i - 1); }
  }

  /** Adds c to the sizes along path w of t, which are on the stack from k0 on. */
  method ShiftPath<T>(sizes: Sizes<T>, pa: array<AvlNode?<T>>, k0: nat, k: nat, c: int, ghost t: HeapTree<T>, ghost w: seq<bool>)
      returns (after: Sizes<T>)
    requires IsPath(t, w) && Sized(sizes, t) && Simple(t) && c >= -1
    requires k0 <= k <= pa.Length && pa[k0..k] == Ancestors(t, w)
    ensures Shifted(sizes, after, Ancestors(t, w), c) && Elsewhere(sizes, after, PathNodes(t, w))
  {
    ghost var path := Ancestors(t, w);
    forall i | k0 <= i < k
      ensures pa[i] == path[i - k0] && pa[i] in sizes && sizes[pa[i]] >= 1
    {
      assert pa[k0..k][i - k0] == pa[i];
      AncestorSized(sizes, t, w, i - k0);
    }
    forall i, j | k0 <= i < j < k
      ensures pa[i] != pa[j]
    {
      AncestorsDiffer(t, w, i - k0, j - k0);
    }
    after := ShiftSizes(sizes, pa, k0, k, c);
    forall n | n in sizes && n !in PathNodes(t, w)
      ensures n in after && after[n] == sizes[n]
    {
      forall i | k0 <= i < k ensures pa[i] != n {
        AncestorIn(t, w, i - k0);
      }
    }
    forall i | 0 <= i < |path|
      ensures path[i] in sizes && path[i] in after && after[path[i]] == sizes[path[i]] + c
    {
      assert pa[k0 + i] == path[i];
    }
  }

  // ----- settling after an insertion

  /** Adjusting from y down, and rotating at y if need be, with the sizes. */
  method SettleSizes<T>(sizes: Sizes<T>, head: AvlNode<T>, z: AvlNode<T>, y: AvlNode<T>, n: AvlNode<T>, da: array<bool>,
                        ghost t: HeapTree<T>, ghost v: seq<bool>, ghost dz: bool, ghost u: seq<bool>, ghost s: HeapTree<T>)
      returns (after: Sizes<T>)
    requires IsPath(t, v + [dz] + u) && IsPath(t, v + [dz]) && IsPath(Sub(t, v + [dz]), u) && u != []
    requires IsPath(t, v) && Sub(t, v).Node? && z == Sub(t, v).node
    requires Sub(t, v + [dz]).Node? && y == Sub(t, v + [dz]).node
    requires Shape(head, Put(t, v + [dz] + u, s)) && s.Node? && s.node == n && n !in Nodes(t)
    requires |u| <= da.Length && da[..|u|] == u
    requires GrownWell(Sub(t, v + [dz]), Grow(Sub(t, v + [dz]), u, s), u[0])
    requires Sized(sizes, Put(Sub(t, v + [dz]), u, s))
    modifies Nodes(Put(t, v + [dz] + u, s))
    ensures var g := Grow(Sub(t, v + [dz]), u, s);
      && Shape(head, Put(t, v + [dz], Settled(g, u[0])))
      && Sized(after, Settled(g, u[0])) && Count(Settled(g, u[0])) == Count(Put(Sub(t, v + [dz]), u, s)) && Elsewhere(sizes, after, Nodes(g))
  {
    hide Shape, Nodes, Context, Around, Put, Sub, IsPath, Grow, Rebalance, Heavy, Sized, Count;
    ghost var t1 := Put(t, v + [dz] + u, s);
    ghost var ys := Sub(t, v + [dz]);
    ghost var g := Grow(ys, u, s);
    ghost var d := u[0];
    SettlePaths(t, v, dz, u, s);
    SubNodes(t, v + [dz]);
    InOrderGrow(ys, u, s);
    Focus(head, t1, v + [dz]);
    NodesAllocated(t1);
    AdjustAll(y, n, da, ys, u, s);
    SizedGrow(sizes, ys, u, s);
    Unpack(y, g, d);
    PutOver(t, v + [dz], u, s, Settled(g, d));
    after := sizes;
    if y.balance == 2 || y.balance == -2 {
      after := RotateSizes(sizes, y, y.balance == 2, g);
      RotateUnder(head, z, y, y.balance == 2, t1, v, dz, g);
    } else {
      Unfocus(head, t1, v + [dz], y, g);
    }
  }

  // ----- insertion as a whole

  /** The sizes once the new node is linked at the end of x: its own is 1, and those on the way are one more. */
  lemma SizedLinked<T>(a: Sizes<T>, b: Sizes<T>, t: HeapTree<T>, x: seq<bool>, n: AvlNode<T>, item: T)
    requires IsPath(t, x) && Sub(t, x).Leaf? && Sized(a, t) && Simple(t) && n !in Nodes(t)
    requires Shifted(a[n := 1], b, Ancestors(t, x), 1) && Elsewhere(a[n := 1], b, PathNodes(t, x))
    ensures Sized(b, Put(t, x, NewNode(n, item))) && Count(Put(t, x, NewNode(n, item))) == Count(t) + 1
  {
    var a1, s := a[n := 1], NewNode(n, item);
    SizedFrame(a, a1, t);
    PathNodesIn(t, x);
    NodesSplit(t, x, s);
    assert n !in PathNodes(t, x);
    CountLeaf(Sub(t, x), n, item);
    hide Count, Nodes, PathNodes, Put, Around;
    SizedPut(a1, b, t, x, s);
  }

  lemma CountLeaf<N, T>(leaf: Tree<N, T>, n: N, item: T)
    requires leaf.Leaf?
    ensures Count(leaf) == 0 && Count(NewNode(n, item)) == 1
  {
    assert InOrder(NewNode(n, item)) == [item];
  }

  /** The sizes after settling. */
  lemma SizedInserted<T>(a: Sizes<T>, b: Sizes<T>, t: HeapTree<T>, x: seq<bool>, m: nat, s: HeapTree<T>)
    requires IsPath(t, x) && m < |x| && IsPath(t, x[..m]) && IsPath(Sub(t, x[..m]), x[m..])
    requires Rotatable(Grown(t, x, m, s), x[m]) && Sized(a, Put(t, x, s)) && Simple(Put(t, x, s))
    requires var r := Settled(Grown(t, x, m, s), x[m]);
      Sized(b, r) && Count(r) == Count(Put(Sub(t, x[..m]), x[m..], s)) && Elsewhere(a, b, Nodes(Grown(t, x, m, s)))
    ensures Sized(b, Inserted(t, x, m, s))
  {
    var y, u := Sub(t, x[..m]), x[m..];
    var r, t1 := Settled(Grown(t, x, m, s), x[m]), Put(t, x, s);
    assert x == x[..m] + u;
    hide Sized, Simple, Count, Nodes, Settled, Grow, Around, Rotatable, Put, Sub, IsPath;
    PathSplit(t, x[..m], u);
    PutAgain(t, x[..m], Put(y, u, s), r);
    SimpleSub(t1, x[..m]);
    InOrderGrow(y, u, s);
    SizedReplace(a, b, t1, x[..m], r);
  }

  lemma SizedPart<T>(a: Sizes<T>, t: HeapTree<T>, x: seq<bool>, m: nat, s: HeapTree<T>)
    requires IsPath(t, x) && m <= |x| && Sized(a, Put(t, x, s))
    ensures IsPath(t, x[..m]) && IsPath(Sub(t, x[..m]), x[m..]) && Sized(a, Put(Sub(t, x[..m]), x[m..], s))
  {
    assert x == x[..m] + x[m..];
    PathSplit(t, x[..m], x[m..]);
    PutAgain(t, x[..m], Put(Sub(t, x[..m]), x[m..], s), s);
    SizedSub(a, Put(t, x, s), x[..m]);
  }

  /** The node at a path from the root, on the heap. */
  lemma NodeOnPath<T>(head: AvlNode<T>, sizes: Sizes<T>, whole: HeapTree<T>, x: seq<bool>, p: AvlNode<T>)
    requires Shape(head, whole) && whole.Node? && IsPath(whole.left, x) && p == Root(Sub(whole.left, x)) && Sized(sizes, whole.left)
    ensures var s := Sub(whole.left, x);
      && s.Node? && p == s.node && p in Nodes(whole) && p.data == s.data && p.balance == s.balance
      && forall d :: p.Link(d) == Root(Child(s, d)) && (p.Link(d) != null ==> p.Link(d) in sizes) && ChildSize(sizes, p, d) == Count(Child(s, d))
  {
    ThroughSentinel(whole, x);
    ShapeSub(head, whole, [false] + x);
    SizedSub(sizes, whole.left, x);
    SizesAt(sizes, p, Sub(whole.left, x), false);
    SizesAt(sizes, p, Sub(whole.left, x), true);
    Unpack(p, Sub(whole.left, x), false);
  }

  /** One step of counting: going right passes the left subtree and the node. */
  lemma CountStep<N, T>(t: Tree<N, T>, x: seq<bool>, d: bool)
    requires IsPath(t, x) && Sub(t, x).Node?
    ensures IsPath(t, x + [d])
    ensures |Before(t, x + [d])| == |Before(t, x)| + if d then Count(Sub(t, x).left) + 1 else 0
  {
    BeforeStep(t, x, d);
  }

  /** At an equal item: its rank. */
  lemma RankAt<N, T(!new)>(cmp: (T, T) -> int, t: Tree<N, T>, x: seq<bool>, item: T)
    requires Order(cmp) && Sorted(cmp, InOrder(t)) && IsPath(t, x) && Leads(cmp, t, x, item)
    requires Sub(t, x).Node? && cmp(item, Sub(t, x).data) == 0
    ensures Rank(cmp, InOrder(t), item) == |Before(t, x)| + Count(Sub(t, x).left) + 1
  {
    var s := Sub(t, x);
    InOrderSub(t, x);
    MiddleSorted(cmp, Before(t, x), InOrder(s), After(t, x));
    InOrderNode(s);
    hide InOrder, Before, After, Sub, Leads;
    EqualSides(cmp, InOrder(s.left), s.data, InOrder(s.right), item);
    RankFound(cmp, t, x, item);
  }

  lemma EqualSides<T(!new)>(cmp: (T, T) -> int, l: seq<T>, x: T, r: seq<T>, item: T)
    requires Order(cmp) && Sorted(cmp, l + [x] + r) && cmp(item, x) == 0
    ensures AllLess(cmp, l, item) && AllGreater(cmp, r, item)
  {
    var s := l + [x] + r;
    assert s[|l|] == x;
    forall i | 0 <= i < |l|
      ensures cmp(item, l[i]) > 0
    {
      assert cmp(s[i], s[|l|]) < 0;
    }
    forall i | 0 <= i < |r|
      ensures cmp(item, r[i]) < 0
    {
      assert cmp(s[|l|], s[|l| + 1 + i]) < 0;
    }
  }

  // ----- erasing

  /** The size stores when p, on top of s, is unlinked and its successor, which is at pa[k0], takes its place. */
  method SpliceSizes<T>(sizes: Sizes<T>, p: AvlNode<T>, pa: array<AvlNode?<T>>, k0: nat, k: nat, ghost s: HeapTree<T>) returns (after: Sizes<T>)
    requires s.Node? && s.node == p && s.right.Node? && Sized(sizes, s) && Simple(s) && k0 < k <= pa.Length
    requires pa[k0] == Sub(s.right, MinPath(s.right)).node && pa[k0 + 1..k] == Ancestors(s.right, MinPath(s.right))
    ensures Sized(after, Spliced(s)) && Count(Spliced(s)) == Count(s) - 1 && Elsewhere(sizes, after, Nodes(s))
  {
    ghost var z := MinPath(s.right);
    SizedChildren(sizes, s, true);
    SuccessorApart(s);
    hide Sized, Simple, Count, Nodes, MinPath, PathNodes, Ancestors, Sub, Spliced;
    after := ShiftPath(sizes, pa, k0 + 1, k, -1, s.right, z);
    after := after[pa[k0] := after[p] - 1];
    SizedSpliced(sizes, after, s);
  }

  /** The successor is not on the way to itself. */
  lemma SuccessorApart<N, T>(s: Tree<N, T>)
    requires s.Node? && s.right.Node? && Simple(s)
    ensures var z := MinPath(s.right); var n := Sub(s.right, z).node;
      && n in Nodes(s) && n !in PathNodes(s.right, z) && n != s.node && PathNodes(s.right, z) <= Nodes(s) && s.node !in PathNodes(s.right, z)
      && forall i :: 0 <= i < |z| ==> Ancestors(s.right, z)[i] != n
  {
    var z := MinPath(s.right);
    SimpleSub(s.right, z);
    PathNodesIn(s.right, z);
    forall i | 0 <= i < |z| ensures Ancestors(s.right, z)[i] in PathNodes(s.right, z) {
      AncestorIn(s.right, z, i);
    }
  }

  /** Below a path the sizes are exact when only those along it have changed. */
  lemma SizedBelow<T>(a: Sizes<T>, b: Sizes<T>, t: HeapTree<T>, x: seq<bool>)
    requires IsPath(t, x) && Sized(a, t) && Simple(t) && Elsewhere(a, b, PathNodes(t, x))
    ensures Sized(b, Sub(t, x)) && Simple(Sub(t, x))
  {
    SizedSub(a, t, x);
    SimpleSub(t, x);
    PathNodesIn(t, x);
    hide Sized, Simple, Nodes, PathNodes, Around;
    SizedFrame(a, b, Sub(t, x));
  }

  /** The sizes once the node at x is unlinked: one less along x, and those of what takes its place. */
  lemma SizedErased<T>(a: Sizes<T>, b: Sizes<T>, c: Sizes<T>, t: HeapTree<T>, x: seq<bool>, s: HeapTree<T>)
    requires IsPath(t, x) && Sized(a, t) && Simple(t) && Sized(c, s) && Count(s) == Count(Sub(t, x)) - 1
    requires Shifted(a, b, Ancestors(t, x), -1) && Elsewhere(a, b, PathNodes(t, x)) && Elsewhere(b, c, Nodes(Sub(t, x)))
    ensures Sized(c, Put(t, x, s))
  {
    SimpleSub(t, x);
    PathNodesIn(t, x);
    forall i | 0 <= i < |x| ensures Ancestors(t, x)[i] in PathNodes(t, x) {
      AncestorIn(t, x, i);
    }
    hide Sized, Simple, Nodes, PathNodes, Around, Ancestors, Count, Sub;
    assert Shifted(a, c, Ancestors(t, x), -1);
    SizedPut(a, c, t, x, s);
  }

  /** Rebalancing looks at the children only. */
  lemma RebalanceIgnores<N, T>(y: Tree<N, T>, d: bool, b: int)
    requires y.Node? && Child(y, d).Node? && (Child(y, d).balance == -Sign(d) ==> Child(Child(y, d), !d).Node?)
    ensures Rebalance(y.(balance := b), d) == Rebalance(y, d)
  {
  }

  /** The size stores of one pass of the repair loop, at the node y on the heap as s: those of its rotation, if
      one is due. */
  method RepairSizes<T>(sizes: Sizes<T>, y: AvlNode<T>, d: bool, ghost s: HeapTree<T>) returns (after: Sizes<T>)
    requires Shape(y, s) && s.Node? && Sized(sizes, s)
    requires var g := s.(balance := s.balance - Sign(d));
      && (g.balance == 0 || g.balance == -Sign(d) || g.balance == -2 * Sign(d))
      && (g.balance == -2 * Sign(d) ==> Heavy(g, !d) && Child(g, !d).Node?)
    ensures var r := Repaired(s.(balance := s.balance - Sign(d)), d);
      Sized(after, r) && Count(r) == Count(s) && Elsewhere(sizes, after, Nodes(s))
  {
    ghost var g := s.(balance := s.balance - Sign(d));
    Unpack(y, s, d);
    after := sizes;
    if y.balance - Sign(d) == -2 * Sign(d) {
      RebalanceIsAvl(g, !d);
      RebalanceIgnores(s, !d, g.balance);
      hide Shape, Nodes, Heavy, Rebalance, Sized, Count;
      after := RotateSizes(sizes, y, !d, s);
    }
  }

  /** The stack after unlinking, read from the sentinel: the way to the node, its successor, the way to that. */
  lemma StackParts<T>(pa: array<AvlNode?<T>>, da: array<bool>, k0: nat, k: nat, t: HeapTree<T>, w: seq<bool>, s: HeapTree<T>)
    requires IsPath(t, w) && Sub(t, w) == s && s.Node? && s.right.Node? && k0 == |w|
    requires Stacked(pa, da, k, Put(t, w, Spliced(s)), w + ShrunkAt(s))
    ensures k0 < k <= pa.Length && pa[k0] == Sub(s.right, MinPath(s.right)).node && pa[k0 + 1..k] == Ancestors(s.right, MinPath(s.right))
  {
    var z := MinPath(s.right);
    SplicedAncestors(s);
    UnlinkedStack(t, w, Spliced(s), ShrunkAt(s));
    hide Ancestors, Spliced, MinPath, IsPath, Put, Sub;
    StackTail(pa[..k], Ancestors(t, w), Sub(s.right, z).node, Ancestors(s.right, z));
    assert pa[k0 + 1..k] == pa[..k][k0 + 1..] && pa[k0] == pa[..k][k0];
  }

  lemma StackTail<N>(q: seq<N>, a: seq<N>, n: N, b: seq<N>)
    requires q == a + ([n] + b)
    ensures |q| > |a| && q[|a|] == n && q[|a| + 1..] == b
  {
  }

  /** Only steps to the left. */
  ghost predicate Leftmost<N, T>(t: Tree<N, T>, x: seq<bool>) {
    IsPath(t, x) && forall i :: 0 <= i < |x| ==> !x[i]
  }

  lemma LeftmostStart<N, T>(t: Tree<N, T>)
    ensures Leftmost(t, []) && Sub(t, []) == t
  {
  }

  lemma LeftmostStep<N, T>(whole: Tree<N, T>, x: seq<bool>)
    requires whole.Node? && Leftmost(whole.left, x) && Sub(whole.left, x).Node? && Avl(whole.left)
    ensures Leftmost(whole.left, x + [false]) && Sub(whole.left, x + [false]) == Sub(whole.left, x).left
    ensures Above(whole, x + [false]) == Sub(whole.left, x) && |x| < Height(whole.left)
  {
    PathFits(whole.left, x);
    AboveStep(whole, x, false);
    BeforeStep(whole.left, x, false);
  }

  lemma {:induction false} LeftmostIs<N, T>(t: Tree<N, T>, x: seq<bool>)
    requires Leftmost(t, x) && Sub(t, x).Node? && Sub(t, x).left.Leaf?
    ensures Before(t, x) == [] && x == MinPath(t) && InOrder(Sub(t, x).left) == []
    decreases |x|
  {
    if x != [] {
      assert forall i :: 0 <= i < |x| - 1 ==> !x[1..][i];
      LeftmostIs(t.left, x[1..]);
    }
  }

  lemma LeftmostEnd<N, T>(whole: Tree<N, T>, x: seq<bool>)
    requires whole.Node? && Leftmost(whole.left, x) && x != [] && Sub(whole.left, x).Leaf? && Avl(whole.left)
    ensures var y := x[..|x| - 1];
      && x == y + [false] && [false] + x == ([false] + y) + [false] && Leftmost(whole.left, y)
      && IsPath(whole, [false] + y) && Sub(whole, [false] + y) == Sub(whole.left, y) == Above(whole, x)
      && Sub(whole.left, y).Node? && Sub(whole.left, y).left.Leaf?
      && Before(whole.left, y) == [] && |InOrder(Sub(whole.left, y).left)| == 0
  {
    var y := x[..|x| - 1];
    assert x == y + [x[|x| - 1]];
    PathSplit(whole.left, y, [false]);
    assert [false][1..] == [];
    LeftmostStep(whole, y);
    ThroughSentinel(whole, y);
    LeftmostIs(whole.left, y);
  }

  lemma FirstFits<N, T>(t: Tree<N, T>, y: seq<bool>)
    requires Avl(t) && IsPath(t, y) && Sub(t, y).Node? && Height(t) < 48
    ensures 1 + |y| + |ShrunkAt(Sub(t, y))| <= MAX_DEPTH
  {
    AvlSub(t, y);
    if Sub(t, y).right.Node? { MinPathFits(Sub(t, y).right); }
  }

  /** The size stores of a pass of the repair loop, for the tree below the sentinel. */
  method PassSizes<T>(head: AvlNode<T>, sizes: Sizes<T>, pa: array<AvlNode?<T>>, da: array<bool>, k: nat, ghost t: HeapTree<T>, ghost v: seq<bool>, ghost d: bool)
      returns (after: Sizes<T>)
    requires t.Node? && 0 < k && Stacked(pa, da, k + 1, t, [false] + (v + [d])) && Shape(head, t) && Sized(sizes, t.left)
    requires IsPath(t.left, v + [d]) && Shrunk(t.left, v + [d])
    ensures IsPath(t.left, v) && Sub(t.left, v).Node?
    ensures var g := Updated(t.left, v, d); (g.balance == -2 * Sign(d) ==> Heavy(g, !d)) && Sized(after, Put(t.left, v, Repaired(g, d)))
  {
    hide Shape, Stacked, Shrunk, IsPath, Sub, Put, Repaired, Ends, Sized, Simple, Count, Heavy, Nodes, Around;
    RepairReady(t, v, d);
    ghost var s := Sub(t.left, v);
    StackTop(pa, da, k, t, [false] + v, d);
    ThroughSentinel(t, v);
    ShapeSub(head, t, [false] + v);
    SizedSub(sizes, t.left, v);
    TopSimple(head, t);
    SimpleSub(t.left, v);
    after := RepairSizes(sizes, pa[k], da[k], s);
    SizedReplace(sizes, after, t.left, v, Repaired(Updated(t.left, v, d), d));
  }

  lemma TopSimple<T>(head: AvlNode<T>, t: HeapTree<T>)
    requires Shape(head, t) && t.Node?
    ensures Simple(t.left)
  {
    ShapeSimple(head, t);
  }

  /** What is known of the node at x before it is unlinked. */
  lemma TopLinks<T>(head: AvlNode<T>, whole: HeapTree<T>, x: seq<bool>, p: AvlNode<T>)
    requires Shape(head, whole) && whole.Node? && IsPath(whole.left, x) && Sub(whole.left, x).Node? && p == Sub(whole.left, x).node
    ensures (p.link1 != null <==> Sub(whole.left, x).right.Node?) && Simple(whole.left)
  {
    ThroughSentinel(whole, x);
    ShapeSub(head, whole, [false] + x);
    ShapeRoot(p.link1, Sub(whole.left, x).right);
    ShapeSimple(head, whole);
  }

  /** The stack without the sentinel is the path from the root. */
  lemma StackOfPath<T>(pa: array<AvlNode?<T>>, da: array<bool>, k: nat, whole: HeapTree<T>, x: seq<bool>)
    requires whole.Node? && IsPath(whole.left, x) && Stacked(pa, da, k, whole, [false] + x)
    ensures 1 <= k <= pa.Length && pa[1..k] == Ancestors(whole.left, x)
  {
    assert ([false] + x)[1..] == x;
    assert pa[1..k] == pa[..k][1..];
  }

  lemma SplicedLeft<T>(sizes: Sizes<T>, s: HeapTree<T>)
    requires s.Node? && s.right.Leaf? && Sized(sizes, s)
    ensures Sized(sizes, Spliced(s)) && Count(Spliced(s)) == Count(s) - 1
  {
    CountNode(s, true);
    assert InOrder(s.right) == [];
  }

  /** A node that is not in the tree gets a size. */
  lemma SizedNew<T>(sizes: Sizes<T>, whole: HeapTree<T>, n: AvlNode<T>)
    requires whole.Node? && Sized(sizes, whole.left) && n !in Nodes(whole) && Simple(whole)
    ensures Sized(sizes[n := 1], whole.left) && n !in Nodes(whole.left) && Simple(whole.left)
  {
    SizedFrame(sizes, sizes[n := 1], whole.left);
  }

  lemma SimplePut<T>(head: AvlNode<T>, whole: HeapTree<T>, x: seq<bool>, s: HeapTree<T>)
    requires whole.Node? && IsPath(whole.left, x) && IsPath(whole, [false] + x) && Shape(head, Put(whole, [false] + x, s))
    ensures Simple(Put(whole.left, x, s))
  {
    ThroughSentinel(whole, x);
    ShapeSimple(head, Put(whole, [false] + x, s));
  }

  lemma SizedAlone<T>(sizes: Sizes<T>, n: AvlNode<T>, item: T)
    requires n in sizes && sizes[n] == 1
    ensures Sized(sizes, NewNode(n, item))
  {
    var leaf: HeapTree<T> := Leaf;
    CountLeaf(leaf, n, item);
  }

  lemma LeafShape<T>(n: AvlNode<T>)
    requires n.link0 == null && n.link1 == null && n.balance == 0
    ensures Shape(n, NewNode(n, n.data))
  {
  }
}
