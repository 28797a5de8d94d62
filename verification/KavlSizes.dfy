/** Subtree sizes and ranks: what sizes are exact, and what paths, rotations and splices do to them. */
module KavlSizes {
  import opened AvlTree
  import opened AvlOrder
  import opened AvlShape
  import opened AvlDelete

  // ----- ranks

  /** How many of s are less than item or equal to it. */
  function Rank<T>(cmp: (T, T) -> int, s: seq<T>, item: T): nat {
    if s == [] then 0 else (if cmp(item, s[0]) >= 0 then 1 else 0) + Rank(cmp, s[1..], item)
  }

  lemma {:induction false} RankIs<T>(cmp: (T, T) -> int, s: seq<T>, item: T, k: nat)
    requires k <= |s|
    requires forall i :: 0 <= i < k ==> cmp(item, s[i]) >= 0
    requires forall i :: k <= i < |s| ==> cmp(item, s[i]) < 0
    ensures Rank(cmp, s, item) == k
    decreases |s|
  {
    if s != [] {
      if k == 0 {
        RankIs(cmp, s[1..], item, 0);
      } else {
        RankIs(cmp, s[1..], item, k - 1);
      }
    }
  }

  /** Where a search ends in nothing, the rank is what lies before. */
  lemma RankMissing<N, T>(cmp: (T, T) -> int, t: Tree<N, T>, x: seq<bool>, item: T)
    requires IsPath(t, x) && Leads(cmp, t, x, item) && Sub(t, x).Leaf?
    ensures Rank(cmp, InOrder(t), item) == |Before(t, x)|
  {
    InOrderSub(t, x);
    assert InOrder(t) == Before(t, x) + After(t, x);
    RankIs(cmp, InOrder(t), item, |Before(t, x)|);
  }

  /** Where it ends at an equal item, the rank is what lies before that one, and the one itself. */
  lemma RankFound<N, T(!new)>(cmp: (T, T) -> int, t: Tree<N, T>, x: seq<bool>, item: T)
    requires IsPath(t, x) && Leads(cmp, t, x, item) && Sub(t, x).Node? && cmp(item, Sub(t, x).data) == 0
    requires AllLess(cmp, InOrder(Sub(t, x).left), item) && AllGreater(cmp, InOrder(Sub(t, x).right), item)
    ensures Rank(cmp, InOrder(t), item) == |Before(t, x)| + Count(Sub(t, x).left) + 1
  {
    var s := Sub(t, x);
    var a, l, r, b := Before(t, x), InOrder(s.left), InOrder(s.right), After(t, x);
    InOrderSub(t, x);
    hide InOrder, Before, After, Sub, Rank;
    assert InOrder(t) == a + l + [s.data] + r + b by {
      assert InOrder(s) == l + [s.data] + r by { InOrderNode(s); }
      assert a + (l + [s.data] + r) + b == a + l + [s.data] + r + b;
    }
    RankIs(cmp, a + l + [s.data] + r + b, item, |a| + |l| + 1);
  }

  lemma InOrderNode<N, T>(s: Tree<N, T>)
    requires s.Node?
    ensures InOrder(s) == InOrder(s.left) + [s.data] + InOrder(s.right)
  {
  }

  // ----- sizes

  function Count<N, T>(t: Tree<N, T>): nat {
    |InOrder(t)|
  }

  lemma CountNode<N, T>(t: Tree<N, T>, d: bool)
    requires t.Node?
    ensures Count(t) == Count(Child(t, d)) + 1 + Count(Child(t, !d))
  {
  }

  /** The size of every node of t is the number of nodes of its subtree. */
  ghost predicate Sized<N, T>(sizes: map<N, nat>, t: Tree<N, T>) {
    t.Node? ==> t.node in sizes && sizes[t.node] == Count(t) && Sized(sizes, t.left) && Sized(sizes, t.right)
  }

  /** No node occurs twice. */
  ghost predicate Simple<N, T>(t: Tree<N, T>) {
    t.Node? ==>
      && t.node !in Nodes(t.left) && t.node !in Nodes(t.right) && Nodes(t.left) !! Nodes(t.right)
      && Simple(t.left) && Simple(t.right)
  }

  lemma {:induction false} ShapeSimple<T>(p: AvlNode?<T>, t: HeapTree<T>)
    requires Shape(p, t)
    ensures Simple(t)
  {
    if t.Node? {
      ShapeSimple(t.node.link0, t.left);
      ShapeSimple(t.node.link1, t.right);
    }
  }

  /** The two maps agree on the nodes in s. */
  ghost predicate Agree<N>(a: map<N, nat>, b: map<N, nat>, s: set<N>) {
    forall n :: n in s && n in a ==> n in b && b[n] == a[n]
  }

  lemma {:induction false} SizedFrame<N, T>(a: map<N, nat>, b: map<N, nat>, t: Tree<N, T>)
    requires Sized(a, t) && Agree(a, b, Nodes(t))
    ensures Sized(b, t)
  {
    if t.Node? {
      SizedFrame(a, b, t.left);
      SizedFrame(a, b, t.right);
    }
  }

  lemma {:induction false} SizedSub<N, T>(sizes: map<N, nat>, t: Tree<N, T>, w: seq<bool>)
    requires IsPath(t, w) && Sized(sizes, t)
    ensures Sized(sizes, Sub(t, w))
    decreases |w|
  {
    if w != [] { SizedSub(sizes, Child(t, w[0]), w[1..]); }
  }

  lemma {:induction false} SimpleSub<N, T>(t: Tree<N, T>, w: seq<bool>)
    requires IsPath(t, w) && Simple(t)
    ensures Simple(Sub(t, w)) && Nodes(Sub(t, w)) <= Nodes(t) && Around(t, w) !! Nodes(Sub(t, w))
    decreases |w|
  {
    NodesSplit(t, w, Leaf);
    if w != [] {
      SimpleSub(Child(t, w[0]), w[1..]);
      NodesSplit(Child(t, w[0]), w[1..], Leaf);
    }
  }

  /** Every size along the path w is by c greater. */
  ghost predicate Shifted<N>(a: map<N, nat>, b: map<N, nat>, path: seq<N>, c: int) {
    forall i :: 0 <= i < |path| ==> path[i] in a && path[i] in b && b[path[i]] == a[path[i]] + c
  }

  ghost function PathNodes<N, T>(t: Tree<N, T>, w: seq<bool>): set<N>
    requires IsPath(t, w)
  {
    if w == [] then {} else {t.node} + PathNodes(Child(t, w[0]), w[1..])
  }

  /** Putting s, of another size, where the subtree at w was: it is enough to shift the sizes along the path. */
  lemma {:induction false} SizedPut<N, T>(a: map<N, nat>, b: map<N, nat>, t: Tree<N, T>, w: seq<bool>, s: Tree<N, T>)
    requires IsPath(t, w) && Sized(a, t) && Simple(t) && Sized(b, s)
    requires Shifted(a, b, Ancestors(t, w), Count(s) - Count(Sub(t, w)))
    requires Agree(a, b, Around(t, w) - PathNodes(t, w))
    ensures Sized(b, Put(t, w, s)) && Count(Put(t, w, s)) == Count(t) + Count(s) - Count(Sub(t, w))
    decreases |w|
  {
    if w != [] {
      var c, o := Child(t, w[0]), Child(t, !w[0]);
      assert Ancestors(t, w)[0] == t.node && Ancestors(t, w)[1..] == Ancestors(c, w[1..]);
      PathNodesIn(c, w[1..]);
      assert Nodes(o) <= Around(t, w) - PathNodes(t, w);
      SizedFrame(a, b, o);
      assert Shifted(a, b, Ancestors(c, w[1..]), Count(s) - Count(Sub(t, w))) by {
        forall i | 0 <= i < |w| - 1 ensures Ancestors(c, w[1..])[i] == Ancestors(t, w)[i + 1] {}
      }
      NodesSplit(c, w[1..], s);
      assert Around(c, w[1..]) - PathNodes(c, w[1..]) <= Around(t, w) - PathNodes(t, w);
      SizedPut(a, b, c, w[1..], s);
      CountNode(t, w[0]);
      CountNode(Put(t, w, s), w[0]);
    }
  }

  lemma {:induction false} PathNodesIn<N, T>(t: Tree<N, T>, w: seq<bool>)
    requires IsPath(t, w)
    ensures PathNodes(t, w) <= Nodes(t) && PathNodes(t, w) <= Around(t, w)
    decreases |w|
  {
    if w != [] { PathNodesIn(Child(t, w[0]), w[1..]); }
  }

  /** The same place and size, another subtree, and the sizes outside it as they were. */
  lemma {:induction false} SizedReplace<N, T>(a: map<N, nat>, b: map<N, nat>, t: Tree<N, T>, w: seq<bool>, s: Tree<N, T>)
    requires IsPath(t, w) && Sized(a, t) && Sized(b, s) && Count(s) == Count(Sub(t, w)) && Agree(a, b, Around(t, w))
    ensures Sized(b, Put(t, w, s)) && Count(Put(t, w, s)) == Count(t)
    decreases |w|
  {
    if w != [] {
      SizedFrame(a, b, Child(t, !w[0]));
      SizedReplace(a, b, Child(t, w[0]), w[1..], s);
      CountNode(t, w[0]);
      CountNode(Put(t, w, s), w[0]);
    }
  }

  /** Balance factors do not matter. */
  lemma {:induction false} SizedGrow<N, T>(sizes: map<N, nat>, t: Tree<N, T>, u: seq<bool>, s: Tree<N, T>)
    requires IsPath(t, u) && Sized(sizes, Put(t, u, s))
    ensures Sized(sizes, Grow(t, u, s)) && Count(Grow(t, u, s)) == Count(Put(t, u, s))
    decreases |u|
  {
    InOrderGrow(t, u, s);
    if u != [] { SizedGrow(sizes, Child(t, u[0]), u[1..], s); }
  }

  // ----- rotations

  /** kavl_size_child of the link that leads to t. */
  function SizeOf<N, T>(sizes: map<N, nat>, t: Tree<N, T>): nat
    requires t.Node? ==> t.node in sizes
  {
    if t.Leaf? then 0 else sizes[t.node]
  }

  lemma SizeOfIs<N, T>(sizes: map<N, nat>, t: Tree<N, T>)
    requires Sized(sizes, t)
    ensures (t.Node? ==> t.node in sizes) && SizeOf(sizes, t) == Count(t)
  {
  }

  lemma SizedJoin<N, T>(sizes: map<N, nat>, d: bool, near: Tree<N, T>, n: N, x: T, b: int, far: Tree<N, T>)
    requires Sized(sizes, near) && Sized(sizes, far) && n in sizes && sizes[n] == Count(near) + 1 + Count(far)
    ensures var j := Join(d, near, n, x, b, far); Sized(sizes, j) && Count(j) == Count(near) + 1 + Count(far)
  {
  }

  lemma SizedChildren<N, T>(sizes: map<N, nat>, y: Tree<N, T>, d: bool)
    requires y.Node? && Sized(sizes, y) && Simple(y)
    ensures y.node in sizes && sizes[y.node] == Count(y) == Count(Child(y, d)) + 1 + Count(Child(y, !d))
    ensures Sized(sizes, Child(y, d)) && Sized(sizes, Child(y, !d)) && Simple(Child(y, d)) && Simple(Child(y, !d))
    ensures Child(y, d).Node? ==> Child(y, d).node in Nodes(Child(y, d))
    ensures y.node !in Nodes(Child(y, d)) && y.node !in Nodes(Child(y, !d)) && Nodes(Child(y, d)) !! Nodes(Child(y, !d))
    ensures Nodes(y) == Nodes(Child(y, d)) + {y.node} + Nodes(Child(y, !d))
  {
  }

  /** The sizes that kavl_rotate1 stores are exact after the rotation. */
  lemma SizedSingle<N, T>(sizes: map<N, nat>, y: Tree<N, T>, d: bool, bx: int, b: int, after: map<N, nat>)
    requires y.Node? && Child(y, d).Node? && Sized(sizes, y) && Simple(y)
    requires y.node in sizes && Child(y, d).node in sizes
    requires var x := Child(y, d);
      var size: int := sizes[y.node] - (sizes[x.node] - Count(Child(x, !d)));
      size >= 0 && after == sizes[y.node := size][x.node := sizes[y.node]]
    ensures Sized(after, Single(y, d, bx, b)) && Count(Single(y, d, bx, b)) == Count(y)
  {
    var x := Child(y, d);
    var outer, inner, far := Child(x, d), Child(x, !d), Child(y, !d);
    SizedChildren(sizes, y, d);
    SizedChildren(sizes, x, d);
    hide Sized, Simple, Count, Nodes;
    SizedFrame(sizes, after, outer);
    SizedFrame(sizes, after, inner);
    SizedFrame(sizes, after, far);
    SizedJoin(after, d, inner, y.node, y.data, b, far);
    SizedJoin(after, d, outer, x.node, x.data, bx, Join(d, inner, y.node, y.data, b, far));
  }

  /** So are those of kavl_rotate2. */
  lemma SizedDouble<N, T>(sizes: map<N, nat>, y: Tree<N, T>, d: bool, after: map<N, nat>)
    requires y.Node? && Child(y, d).Node? && Child(Child(y, d), !d).Node? && Sized(sizes, y) && Simple(y)
    requires y.node in sizes && Child(y, d).node in sizes && Child(Child(y, d), !d).node in sizes
    requires var x := Child(y, d); var w := Child(x, !d); var c := Count(Child(w, !d));
      var sizeY: int, sizeX: int := sizes[y.node] - (sizes[x.node] - c), sizes[x.node] - (c + 1);
      sizeY >= 0 && sizeX >= 0 && after == sizes[w.node := sizes[y.node]][y.node := sizeY][x.node := sizeX]
    ensures Sized(after, Double(y, d)) && Count(Double(y, d)) == Count(y)
  {
    hide Sized, Simple, Count, Nodes;
    var x := Child(y, d);
    var w := Child(x, !d);
    var outer, near, mid, far := Child(x, d), Child(w, d), Child(w, !d), Child(y, !d);
    SizedChildren(sizes, y, d);
    SizedChildren(sizes, x, d);
    SizedChildren(sizes, w, d);
    SizedFrame(sizes, after, outer);
    SizedFrame(sizes, after, near);
    SizedFrame(sizes, after, mid);
    SizedFrame(sizes, after, far);
    var bx := if w.balance == -Sign(d) then Sign(d) else 0;
    var b := if w.balance == -Sign(d) || w.balance == 0 then 0 else -Sign(d);
    var lo, hi := Join(d, outer, x.node, x.data, bx, near), Join(d, mid, y.node, y.data, b, far);
    SizedJoin(after, d, outer, x.node, x.data, bx, near);
    SizedJoin(after, d, mid, y.node, y.data, b, far);
    SizedJoin(after, d, lo, w.node, w.data, 0, hi);
  }

  // ----- splicing

  /** The sizes that erasing stores when p is unlinked: one less along the way to the successor, which gets the
      size of p less one. */
  lemma SizedSpliced<N, T>(a: map<N, nat>, b: map<N, nat>, p: Tree<N, T>)
    requires p.Node? && p.right.Node? && Sized(a, p) && Simple(p) && p.node in a && a[p.node] >= 1
    requires var z := MinPath(p.right); var s := Sub(p.right, z).node;
      && Shifted(a, b, Ancestors(p.right, z), -1) && s in b && b[s] == a[p.node] - 1
      && Agree(a, b, Nodes(p) - PathNodes(p.right, z) - {s})
    ensures Sized(b, Spliced(p)) && Count(Spliced(p)) == Count(p) - 1
  {
    var z := MinPath(p.right);
    var s := Sub(p.right, z);
    SizedChildren(a, p, true);
    SizedSub(a, p.right, z);
    SimpleSub(p.right, z);
    SizedChildren(a, s, true);
    PathNodesIn(p.right, z);
    NodesSplit(p.right, z, Leaf);
    hide Sized, Simple, Nodes, Around, MinPath, PathNodes;
    SizedFrame(a, b, p.left);
    SizedFrame(a, b, s.right);
    assert Count(s) == 1 + Count(s.right);
    SizedPut(a, b, p.right, z, s.right);
    SizedJoin(b, true, DropMin(p.right), s.node, s.data, p.balance, p.left);
  }
}
