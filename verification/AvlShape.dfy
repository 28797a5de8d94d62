/** AVL nodes on the heap, and when the nodes reachable from a link form a given tree. A context is such a
    tree with a subtree missing; operations take a tree apart at a path, change the subtree, and put the
    result back. */
module AvlShape {
  import opened AvlTree

  class AvlNode<T> {
    var link0: AvlNode?<T>
    var link1: AvlNode?<T>
    /** avl_data; it is set when the node is made and never changed by the operations here. */
    const data: T
    var balance: int

    constructor (data: T)
      ensures link0 == null && link1 == null && this.data == data && balance == 0
    {
      link0, link1, this.data, balance := null, null, data, 0;
    }

    /** avl_link[dir]. */
    function Link(dir: bool): AvlNode?<T>
      reads this
    {
      if dir then link1 else link0
    }

    method SetLink(dir: bool, n: AvlNode?<T>)
      modifies this`link0, this`link1
      ensures Link(dir) == n && Link(!dir) == old(Link(!dir))
    {
      if dir { link1 := n; } else { link0 := n; }
    }
  }

  type HeapTree<T> = Tree<AvlNode<T>, T>

  /** The link p leads to tree t: the same nodes, no node twice, and the fields t says. */
  ghost predicate Shape<T>(p: AvlNode?<T>, t: HeapTree<T>)
    reads Nodes(t)
  {
    match t
    case Leaf => p == null
    case Node(l, n, x, b, r) =>
      && p == n && n !in Nodes(l) && n !in Nodes(r) && Nodes(l) !! Nodes(r)
      && n.data == x && n.balance == b
      && Shape(n.link0, l) && Shape(n.link1, r)
  }

  function Root<T>(t: HeapTree<T>): AvlNode?<T> {
    if t.Leaf? then null else t.node
  }

  lemma ShapeRoot<T>(p: AvlNode?<T>, t: HeapTree<T>)
    requires Shape(p, t)
    ensures p == Root(t) && (p == null <==> t.Leaf?) && (p != null ==> p in Nodes(t))
  {
  }

  lemma {:induction false} ShapeSub<T>(p: AvlNode?<T>, t: HeapTree<T>, w: seq<bool>)
    requires Shape(p, t) && IsPath(t, w)
    ensures Shape(Root(Sub(t, w)), Sub(t, w)) && Nodes(Sub(t, w)) <= Nodes(t)
    decreases |w|
  {
    if w != [] {
      ShapeSub(p.Link(w[0]), Child(t, w[0]), w[1..]);
    }
  }

  /** The nodes of t outside its subtree at w. */
  ghost function Around<N, T>(t: Tree<N, T>, w: seq<bool>): set<N>
    requires IsPath(t, w)
  {
    if w == [] then {} else {t.node} + Nodes(Child(t, !w[0])) + Around(Child(t, w[0]), w[1..])
  }

  /** The link p leads to tree t, except that where the subtree at w would hang there is the link q. */
  ghost predicate Context<T>(p: AvlNode?<T>, t: HeapTree<T>, w: seq<bool>, q: AvlNode?<T>)
    requires IsPath(t, w)
    reads Around(t, w)
    decreases |w|
  {
    if w == [] then p == q
    else
      var o := Child(t, !w[0]);
      && p == t.node && t.node.data == t.data && t.node.balance == t.balance
      && t.node !in Nodes(o) && Shape(t.node.Link(!w[0]), o)
      && t.node !in Around(Child(t, w[0]), w[1..]) && Nodes(o) !! Around(Child(t, w[0]), w[1..])
      && Context(t.node.Link(w[0]), Child(t, w[0]), w[1..], q)
  }

  lemma {:induction false} NodesSplit<N, T>(t: Tree<N, T>, w: seq<bool>, s: Tree<N, T>)
    requires IsPath(t, w)
    ensures Nodes(t) == Around(t, w) + Nodes(Sub(t, w))
    ensures IsPath(Put(t, w, s), w) && Around(Put(t, w, s), w) == Around(t, w)
    ensures Nodes(Put(t, w, s)) == Around(t, w) + Nodes(s)
    decreases |w|
  {
    if w != [] { NodesSplit(Child(t, w[0]), w[1..], s); }
  }

  /** Taking a tree apart at w. */
  lemma {:induction false} Focus<T>(p: AvlNode?<T>, t: HeapTree<T>, w: seq<bool>)
    requires Shape(p, t) && IsPath(t, w)
    ensures Context(p, t, w, Root(Sub(t, w))) && Shape(Root(Sub(t, w)), Sub(t, w))
    ensures Around(t, w) !! Nodes(Sub(t, w)) && Nodes(t) == Around(t, w) + Nodes(Sub(t, w))
    decreases |w|
  {
    ShapeRoot(p, t);
    if w != [] {
      NodesSplit(Child(t, w[0]), w[1..], Leaf);
      Focus(t.node.Link(w[0]), Child(t, w[0]), w[1..]);
    }
  }

  /** Putting another tree where the subtree at w was. */
  lemma {:induction false} Unfocus<T>(p: AvlNode?<T>, t: HeapTree<T>, w: seq<bool>, q: AvlNode?<T>, s: HeapTree<T>)
    requires IsPath(t, w) && Context(p, t, w, q) && Shape(q, s) && Around(t, w) !! Nodes(s)
    ensures Shape(p, Put(t, w, s)) && Nodes(Put(t, w, s)) == Around(t, w) + Nodes(s)
    decreases |w|
  {
    if w != [] {
      NodesSplit(Child(t, w[0]), w[1..], s);
      Unfocus(t.node.Link(w[0]), Child(t, w[0]), w[1..], q, s);
    }
  }

  /** Everything a node's shape says about the node and its two subtrees, seen from direction d. */
  lemma Unpack<T>(p: AvlNode<T>, s: HeapTree<T>, d: bool)
    requires Shape(p, s)
    ensures s.Node? && s.node == p && p.data == s.data && p.balance == s.balance
    ensures Shape(p.Link(d), Child(s, d)) && Shape(p.Link(!d), Child(s, !d))
    ensures p !in Nodes(Child(s, d)) && p !in Nodes(Child(s, !d)) && Nodes(Child(s, d)) !! Nodes(Child(s, !d))
    ensures Nodes(s) == {p} + Nodes(Child(s, d)) + Nodes(Child(s, !d))
    ensures p.Link(d) == Root(Child(s, d)) && p.Link(!d) == Root(Child(s, !d))
    ensures Child(s, d).Node? ==> p.Link(d) in Nodes(Child(s, d))
  {
    ShapeRoot(p.Link(d), Child(s, d));
    ShapeRoot(p.Link(!d), Child(s, !d));
  }

  lemma Pack<T>(p: AvlNode<T>, d: bool, near: HeapTree<T>, far: HeapTree<T>)
    requires Shape(p.Link(d), near) && Shape(p.Link(!d), far)
    requires p !in Nodes(near) && p !in Nodes(far) && Nodes(near) !! Nodes(far)
    ensures Shape(p, Join(d, near, p, p.data, p.balance, far))
    ensures Nodes(Join(d, near, p, p.data, p.balance, far)) == {p} + Nodes(near) + Nodes(far)
  {
  }

  /** A tree that exists names only nodes that exist; calls of methods that modify other nodes leave
      those alone. */
  lemma {:induction false} NodesAllocated<T>(t: HeapTree<T>)
    ensures forall n :: n in Nodes(t) ==> allocated(n)
  {
    if t.Node? {
      NodesAllocated(t.left);
      NodesAllocated(t.right);
    }
  }

  // ----- rotations in place

  /** x, the child of y in direction d, takes its place. */
  method SingleRotation<T>(y: AvlNode<T>, d: bool, bx: int, b: int, ghost s: HeapTree<T>) returns (x: AvlNode<T>)
    requires Shape(y, s) && s.Node? && Child(s, d).Node?
    modifies Nodes(s)
    ensures Shape(x, Single(s, d, bx, b))
  {
    NodesAllocated(s);
    hide Shape, Nodes;
    ghost var sx := Child(s, d);
    ghost var inner, outer, far := Child(sx, !d), Child(sx, d), Child(s, !d);
    Unpack(y, s, d);
    x := y.Link(d);
    Unpack(x, sx, d);
    y.SetLink(d, x.Link(!d));
    x.SetLink(!d, y);
    x.balance := bx;
    y.balance := b;
    Pack(y, d, inner, far);
    Pack(x, d, outer, Join(d, inner, y, y.data, y.balance, far));
  }

  /** The link changes of a double rotation. */
  method Relink<T>(y: AvlNode<T>, d: bool, ghost s: HeapTree<T>) returns (x: AvlNode<T>, w: AvlNode<T>)
    requires Shape(y, s) && s.Node? && Child(s, d).Node? && Child(Child(s, d), !d).Node?
    modifies Nodes(s)
    ensures var sx, sw := Child(s, d), Child(Child(s, d), !d);
      && x == sx.node && w == sw.node
      && var r := Join(d, Join(d, Child(sx, d), x, sx.data, sx.balance, Child(sw, d)), w, sw.data, sw.balance,
                          Join(d, Child(sw, !d), y, s.data, s.balance, Child(s, !d)));
         Shape(w, r) && Nodes(r) == Nodes(s)
  {
    NodesAllocated(s);
    hide Shape, Nodes;
    ghost var sx := Child(s, d);
    ghost var sw := Child(sx, !d);
    ghost var outer, near, mid, far := Child(sx, d), Child(sw, d), Child(sw, !d), Child(s, !d);
    Unpack(y, s, d);
    x := y.Link(d);
    Unpack(x, sx, d);
    w := x.Link(!d);
    Unpack(w, sw, d);
    x.SetLink(!d, w.Link(d));
    w.SetLink(d, x);
    y.SetLink(d, w.Link(!d));
    w.SetLink(!d, y);
    Pack(x, d, outer, near);
    Pack(y, d, mid, far);
    Pack(w, d, Join(d, outer, x, x.data, x.balance, near), Join(d, mid, y, y.data, y.balance, far));
  }

  /** Setting a node's balance factor. */
  method SetBalance<T>(p: AvlNode<T>, b: int, ghost s: HeapTree<T>)
    requires Shape(p, s)
    modifies p`balance
    ensures Shape(p, s.(balance := b))
  {
    Unpack(p, s, false);
    hide Shape, Nodes;
    p.balance := b;
    Pack(p, false, s.left, s.right);
  }

  /** Setting the balance factors of a node and its two children. */
  method SetBalances<T>(w: AvlNode<T>, d: bool, bNear: int, bFar: int, b: int, ghost s: HeapTree<T>)
    requires Shape(w, s) && s.Node? && Child(s, d).Node? && Child(s, !d).Node?
    modifies Nodes(s)
    ensures Shape(w, Join(d, Child(s, d).(balance := bNear), w, s.data, b, Child(s, !d).(balance := bFar)))
  {
    NodesAllocated(s);
    hide Shape, Nodes;
    ghost var lo, hi := Child(s, d), Child(s, !d);
    Unpack(w, s, d);
    var x, y := w.Link(d), w.Link(!d);
    SameNodes(lo, bNear);
    SameNodes(hi, bFar);
    UnpackRoot(x, lo);
    UnpackRoot(y, hi);
    SetBalance(x, bNear, lo);
    SetBalance(y, bFar, hi);
    w.balance := b;
    Pack(w, d, lo.(balance := bNear), hi.(balance := bFar));
  }

  lemma SameNodes<N, T>(t: Tree<N, T>, b: int)
    requires t.Node?
    ensures Nodes(t.(balance := b)) == Nodes(t)
  {
  }

  lemma UnpackRoot<T>(p: AvlNode<T>, s: HeapTree<T>)
    requires Shape(p, s)
    ensures p in Nodes(s)
  {
  }

  /** w, the inner grandchild of y, takes its place. */
  method DoubleRotation<T>(y: AvlNode<T>, d: bool, ghost s: HeapTree<T>) returns (w: AvlNode<T>)
    requires Shape(y, s) && s.Node? && Child(s, d).Node? && Child(Child(s, d), !d).Node?
    modifies Nodes(s)
    ensures Shape(w, Double(s, d))
  {
    NodesAllocated(s);
    ghost var sx := Child(s, d);
    ghost var sw := Child(sx, !d);
    var x;
    hide Shape, Nodes;
    x, w := Relink(y, d, s);
    ghost var lo := Join(d, Child(sx, d), x, sx.data, sx.balance, Child(sw, d));
    ghost var hi := Join(d, Child(sw, !d), y, s.data, s.balance, Child(s, !d));
    Unpack(w, Join(d, lo, w, sw.data, sw.balance, hi), d);
    var bx, b := 0, 0;
    if w.balance == -Sign(d) {
      bx := Sign(d);
    } else if w.balance != 0 {
      b := -Sign(d);
    }
    SetBalances(w, d, bx, b, 0, Join(d, lo, w, sw.data, sw.balance, hi));
  }

  // ----- changing a tree below one of its nodes

  /** What a context says about the node above the hole. */
  lemma {:induction false} ContextAbove<T>(p: AvlNode?<T>, t: HeapTree<T>, v: seq<bool>, d: bool, r: AvlNode?<T>)
    requires IsPath(t, v + [d]) && Context(p, t, v + [d], r)
    ensures IsPath(t, v) && Sub(t, v).Node?
    ensures var s := Sub(t, v); var o := Child(s, !d);
      && Context(p, t, v, s.node)
      && s.node.Link(d) == r && s.node.data == s.data && s.node.balance == s.balance && Shape(s.node.Link(!d), o)
      && s.node !in Nodes(o) && s.node !in Around(t, v) && Nodes(o) !! Around(t, v)
      && Around(t, v + [d]) == Around(t, v) + {s.node} + Nodes(o)
    decreases |v|
  {
    if v == [] {
      assert v + [d] == [d] && [d][1..] == [];
    } else {
      assert (v + [d])[1..] == v[1..] + [d];
      ContextAbove(t.node.Link(v[0]), Child(t, v[0]), v[1..], d, r);
    }
  }

  /** Links c, which leads to s, under q in direction d. */
  method Attach<T>(p: AvlNode<T>, ghost t: HeapTree<T>, ghost v: seq<bool>, q: AvlNode<T>, d: bool, c: AvlNode?<T>, ghost s: HeapTree<T>)
    requires IsPath(t, v + [d]) && Context(p, t, v + [d], q.Link(d))
    requires IsPath(t, v) && Sub(t, v).Node? && Sub(t, v).node == q
    requires Shape(c, s) && Nodes(s) !! Around(t, v + [d])
    modifies q
    ensures Shape(p, Put(t, v + [d], s))
  {
    NodesAllocated(t);
    NodesAllocated(s);
    ContextAbove(p, t, v, d, q.Link(d));
    ghost var o := Child(Sub(t, v), !d);
    NodesSplit(t, v, Leaf);
    PathSplit(t, v, [d]);
    hide Shape, Context, Nodes;
    q.SetLink(d, c);
    Pack(q, d, s, o);
    ghost var j := Join(d, s, q, q.data, q.balance, o);
    Unfocus(p, t, v, q, j);
    PutChild(Sub(t, v), d, s);
  }

  lemma PutChild<N, T>(t: Tree<N, T>, d: bool, s: Tree<N, T>)
    requires t.Node?
    ensures Put(t, [d], s) == Join(d, s, t.node, t.data, t.balance, Child(t, !d))
  {
    assert [d][1..] == [];
  }
}
