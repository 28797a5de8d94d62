/** Deletion in place: unlinking a node, and repairing the balance along the path stack. The stack holds the
    nodes passed from the sentinel down and the direction taken at each; every method says what the tree
    from the sentinel down becomes. */
module AvlSplice {
  import opened AvlTree
  import opened AvlShape
  import opened AvlInsert
  import opened AvlDelete

  lemma {:induction false} MinPathStep<N, T>(t: Tree<N, T>, n: nat)
    requires t.Node? && n <= |MinPath(t)|
    ensures var z := MinPath(t);
      && IsPath(t, z[..n]) && Sub(t, z[..n]).Node? && MinPath(Sub(t, z[..n])) == z[n..]
      && Sub(Sub(t, z[..n]), z[n..]) == Sub(t, z)
      && (Sub(t, z[..n]).left.Node? <==> n < |z|) && (n < |z| ==> !z[n])
    decreases n
  {
    var z := MinPath(t);
    if n == 0 {
      assert z[..0] == [] && z[0..] == z;
    } else {
      MinPathStep(t.left, n - 1);
      assert z[..n][1..] == z[1..][..n - 1] && z[1..][n - 1..] == z[n..];
    }
  }

  /** The walk to the successor, which has a parent in the right subtree, pushing what it passes. */
  method FindSuccessor<T>(r0: AvlNode<T>, pa: array<AvlNode?<T>>, da: array<bool>, k0: nat, ghost t: HeapTree<T>)
      returns (r: AvlNode<T>, s: AvlNode<T>, k: nat)
    requires Shape(r0, t) && t.Node? && t.left.Node?
    requires pa.Length == da.Length && k0 + |MinPath(t)| <= pa.Length
    modifies pa, da
    ensures var z := MinPath(t); var n := |z|;
      && n > 0 && k == k0 + n && s == Sub(t, z).node
      && IsPath(t, z[..n - 1]) && Sub(t, z[..n - 1]).Node? && r == Sub(t, z[..n - 1]).node && !z[n - 1]
      && pa[k0..k] == Ancestors(t, z) && da[k0..k] == z
    ensures pa[..k0] == old(pa[..k0]) && da[..k0] == old(da[..k0])
  {
    ghost var z := MinPath(t);
    MinPathStep(t, 0);
    assert z[..0] == [];
    NodesAllocated(t);
    r, k := r0, k0;
    while true
      invariant k0 <= k < k0 + |z| && Shape(r0, t)
      invariant IsPath(t, z[..k - k0]) && Sub(t, z[..k - k0]).Node? && r == Sub(t, z[..k - k0]).node
      invariant pa[k0..k] == Ancestors(t, z[..k - k0]) && da[k0..k] == z[..k - k0]
      invariant pa[..k0] == old(pa[..k0]) && da[..k0] == old(da[..k0])
      decreases k0 + |z| - k
    {
      SuccessorStep(r0, t, k - k0, r);
      da[k] := false;
      pa[k] := r;
      k := k + 1;
      s := r.link0;
      if s.link0 == null {
        assert z[..k - k0] == z;
        break;
      }
      r := s;
    }
  }

  lemma SuccessorStep<T>(r0: AvlNode<T>, t: HeapTree<T>, n: nat, r: AvlNode<T>)
    requires Shape(r0, t) && t.Node? && n < |MinPath(t)|
    requires IsPath(t, MinPath(t)[..n]) && Sub(t, MinPath(t)[..n]).Node? && r == Sub(t, MinPath(t)[..n]).node
    ensures var z := MinPath(t);
      && !z[n] && z[..n + 1] == z[..n] + [z[n]]
      && IsPath(t, z[..n + 1]) && Sub(t, z[..n + 1]).Node? && r.link0 == Sub(t, z[..n + 1]).node
      && (r.link0.link0 == null <==> n + 1 == |z|)
      && Ancestors(t, z[..n + 1]) == Ancestors(t, z[..n]) + [r]
  {
    var z := MinPath(t);
    assert z[..n + 1] == z[..n] + [z[n]];
    MinPathStep(t, n);
    MinPathStep(t, n + 1);
    AncestorsStep(t, z[..n], z[n]);
    PathSplit(t, z[..n], [z[n]]);
    assert [z[n]][1..] == [];
    ShapeSub(r0, t, z[..n]);
    ShapeSub(r0, t, z[..n + 1]);
  }

  /** The right child takes the place of p: it has no left child. */
  method LiftRight<T>(p: AvlNode<T>, r: AvlNode<T>, ghost t: HeapTree<T>)
    requires Shape(p, t) && t.Node? && t.right.Node? && t.right.left.Leaf? && r == t.right.node
    modifies r
    ensures Shape(r, Spliced(t)) && Nodes(Spliced(t)) == Nodes(t) - {p}
  {
    NodesAllocated(t);
    Unpack(p, t, false);
    Unpack(r, t.right, false);
    hide Shape, Nodes;
    r.link0 := p.link0;
    r.balance := p.balance;
    Pack(r, false, t.left, t.right.right);
  }

  /** Unlinks the least node s of a tree from its parent r. */
  method DetachMin<T>(r0: AvlNode<T>, r: AvlNode<T>, s: AvlNode<T>, ghost t: HeapTree<T>)
    requires Shape(r0, t) && t.Node? && s == Sub(t, MinPath(t)).node
    requires var z := MinPath(t); |z| > 0 && IsPath(t, z[..|z| - 1]) && Sub(t, z[..|z| - 1]).Node? && r == Sub(t, z[..|z| - 1]).node
    modifies r
    ensures Shape(r0, DropMin(t)) && r != s
    ensures s !in Nodes(DropMin(t)) && Nodes(DropMin(t)) + {s} == Nodes(t)
  {
    hide Shape, Context, Around;
    ghost var z, m := MinPath(t), Sub(t, MinPath(t));
    MinPathStep(t, |z| - 1);
    assert z == z[..|z| - 1] + [false];
    NodesAllocated(t);
    Focus(r0, t, z);
    Unpack(s, m, false);
    assert m.left.Leaf? && Nodes(m.left) == {};
    hide Nodes;
    ContextAbove(r0, t, z[..|z| - 1], false, s);
    NodesSplit(t, z, m.right);
    hide MinPath;
    Attach(r0, t, z[..|z| - 1], r, false, s.link1, m.right);
  }

  /** The successor s takes the place of p; r is its parent. */
  method LiftSuccessor<T>(p: AvlNode<T>, r: AvlNode<T>, s: AvlNode<T>, ghost t: HeapTree<T>)
    requires Shape(p, t) && t.Node? && t.right.Node? && t.right.left.Node?
    requires s == Sub(t.right, MinPath(t.right)).node
    requires var z := MinPath(t.right); |z| > 0 && IsPath(t.right, z[..|z| - 1]) && Sub(t.right, z[..|z| - 1]).Node? && r == Sub(t.right, z[..|z| - 1]).node
    modifies Nodes(t)
    ensures Shape(s, Spliced(t)) && Nodes(Spliced(t)) == Nodes(t) - {p}
  {
    hide Shape, Nodes, MinPath, DropMin, Sub;
    NodesAllocated(t);
    Unpack(p, t, false);
    SuccessorIn(p.link1, t.right, s, r);
    DetachMin(p.link1, r, s, t.right);
    s.link0 := p.link0;
    s.link1 := p.link1;
    s.balance := p.balance;
    Pack(s, false, t.left, DropMin(t.right));
  }

  lemma SuccessorIn<T>(r0: AvlNode<T>, t: HeapTree<T>, s: AvlNode<T>, r: AvlNode<T>)
    requires Shape(r0, t) && t.Node? && s == Sub(t, MinPath(t)).node
    requires var z := MinPath(t); |z| > 0 && IsPath(t, z[..|z| - 1]) && Sub(t, z[..|z| - 1]).Node? && r == Sub(t, z[..|z| - 1]).node
    ensures s in Nodes(t) && r in Nodes(t) && s.data == Sub(t, MinPath(t)).data
  {
    SubNodes(t, MinPath(t));
    SubNodes(t, MinPath(t)[..|MinPath(t)| - 1]);
    ShapeSub(r0, t, MinPath(t));
  }

  lemma SplicedAncestors<N, T>(p: Tree<N, T>)
    requires p.Node? && p.right.Node?
    ensures var z := MinPath(p.right);
      && ShrunkAt(p) == [true] + z && IsPath(Spliced(p), [true] + z)
      && Ancestors(Spliced(p), [true] + z) == [Sub(p.right, z).node] + Ancestors(p.right, z)
  {
    var z := MinPath(p.right);
    PutAgain(p.right, z, Sub(p.right, z).right, Leaf);
    AncestorsPut(p.right, z, Sub(p.right, z).right);
    assert ([true] + z)[1..] == z;
  }

  /** Puts the successor of p in its place, pushing the way from the right child r0 to it. */
  method PromoteSuccessor<T>(p: AvlNode<T>, r0: AvlNode<T>, pa: array<AvlNode?<T>>, da: array<bool>, k0: nat, ghost t: HeapTree<T>)
      returns (c: AvlNode<T>, k: nat)
    requires Shape(p, t) && t.Node? && t.right.Node? && r0 == p.link1
    requires pa.Length == da.Length && k0 + |MinPath(t.right)| <= pa.Length
    modifies pa, da, Nodes(t)
    ensures Shape(c, Spliced(t)) && Nodes(Spliced(t)) == Nodes(t) - {p}
    ensures c == Sub(t.right, MinPath(t.right)).node && k == k0 + |MinPath(t.right)|
    ensures pa[k0..k] == Ancestors(t.right, MinPath(t.right)) && da[k0..k] == MinPath(t.right)
    ensures pa[..k0] == old(pa[..k0]) && da[..k0] == old(da[..k0])
  {
    NodesAllocated(t);
    Unpack(p, t, true);
    Unpack(r0, t.right, false);
    if r0.link0 == null {
      hide Shape, Nodes;
      LiftRight(p, r0, t);
      return r0, k0;
    } else {
      hide Shape, Nodes, Ancestors, Spliced;
      var r;
      r, c, k := FindSuccessor(r0, pa, da, k0, t.right);
      LiftSuccessor(p, r, c, t);
    }
  }

  /** Fills in the stack entry below the ones just pushed. */
  method PushBelow<T>(pa: array<AvlNode?<T>>, da: array<bool>, k0: nat, ghost k: nat, c: AvlNode<T>, d: bool)
    requires pa.Length == da.Length && k0 < k <= pa.Length
    modifies pa, da
    ensures pa[k0..k] == [c] + old(pa[k0 + 1..k]) && da[k0..k] == [d] + old(da[k0 + 1..k])
    ensures pa[..k0] == old(pa[..k0]) && da[..k0] == old(da[..k0])
  {
    da[k0] := d;
    pa[k0] := c;
  }

  /** Takes p out of its subtree t, pushing the way from there to the subtree that shrinks; c is what takes
      the place of p. */
  method TakeOut<T>(p: AvlNode<T>, pa: array<AvlNode?<T>>, da: array<bool>, k0: nat, ghost t: HeapTree<T>)
      returns (c: AvlNode?<T>, k: nat)
    requires Shape(p, t) && t.Node? && pa.Length == da.Length && k0 + |ShrunkAt(t)| <= pa.Length
    modifies pa, da, Nodes(t)
    ensures Shape(c, Spliced(t)) && Nodes(Spliced(t)) == Nodes(t) - {p}
    ensures k == k0 + |ShrunkAt(t)| && IsPath(Spliced(t), ShrunkAt(t))
    ensures pa[k0..k] == Ancestors(Spliced(t), ShrunkAt(t)) && da[k0..k] == ShrunkAt(t)
    ensures pa[..k0] == old(pa[..k0]) && da[..k0] == old(da[..k0])
  {
    NodesAllocated(t);
    Unpack(p, t, true);
    if p.link1 == null {
      return p.link0, k0;
    }
    SplicedAncestors(t);
    hide Shape, Nodes, Ancestors, Spliced, MinPath, Sub, IsPath;
    c, k := PromoteSuccessor(p, p.link1, pa, da, k0 + 1, t);
    PushBelow(pa, da, k0, k, c, true);
  }

  /** The stack holds the nodes passed along the path w in t, and the steps taken. */
  ghost predicate Stacked<T>(pa: array<AvlNode?<T>>, da: array<bool>, k: nat, t: HeapTree<T>, w: seq<bool>)
    reads pa, da
  {
    && k == |w| && k <= pa.Length == da.Length
    && da[..k] == w && IsPath(t, w) && pa[..k] == Ancestors(t, w)
  }

  /** Links c, which leads to s, where the path w on the stack ends. */
  method LinkUp<T>(head: AvlNode<T>, pa: array<AvlNode?<T>>, da: array<bool>, k: nat, c: AvlNode?<T>,
                   ghost t: HeapTree<T>, ghost w: seq<bool>, ghost p: AvlNode?<T>, ghost s: HeapTree<T>)
    requires 0 < k && Stacked(pa, da, k, t, w) && Context(head, t, w, p)
    requires Shape(c, s) && Around(t, w) !! Nodes(s)
    modifies Around(t, w)
    ensures Shape(head, Put(t, w, s))
  {
    hide Shape, Nodes, Context, Around, Ancestors, IsPath, Put;
    assert w == w[..k - 1] + [w[k - 1]];
    ContextAbove(head, t, w[..k - 1], w[k - 1], p);
    AncestorsStep(t, w[..k - 1], w[k - 1]);
    assert pa[..k][k - 1] == pa[k - 1] && da[..k][k - 1] == da[k - 1];
    Attach(head, t, w[..k - 1], pa[k - 1], da[k - 1], c, s);
  }

  /** Unlinks p, the node at the end of the path on the stack. */
  method Unlink<T>(head: AvlNode<T>, p: AvlNode<T>, pa: array<AvlNode?<T>>, da: array<bool>, k0: nat,
                   ghost t: HeapTree<T>, ghost w: seq<bool>)
      returns (k: nat)
    requires 0 < k0 && Stacked(pa, da, k0, t, w) && Shape(head, t)
    requires Sub(t, w).Node? && p == Sub(t, w).node
    requires k0 + |ShrunkAt(Sub(t, w))| <= pa.Length
    modifies pa, da, Nodes(t)
    ensures var s := Spliced(Sub(t, w)); var t' := Put(t, w, s);
      && Shape(head, t') && Nodes(t') == Nodes(t) - {p}
      && Stacked(pa, da, k, t', w + ShrunkAt(Sub(t, w)))
  {
    ghost var x := Sub(t, w);
    ghost var s := Spliced(x);
    hide Shape, Nodes, Context, Around, Ancestors, IsPath, Put, Spliced, ShrunkAt, Sub;
    NodesAllocated(t);
    Focus(head, t, w);
    NodesSplit(t, w, s);
    UnpackRoot(p, x);
    var c;
    c, k := TakeOut(p, pa, da, k0, x);
    LinkUp(head, pa, da, k0, c, t, w, p, s);
    StackBoth(pa, da, k0, k, t, w, s, ShrunkAt(x));
  }

  lemma StackBoth<T>(pa: array<AvlNode?<T>>, da: array<bool>, k0: nat, k: nat, t: HeapTree<T>, w: seq<bool>, s: HeapTree<T>, u: seq<bool>)
    requires Stacked(pa, da, k0, t, w) && k == k0 + |u| <= pa.Length && IsPath(s, u)
    requires pa[k0..k] == Ancestors(s, u) && da[k0..k] == u
    ensures Stacked(pa, da, k, Put(t, w, s), w + u)
  {
    UnlinkedStack(t, w, s, u);
    Halves(da[..], k0, k);
    Halves(pa[..], k0, k);
  }

  lemma Halves<A>(s: seq<A>, i: nat, j: nat)
    requires i <= j <= |s|
    ensures s[..i] + s[i..j] == s[..j]
  {
  }

  lemma UnlinkedStack<N, T>(t: Tree<N, T>, w: seq<bool>, s: Tree<N, T>, u: seq<bool>)
    requires IsPath(t, w) && IsPath(s, u)
    ensures IsPath(Put(t, w, s), w + u) && Ancestors(Put(t, w, s), w + u) == Ancestors(t, w) + Ancestors(s, u)
  {
    PutAgain(t, w, s, s);
    AncestorsPut(t, w, s);
    AncestorsSplit(Put(t, w, s), w, u);
  }

  // ----- repairing

  /** The rotation of a node too heavy in direction h; level tells whether its height is as before. */
  method RotateShort<T>(y: AvlNode<T>, h: bool, ghost g: HeapTree<T>) returns (w: AvlNode<T>, level: bool)
    requires Shape(y, g) && Heavy(g, h) && Child(g, h).Node?
    requires Child(g, h).balance == -Sign(h) ==> Child(Child(g, h), !h).Node?
    modifies Nodes(g)
    ensures Shape(w, Rebalance(g, h)) && (level <==> Child(g, h).balance == 0)
  {
    NodesAllocated(g);
    Unpack(y, g, h);
    Unpack(y.Link(h), Child(g, h), h);
    hide Shape, Nodes, Heavy, Single, Double;
    var b := y.Link(h).balance;
    level := b == 0;
    if b == -Sign(h) {
      w := DoubleRotation(y, h, g);
    } else if b == 0 {
      w := SingleRotation(y, h, -Sign(h), Sign(h), g);
    } else {
      w := SingleRotation(y, h, 0, 0, g);
    }
  }

  /** One pass of the repair loop, at the node y on top of the stack. */
  method RepairNode<T>(y: AvlNode<T>, d: bool, ghost s: HeapTree<T>) returns (w: AvlNode<T>, done: bool)
    requires Shape(y, s) && s.Node?
    requires var g := s.(balance := s.balance - Sign(d));
      && (g.balance == 0 || g.balance == -Sign(d) || g.balance == -2 * Sign(d))
      && (g.balance == -2 * Sign(d) ==> Heavy(g, !d) && Child(g, !d).Node?)
    modifies Nodes(s)
    ensures var g := s.(balance := s.balance - Sign(d)); Shape(w, Repaired(g, d)) && (done <==> Ends(g, d))
  {
    NodesAllocated(s);
    Unpack(y, s, d);
    ghost var g := s.(balance := s.balance - Sign(d));
    SameNodes(s, g.balance);
    SetBalance(y, y.balance - Sign(d), s);
    Unpack(y, g, d);
    w, done := y, y.balance == -Sign(d);
    if y.balance == -2 * Sign(d) {
      RebalanceIsAvl(g, !d);
      hide Shape, Nodes, Heavy, Rebalance;
      w, done := RotateShort(y, !d, g);
    }
  }

  /** One pass of the repair loop with its result linked in. */
  method RepairTop<T>(head: AvlNode<T>, pa: array<AvlNode?<T>>, da: array<bool>, k: nat, ghost t: HeapTree<T>, ghost v: seq<bool>, ghost d: bool)
      returns (done: bool)
    requires 0 < k && Stacked(pa, da, k + 1, t, v + [d]) && Shape(head, t) && IsPath(t, v) && Sub(t, v).Node?
    requires var g := Updated(t, v, d);
      && (g.balance == 0 || g.balance == -Sign(d) || g.balance == -2 * Sign(d))
      && (g.balance == -2 * Sign(d) ==> Heavy(g, !d) && Child(g, !d).Node?)
      && Nodes(Repaired(g, d)) == Nodes(Sub(t, v))
    modifies Nodes(t)
    ensures var g := Updated(t, v, d); var t' := Put(t, v, Repaired(g, d));
      && Shape(head, t') && (done <==> Ends(g, d)) && Stacked(pa, da, k, t', v)
  {
    ghost var s := Sub(t, v);
    StackTop(pa, da, k, t, v, d);
    hide Shape, Nodes, Context, Around, Ancestors, IsPath, Put, Sub, Repaired, Ends, Stacked, Heavy;
    NodesAllocated(t);
    Focus(head, t, v);
    var w;
    w, done := RepairNode(pa[k], da[k], s);
    if w == pa[k] {
      Unfocus(head, t, v, w, Repaired(Updated(t, v, d), d));
    } else {
      LinkUp(head, pa, da, k, w, t, v, s.node, Repaired(Updated(t, v, d), d));
    }
    StackPut(pa, da, k, t, v, Repaired(Updated(t, v, d), d));
  }

  lemma StackTop<T>(pa: array<AvlNode?<T>>, da: array<bool>, k: nat, t: HeapTree<T>, v: seq<bool>, d: bool)
    requires Stacked(pa, da, k + 1, t, v + [d]) && IsPath(t, v) && Sub(t, v).Node?
    ensures k == |v| && k < pa.Length == da.Length && Stacked(pa, da, k, t, v) && pa[k] == Sub(t, v).node && da[k] == d
  {
    AncestorsStep(t, v, d);
    assert da[..k] == da[..k + 1][..k] && pa[..k] == pa[..k + 1][..k];
    assert da[k] == da[..k + 1][k] && pa[k] == pa[..k + 1][k];
  }

  lemma StackPut<T>(pa: array<AvlNode?<T>>, da: array<bool>, k: nat, t: HeapTree<T>, v: seq<bool>, s: HeapTree<T>)
    requires Stacked(pa, da, k, t, v)
    ensures Stacked(pa, da, k, Put(t, v, s), v)
  {
    AncestorsPut(t, v, s);
  }

  /** What a pass of the repair loop needs and leaves, seen from the sentinel. */
  lemma RepairReady<N, T>(t: Tree<N, T>, v: seq<bool>, d: bool)
    requires t.Node? && IsPath(t.left, v + [d]) && Shrunk(t.left, v + [d])
    ensures IsPath(t.left, v) && Sub(t.left, v).Node? && IsPath(t, [false] + v)
    ensures Sub(t, [false] + v) == Sub(t.left, v) && Updated(t, [false] + v, d) == Updated(t.left, v, d)
    ensures [false] + (v + [d]) == ([false] + v) + [d]
    ensures var y := Updated(t.left, v, d);
      && (y.balance == 0 || y.balance == -Sign(d) || y.balance == -2 * Sign(d))
      && (y.balance == -2 * Sign(d) ==> Heavy(y, !d) && Child(y, !d).Node?)
      && Nodes(Repaired(y, d)) == Nodes(Sub(t.left, v))
    ensures var y := Updated(t.left, v, d); var r := Put(t.left, v, Repaired(y, d));
      && Put(t, [false] + v, Repaired(y, d)) == t.(left := r)
      && InOrder(r) == InOrder(t.left) && Nodes(r) == Nodes(t.left) && IsPath(r, v)
      && (if Ends(y, d) then Avl(r) else Shrunk(r, v))
  {
    hide Shrunk, Ends, Repaired, Heavy, InOrder;
    PathSplit(t.left, v, [d]);
    assert ([false] + v)[1..] == v;
    StepRepairs(t.left, v, d);
    NodesSplit(t.left, v, Repaired(Updated(t.left, v, d), d));
  }

  lemma RepairBegins<T>(pa: array<AvlNode?<T>>, da: array<bool>, k0: nat, t: HeapTree<T>, u: seq<bool>)
    requires Stacked(pa, da, k0, t, [false] + u)
    ensures k0 == |u| + 1
  {
  }

  /** When nothing is left on the stack the whole tree has shrunk, and is AVL. */
  lemma RepairEnds<N, T>(r: Tree<N, T>)
    requires Shrunk(r, [])
    ensures Avl(r)
  {
  }

  /** The repair loop: k0 entries are on the stack, the first of them the sentinel. */
  method RepairAll<T>(head: AvlNode<T>, pa: array<AvlNode?<T>>, da: array<bool>, k0: nat, ghost t: HeapTree<T>, ghost u: seq<bool>)
      returns (ghost r: HeapTree<T>)
    requires t.Node? && Stacked(pa, da, k0, t, [false] + u) && Shape(head, t)
    requires IsPath(t.left, u) && Shrunk(t.left, u)
    modifies Nodes(t)
    ensures Shape(head, t.(left := r)) && Avl(r) && InOrder(r) == InOrder(t.left) && Nodes(r) == Nodes(t.left)
  {
    hide Shape, Stacked, Shrunk, InOrder, IsPath, Put, Sub, Repaired, Ends;
    NodesAllocated(t);
    r := t.left;
    ghost var w := u;
    RepairBegins(pa, da, k0, t, u);
    var k := k0 - 1;
    while k > 0
      invariant k == |w| && IsPath(r, w) && Shrunk(r, w)
      invariant Stacked(pa, da, k + 1, t.(left := r), [false] + w) && Shape(head, t.(left := r))
      invariant InOrder(r) == InOrder(t.left) && Nodes(r) == Nodes(t.left)
    {
      ghost var v, d := w[..k - 1], w[k - 1];
      assert w == v + [d];
      RepairReady(t.(left := r), v, d);
      var done := RepairTop(head, pa, da, k, t.(left := r), [false] + v, d);
      r := Put(r, v, Repaired(Updated(r, v, d), d));
      if done {
        return;
      }
      w := v;
      k := k - 1;
    }
    assert w == [];
    RepairEnds(r);
  }
}
