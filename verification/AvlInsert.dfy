/** Insertion: a new node at the end of a search path, and one rotation at the last unbalanced node at most. */
module AvlInsert {
  import opened AvlTree
  import opened AvlOrder
  import opened AvlShape

  function NewNode<N, T>(n: N, item: T): Tree<N, T> {
    Node(Leaf, n, item, 0, Leaf)
  }

  /** The new node in place, and the first j balance factors on the way to it adjusted. */
  function GrowSome<N, T>(t: Tree<N, T>, u: seq<bool>, s: Tree<N, T>, j: nat): Tree<N, T>
    requires IsPath(t, u) && j <= |u|
  {
    if j == 0 then Put(t, u, s)
    else
      var c := GrowSome(Child(t, u[0]), u[1..], s, j - 1);
      Join(u[0], c, t.node, t.data, t.balance + Sign(u[0]), Child(t, !u[0]))
  }

  lemma {:induction false} GrowSomeIsGrow<N, T>(t: Tree<N, T>, u: seq<bool>, s: Tree<N, T>)
    requires IsPath(t, u)
    ensures GrowSome(t, u, s, |u|) == Grow(t, u, s)
    decreases |u|
  {
    if u != [] { GrowSomeIsGrow(Child(t, u[0]), u[1..], s); }
  }

  /** After j adjustments the rest of the path is as it was, with the new node at its end. */
  lemma {:induction false} GrowSomeRest<N, T>(t: Tree<N, T>, u: seq<bool>, s: Tree<N, T>, j: nat)
    requires IsPath(t, u) && j <= |u|
    ensures IsPath(t, u[..j]) && IsPath(Sub(t, u[..j]), u[j..])
    ensures j < |u| ==> Sub(t, u[..j]).Node?
    ensures var g := GrowSome(t, u, s, j);
      IsPath(g, u[..j]) && Sub(g, u[..j]) == Put(Sub(t, u[..j]), u[j..], s)
    decreases |u|
  {
    if j == 0 {
      assert u[..0] == [] && u[0..] == u;
    } else {
      GrowSomeRest(Child(t, u[0]), u[1..], s, j - 1);
      assert u[..j][1..] == u[1..][..j - 1] && u[1..][j - 1..] == u[j..];
    }
  }

  lemma {:induction false} GrowSomeNodes<N, T>(t: Tree<N, T>, u: seq<bool>, s: Tree<N, T>, j: nat)
    requires IsPath(t, u) && j <= |u|
    ensures Nodes(GrowSome(t, u, s, j)) == Nodes(Put(t, u, s))
    decreases |u|
  {
    if j > 0 { GrowSomeNodes(Child(t, u[0]), u[1..], s, j - 1); }
  }

  /** Adjusting the next node on the path is the next stage. */
  lemma {:induction false} GrowSomeStep<N, T>(t: Tree<N, T>, u: seq<bool>, s: Tree<N, T>, j: nat)
    requires IsPath(t, u) && j < |u|
    ensures var g, g' := GrowSome(t, u, s, j), GrowSome(t, u, s, j + 1);
      && IsPath(g, u[..j]) && Sub(g, u[..j]).Node?
      && Put(g, u[..j], Sub(g, u[..j]).(balance := Sub(g, u[..j]).balance + Sign(u[j]))) == g'
      && IsPath(g', u[..j + 1]) && Child(Sub(g, u[..j]), u[j]) == Sub(g', u[..j + 1])
    decreases |u|
  {
    if j == 0 {
      assert u[..0] == [] && u[0..] == u;
      assert u[..1] == [u[0]] && [u[0]][1..] == [];
      GrowFirst(t, u, s);
    } else {
      GrowSomeStep(Child(t, u[0]), u[1..], s, j - 1);
      assert u[..j][1..] == u[1..][..j - 1];
      assert u[..j + 1][1..] == u[1..][..j];
    }
  }

  lemma GrowFirst<N, T>(t: Tree<N, T>, u: seq<bool>, s: Tree<N, T>)
    requires IsPath(t, u) && 0 < |u|
    ensures var g := Put(t, u, s);
      && g.Node? && g.node == t.node
      && g.(balance := g.balance + Sign(u[0])) == GrowSome(t, u, s, 1)
      && IsPath(GrowSome(t, u, s, 1), [u[0]]) && Sub(GrowSome(t, u, s, 1), [u[0]]) == Child(g, u[0])
  {
    assert [u[0]][1..] == [];
  }

  /** The nodes on a path into t are nodes of t. */
  lemma {:induction false} SubNodes<N, T>(t: Tree<N, T>, w: seq<bool>)
    requires IsPath(t, w)
    ensures Nodes(Sub(t, w)) <= Nodes(t)
    decreases |w|
  {
    if w != [] { SubNodes(Child(t, w[0]), w[1..]); }
  }

  /** One pass of the adjusting loop. */
  method Adjust<T>(y: AvlNode<T>, p: AvlNode<T>, dir: bool, ghost t: HeapTree<T>, ghost u: seq<bool>, ghost s: HeapTree<T>, ghost j: nat)
      returns (next: AvlNode?<T>)
    requires IsPath(t, u) && j < |u| && dir == u[j]
    requires Shape(y, GrowSome(t, u, s, j))
    requires IsPath(GrowSome(t, u, s, j), u[..j]) && p == Root(Sub(GrowSome(t, u, s, j), u[..j]))
    modifies p`balance
    ensures Shape(y, GrowSome(t, u, s, j + 1))
    ensures IsPath(GrowSome(t, u, s, j + 1), u[..j + 1]) && next == Root(Sub(GrowSome(t, u, s, j + 1), u[..j + 1]))
  {
    ghost var g := GrowSome(t, u, s, j);
    ghost var c := Sub(g, u[..j]);
    GrowSomeStep(t, u, s, j);
    NodesAllocated(g);
    hide GrowSome, Put, Sub, IsPath, Grow;
    Focus(y, g, u[..j]);
    Unpack(p, c, dir);
    SameNodes(c, c.balance + Sign(dir));
    hide Shape, Nodes, Context, Around;
    next := p.Link(dir);
    SetBalance(p, p.balance + Sign(dir), c);
    Unfocus(y, g, u[..j], p, c.(balance := c.balance + Sign(dir)));
  }

  /** The loop that adjusts the balance factors from y down to the new node n. */
  method AdjustAll<T>(y: AvlNode<T>, n: AvlNode<T>, da: array<bool>, ghost t: HeapTree<T>, ghost u: seq<bool>, ghost s: HeapTree<T>)
    requires IsPath(t, u) && Shape(y, Put(t, u, s))
    requires s.Node? && s.node == n && n !in Nodes(t)
    requires |u| <= da.Length && da[..|u|] == u
    modifies Nodes(Put(t, u, s))`balance
    ensures Shape(y, Grow(t, u, s))
  {
    GrowSomeIsGrow(t, u, s);
    NodesAllocated(Put(t, u, s));
    hide GrowSome, Grow, Put, Shape;
    ghost var all := Nodes(Put(t, u, s));
    var p: AvlNode?<T>, k := y, 0;
    GrowStart(y, t, u, s);
    while p != n
      invariant k <= |u|
      invariant Shape(y, GrowSome(t, u, s, k))
      invariant IsPath(GrowSome(t, u, s, k), u[..k]) && p == Root(Sub(GrowSome(t, u, s, k), u[..k]))
      decreases |u| - k
    {
      GrowSomeEnd(t, u, s, k);
      p := Adjust(y, p, da[k], t, u, s, k);
      k := k + 1;
    }
    GrowSomeEnd(t, u, s, k);
  }

  lemma GrowStart<T>(y: AvlNode<T>, t: HeapTree<T>, u: seq<bool>, s: HeapTree<T>)
    requires IsPath(t, u) && Shape(y, Put(t, u, s))
    ensures GrowSome(t, u, s, 0) == Put(t, u, s)
    ensures IsPath(GrowSome(t, u, s, 0), u[..0]) && y == Root(Sub(GrowSome(t, u, s, 0), u[..0]))
  {
    ShapeRoot(y, Put(t, u, s));
  }

  /** The walk is at the new node exactly when it has reached the end of the path. */
  lemma GrowSomeEnd<T>(t: HeapTree<T>, u: seq<bool>, s: HeapTree<T>, k: nat)
    requires IsPath(t, u) && k <= |u| && s.Node? && s.node !in Nodes(t)
    ensures var g := GrowSome(t, u, s, k);
      && IsPath(g, u[..k]) && Sub(g, u[..k]).Node?
      && Sub(g, u[..k]).node in Nodes(Put(t, u, s))
      && (Sub(g, u[..k]).node == s.node <==> k == |u|)
  {
    var g := GrowSome(t, u, s, k);
    GrowSomeRest(t, u, s, k);
    GrowSomeNodes(t, u, s, k);
    SubNodes(t, u[..k]);
    SubNodes(g, u[..k]);
  }

  // ----- what insertion does to heights

  /** The tree after the adjusting loop. */
  function Grown<N, T>(t: Tree<N, T>, x: seq<bool>, m: nat, s: Tree<N, T>): Tree<N, T>
    requires m <= |x| && IsPath(t, x[..m]) && IsPath(Sub(t, x[..m]), x[m..])
  {
    Grow(Sub(t, x[..m]), x[m..], s)
  }

  lemma KidOnPath<N, T>(t: Tree<N, T>, x: seq<bool>, m: nat)
    requires IsPath(t, x) && m < |x| && IsPath(t, x[..m]) && IsPath(Sub(t, x[..m]), x[m..])
    ensures IsPath(t, x[..m + 1])
    ensures Sub(t, x[..m]).Node?
    ensures var c := Child(Sub(t, x[..m]), x[m]);
      Sub(t, x[..m + 1]) == c && IsPath(c, x[m + 1..]) && Sub(c, x[m + 1..]) == Sub(t, x)
  {
    var u := x[m..];
    assert u[1..] == x[m + 1..];
    assert x == x[..m] + u && x[..m + 1] == x[..m] + [x[m]];
    PathSplit(t, x[..m], u);
    PathSplit(t, x[..m], [x[m]]);
    assert [x[m]][1..] == [];
  }

  /** The subtree at the last unbalanced node after the loop: either AVL, and of its old height unless the
      growth reaches the root, or too heavy on the side of the new node, and rotated back to its old height. */
  lemma GrownIsAvl<N, T>(t: Tree<N, T>, x: seq<bool>, m: nat, s: Tree<N, T>)
    requires IsPath(t, x) && Avl(t) && LastUnbalanced(t, x, m) && Sub(t, x).Leaf? && x != []
    requires Avl(s) && Height(s) == 1
    ensures m < |x| && IsPath(t, x[..m]) && Sub(t, x[..m]).Node? && IsPath(Sub(t, x[..m]), x[m..])
    ensures var y := Sub(t, x[..m]); var g := Grown(t, x, m, s); var d := x[m];
      && g.Node? && g.balance == y.balance + Sign(d)
      && (y.balance != Sign(d) ==> Avl(g) && (m == 0 || Height(g) == Height(y)))
      && (y.balance == Sign(d) ==>
            && Heavy(g, d) && Child(g, d).balance != 0
            && Child(g, d).Node? && (Child(g, d).balance == -Sign(d) ==> Child(Child(g, d), !d).Node?)
            && Avl(Rebalance(g, d)) && Height(Rebalance(g, d)) == Height(y))
  {
    hide Avl, Height, Heavy, Grow, Rebalance, LastUnbalanced, Sub;
    LastIsNode(t, x, m);
    var y, u := Sub(t, x[..m]), x[m..];
    assert u[1..] == x[m + 1..];
    AvlSub(t, x[..m]);
    ZerosBelow(t, x, m);
    KidOnPath(t, x, m);
    GrowZeros(Child(y, u[0]), u[1..], s);
    GrownCases(y, u, s);
  }

  lemma LastIsNode<N, T>(t: Tree<N, T>, x: seq<bool>, m: nat)
    requires IsPath(t, x) && LastUnbalanced(t, x, m) && x != []
    ensures m < |x| && IsPath(t, x[..m]) && Sub(t, x[..m]).Node? && IsPath(Sub(t, x[..m]), x[m..])
    ensures m > 0 ==> Sub(t, x[..m]).balance != 0
    ensures Sub(t, x) == Sub(Sub(t, x[..m]), x[m..])
  {
    assert x == x[..m] + x[m..];
    PathSplit(t, x[..m], x[m..]);
  }

  lemma GrownCases<N, T>(y: Tree<N, T>, u: seq<bool>, s: Tree<N, T>)
    requires u != [] && IsPath(y, u) && Avl(y)
    requires var c := Child(y, u[0]);
      && Avl(Grow(c, u[1..], s)) && Height(Grow(c, u[1..], s)) == Height(c) + 1
      && (u[1..] != [] ==> Grow(c, u[1..], s).Node? && Grow(c, u[1..], s).balance == Sign(u[1..][0]))
      && Sub(c, u[1..]).Leaf?
    ensures var g := Grow(y, u, s); var d := u[0];
      && g.Node? && g.balance == y.balance + Sign(d)
      && (y.balance != Sign(d) ==> Avl(g) && (y.balance == 0 || Height(g) == Height(y)))
      && (y.balance == Sign(d) ==>
            && Heavy(g, d) && Child(g, d).Node? && Child(g, d).balance != 0
            && (Child(g, d).balance == -Sign(d) ==> Child(Child(g, d), !d).Node?)
            && Avl(Rebalance(g, d)) && Height(Rebalance(g, d)) == Height(y))
  {
    var g, d := Grow(y, u, s), u[0];
    if y.balance == Sign(d) {
      assert Heavy(g, d);
      RebalanceIsAvl(g, d);
      hide Rebalance;
    }
  }
}
