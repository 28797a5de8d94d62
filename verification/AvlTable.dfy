/** The AVL table: a sentinel whose left link is the root, searching, inserting and deleting. The lemmas in front
    of the class say what each operation does to the tree from the sentinel down, and Change is what any of them
    may do as far as a traverser can tell. */
module AvlTable {
  import opened Orders
  import opened Options
  import opened AvlTree
  import opened AvlOrder
  import opened AvlShape
  import opened AvlInsert
  import opened AvlDelete
  import opened AvlSplice

  /** AVL_MAX_HEIGHT: the size of the path arrays. */
  const MAX_HEIGHT := 32

  ghost predicate Has<T>(cmp: (T, T) -> int, s: seq<T>, item: T) {
    exists i :: 0 <= i < |s| && cmp(item, s[i]) == 0
  }

  /** t' has every node of t at the place it has in t. */
  ghost predicate Extends<N, T>(t: Tree<N, T>, t': Tree<N, T>) {
    t.Node? ==> t'.Node? && t'.node == t.node && Extends(t.left, t'.left) && Extends(t.right, t'.right)
  }

  lemma {:induction false} ExtendsSelf<N, T>(t: Tree<N, T>)
    ensures Extends(t, t)
  {
    if t.Node? {
      ExtendsSelf(t.left);
      ExtendsSelf(t.right);
    }
  }

  lemma {:induction false} ExtendsPut<N, T>(t: Tree<N, T>, w: seq<bool>, s: Tree<N, T>)
    requires IsPath(t, w) && Extends(Sub(t, w), s)
    ensures Extends(t, Put(t, w, s))
    decreases |w|
  {
    if w != [] {
      ExtendsPut(Child(t, w[0]), w[1..], s);
      ExtendsSelf(Child(t, !w[0]));
    }
  }

  lemma {:induction false} ExtendsGrow<N, T>(t: Tree<N, T>, u: seq<bool>, s: Tree<N, T>)
    requires IsPath(t, u) && Sub(t, u).Leaf?
    ensures Extends(t, Grow(t, u, s))
    decreases |u|
  {
    if u != [] {
      ExtendsGrow(Child(t, u[0]), u[1..], s);
      ExtendsSelf(Child(t, !u[0]));
    }
  }

  /** What insertions and deletions may do to a table: either every node keeps its place, or the generation
      goes up. */
  ghost predicate Change<N, T>(t: Tree<N, T>, current: nat, t': Tree<N, T>, current': nat) {
    current <= current' && (current' == current ==> Extends(t, t'))
  }

  lemma NoChange<N, T>(t: Tree<N, T>, current: nat)
    ensures Change(t, current, t, current)
  {
    ExtendsSelf(t);
  }

  /** The data at a node on a path is one of the items. */
  lemma HasAt<N, T>(cmp: (T, T) -> int, t: Tree<N, T>, w: seq<bool>, item: T)
    requires IsPath(t, w) && Sub(t, w).Node? && cmp(item, Sub(t, w).data) == 0
    ensures Has(cmp, InOrder(t), item)
  {
    InOrderSub(t, w);
    var s := Sub(t, w);
    var i := |Before(t, w)| + |InOrder(s.left)|;
    assert InOrder(s)[|InOrder(s.left)|] == s.data;
    assert InOrder(t)[i] == s.data;
  }

  /** A search that ends at a leaf has not missed an item, and has found where it belongs. */
  lemma NotThere<N, T(!new)>(cmp: (T, T) -> int, t: Tree<N, T>, x: seq<bool>, item: T)
    requires Order(cmp) && Sorted(cmp, InOrder(t)) && IsPath(t, x) && Leads(cmp, t, x, item) && Sub(t, x).Leaf?
    ensures !Has(cmp, InOrder(t), item)
    ensures InOrder(t) == Before(t, x) + After(t, x) && Sorted(cmp, Before(t, x) + [item] + After(t, x))
  {
    InOrderSub(t, x);
    assert InOrder(t) == Before(t, x) + After(t, x);
    InsertSorted(cmp, Before(t, x), After(t, x), item);
  }

  /** The path arrays are long enough for any path in a tree of at most their height. */
  lemma PathFits<N, T>(t: Tree<N, T>, x: seq<bool>)
    requires Avl(t) && IsPath(t, x)
    ensures |x| <= Height(t) && (Sub(t, x).Node? ==> |x| < Height(t))
  {
    AvlSub(t, x);
  }

  // ----- paths from the sentinel

  lemma ThroughSentinel<N, T>(whole: Tree<N, T>, x: seq<bool>)
    requires whole.Node?
    ensures IsPath(whole, [false] + x) <==> IsPath(whole.left, x)
    ensures IsPath(whole.left, x) ==>
      && Sub(whole, [false] + x) == Sub(whole.left, x)
      && forall s :: Put(whole, [false] + x, s) == whole.(left := Put(whole.left, x, s))
  {
    assert ([false] + x)[1..] == x;
  }

  /** The node the last step of [false] + x starts from. */
  ghost function Above<N, T>(whole: Tree<N, T>, x: seq<bool>): Tree<N, T>
    requires whole.Node? && IsPath(whole.left, x)
    ensures IsPath(whole, ([false] + x)[..|x|]) && Above(whole, x) == Sub(whole, ([false] + x)[..|x|]) && Above(whole, x).Node?
  {
    var w := [false] + x;
    ThroughSentinel(whole, x);
    assert w == w[..|x|] + [w[|x|]];
    PathSplit(whole, w[..|x|], [w[|x|]]);
    Sub(whole, w[..|x|])
  }

  lemma AboveStep<N, T>(whole: Tree<N, T>, x: seq<bool>, d: bool)
    requires whole.Node? && IsPath(whole.left, x) && Sub(whole.left, x).Node?
    ensures IsPath(whole.left, x + [d]) && Above(whole, x + [d]) == Sub(whole.left, x)
  {
    BeforeStep(whole.left, x, d);
    assert ([false] + (x + [d]))[..|x| + 1] == [false] + x;
    ThroughSentinel(whole, x);
  }

  // ----- after the new node is linked

  /** What the adjusting loop may find at y. */
  ghost predicate GrownWell<N, T>(y: Tree<N, T>, g: Tree<N, T>, d: bool) {
    && y.Node? && g.Node? && -1 <= y.balance <= 1 && g.balance == y.balance + Sign(d)
    && (y.balance == Sign(d) ==>
          && Heavy(g, d) && Child(g, d).Node? && Child(g, d).balance != 0
          && (Child(g, d).balance == -Sign(d) ==> Child(Child(g, d), !d).Node?))
  }

  /** If a rotation is due, the nodes it needs are there. */
  predicate Rotatable<N, T>(g: Tree<N, T>, d: bool) {
    g.Node? && (g.balance == 2 * Sign(d) ==> Child(g, d).Node? && (Child(g, d).balance == -Sign(d) ==> Child(Child(g, d), !d).Node?))
  }

  function Settled<N, T>(g: Tree<N, T>, d: bool): Tree<N, T>
    requires Rotatable(g, d)
  {
    if g.balance == 2 * Sign(d) then Rebalance(g, d) else g
  }

  /** The rotation at y, when the new node made it too heavy. */
  method RotateAt<T>(y: AvlNode<T>, d: bool, ghost g: HeapTree<T>) returns (w: AvlNode<T>)
    requires Shape(y, g) && Heavy(g, d) && Child(g, d).Node?
    requires Child(g, d).balance == -Sign(d) ==> Child(Child(g, d), !d).Node?
    requires Child(g, d).balance != 0
    modifies Nodes(g)
    ensures Shape(w, Rebalance(g, d))
  {
    Unpack(y, g, d);
    Unpack(y.Link(d), Child(g, d), d);
    hide Shape, Nodes, Heavy, Single, Double;
    if y.Link(d).balance == Sign(d) {
      w := SingleRotation(y, d, 0, 0, g);
    } else {
      w := DoubleRotation(y, d, g);
    }
  }

  /** The linked tree, taken apart at y: paths. */
  lemma SettlePaths<N, T>(t: Tree<N, T>, v: seq<bool>, dz: bool, u: seq<bool>, s: Tree<N, T>)
    requires IsPath(t, v + [dz] + u) && u != []
    ensures IsPath(t, v) && IsPath(t, v + [dz]) && IsPath(Sub(t, v + [dz]), u)
    ensures Sub(t, v).Node? && Sub(t, v + [dz]).Node?
    ensures var t1 := Put(t, v + [dz] + u, s); var ys := Sub(t, v + [dz]);
      && IsPath(t1, v + [dz]) && Sub(t1, v + [dz]) == Put(ys, u, s)
      && IsPath(t1, v) && Sub(t1, v).Node? && Sub(t1, v).node == Sub(t, v).node && Sub(t, v).node in Nodes(t1)
      && Put(ys, u, s).Node? && Put(ys, u, s).node == ys.node
  {
    PathSplit(t, v + [dz], u);
    PathSplit(t, v, [dz]);
    var ys := Sub(t, v + [dz]);
    var r := Put(ys, u, s);
    assert Sub(t, v).Node? && Sub(t, v + [dz]).Node?;
    PutAgain(t, v + [dz], r, r);
    var zs := Sub(t, v);
    assert Put(t, v + [dz], r) == Put(t, v, Put(zs, [dz], r));
    PutAgain(t, v, Put(zs, [dz], r), r);
    SubNodes(Put(t, v + [dz], r), v);
  }

  lemma PutOver<N, T>(t: Tree<N, T>, v: seq<bool>, u: seq<bool>, s: Tree<N, T>, s': Tree<N, T>)
    requires IsPath(t, v + u)
    ensures IsPath(t, v) && IsPath(Put(t, v + u, s), v) && Put(Put(t, v + u, s), v, s') == Put(t, v, s')
  {
    PathSplit(t, v, u);
    PutAgain(t, v, Put(Sub(t, v), u, s), s');
  }

  /** The link of z that leads to y. */
  lemma SettleSide<T>(head: AvlNode<T>, t: HeapTree<T>, v: seq<bool>, dz: bool, y: AvlNode<T>)
    requires IsPath(t, v + [dz]) && Context(head, t, v + [dz], y) && y !in Around(t, v + [dz])
    ensures IsPath(t, v) && Sub(t, v).Node?
    ensures var z := Sub(t, v).node; z.Link(dz) == y && (y != z.link0 <==> dz)
  {
    ContextAbove(head, t, v, dz, y);
    var zs := Sub(t, v);
    ShapeRoot(zs.node.Link(!dz), Child(zs, !dz));
  }

  /** The rotation at y, linked under z. */
  method RotateUnder<T>(head: AvlNode<T>, z: AvlNode<T>, y: AvlNode<T>, d: bool,
                        ghost t: HeapTree<T>, ghost v: seq<bool>, ghost dz: bool, ghost g: HeapTree<T>)
    requires IsPath(t, v + [dz]) && Context(head, t, v + [dz], y) && Shape(y, g)
    requires Around(t, v + [dz]) !! Nodes(g)
    requires IsPath(t, v) && Sub(t, v).Node? && z == Sub(t, v).node
    requires Heavy(g, d) && Child(g, d).Node? && Child(g, d).balance != 0
    requires Child(g, d).balance == -Sign(d) ==> Child(Child(g, d), !d).Node?
    modifies Nodes(g), z
    ensures Shape(head, Put(t, v + [dz], Rebalance(g, d)))
  {
    NodesAllocated(t);
    NodesSplit(t, v + [dz], g);
    RebalanceIsAvl(g, d);
    Unpack(y, g, d);
    hide Shape, Nodes, Context, Around, Put, Sub, IsPath, Rebalance, Heavy;
    var w := RotateAt(y, d, g);
    SettleSide(head, t, v, dz, y);
    Attach(head, t, v, z, y != z.link0, w, Rebalance(g, d));
  }

  /** Adjusting from y down, rotating at y if need be, and linking the result under z. */
  method Settle<T>(head: AvlNode<T>, z: AvlNode<T>, y: AvlNode<T>, n: AvlNode<T>, da: array<bool>,
                   ghost t: HeapTree<T>, ghost v: seq<bool>, ghost dz: bool, ghost u: seq<bool>, ghost s: HeapTree<T>)
      returns (rotated: bool)
    requires IsPath(t, v + [dz] + u) && IsPath(t, v + [dz]) && IsPath(Sub(t, v + [dz]), u) && u != []
    requires IsPath(t, v) && Sub(t, v).Node? && z == Sub(t, v).node
    requires Sub(t, v + [dz]).Node? && y == Sub(t, v + [dz]).node
    requires Shape(head, Put(t, v + [dz] + u, s)) && s.Node? && s.node == n && n !in Nodes(t)
    requires |u| <= da.Length && da[..|u|] == u
    requires GrownWell(Sub(t, v + [dz]), Grow(Sub(t, v + [dz]), u, s), u[0])
    modifies Nodes(Put(t, v + [dz] + u, s))
    ensures Shape(head, Put(t, v + [dz], Settled(Grow(Sub(t, v + [dz]), u, s), u[0])))
    ensures rotated <==> Sub(t, v + [dz]).balance == Sign(u[0])
  {
    hide Shape, Nodes, Context, Around, Put, Sub, IsPath, Grow, Rebalance, Heavy;
    ghost var t1 := Put(t, v + [dz] + u, s);
    ghost var ys := Sub(t, v + [dz]);
    ghost var g := Grow(ys, u, s);
    ghost var d := u[0];
    SettlePaths(t, v, dz, u, s);
    SubNodes(t, v + [dz]);
    InOrderGrow(ys, u, s);
    Focus(head, t1, v + [dz]);
    NodesAllocated(t1);
    AdjustAll(y, n, da, ys, u, s);
    Unpack(y, g, d);
    PutOver(t, v + [dz], u, s, Settled(g, d));
    rotated := y.balance == 2 || y.balance == -2;
    if rotated {
      RotateUnder(head, z, y, y.balance == 2, t1, v, dz, g);
    } else {
      Unfocus(head, t1, v + [dz], y, g);
    }
  }

  // ----- insertion as a whole

  /** The tree insertion leaves. */
  function Inserted<N, T>(t: Tree<N, T>, x: seq<bool>, m: nat, s: Tree<N, T>): Tree<N, T>
    requires IsPath(t, x) && m < |x| && IsPath(t, x[..m]) && IsPath(Sub(t, x[..m]), x[m..])
    requires Rotatable(Grown(t, x, m, s), x[m])
  {
    Put(t, x[..m], Settled(Grown(t, x, m, s), x[m]))
  }

  lemma InsertedIsDefined<N, T>(t: Tree<N, T>, x: seq<bool>, m: nat, s: Tree<N, T>)
    requires IsPath(t, x) && Avl(t) && LastUnbalanced(t, x, m) && Sub(t, x).Leaf? && x != []
    requires Avl(s) && Height(s) == 1
    ensures m < |x| && IsPath(t, x[..m]) && Sub(t, x[..m]).Node? && IsPath(Sub(t, x[..m]), x[m..])
    ensures GrownWell(Sub(t, x[..m]), Grown(t, x, m, s), x[m]) && Rotatable(Grown(t, x, m, s), x[m])
  {
    GrownIsAvl(t, x, m, s);
    AvlSub(t, x[..m]);
  }

  lemma InsertedIsAvl<N, T>(t: Tree<N, T>, x: seq<bool>, m: nat, s: Tree<N, T>)
    requires IsPath(t, x) && Avl(t) && LastUnbalanced(t, x, m) && Sub(t, x).Leaf? && x != []
    requires Avl(s) && Height(s) == 1
    requires m < |x| && IsPath(t, x[..m]) && Sub(t, x[..m]).Node? && IsPath(Sub(t, x[..m]), x[m..])
    requires GrownWell(Sub(t, x[..m]), Grown(t, x, m, s), x[m]) && Rotatable(Grown(t, x, m, s), x[m])
    ensures Avl(Inserted(t, x, m, s))
  {
    hide Grow, Rebalance, Heavy;
    GrownIsAvl(t, x, m, s);
    var r := Settled(Grown(t, x, m, s), x[m]);
    AvlSub(t, x[..m]);
    if m == 0 {
      assert x[..0] == [];
    } else {
      PutSameHeight(t, x[..m], r);
    }
  }

  /** At y the new tree has the items and nodes of the old one and the new node at its place. */
  lemma SettledInOrder<N, T>(y: Tree<N, T>, u: seq<bool>, s: Tree<N, T>, d: bool)
    requires IsPath(y, u) && GrownWell(y, Grow(y, u, s), d) && Rotatable(Grow(y, u, s), d)
    ensures InOrder(Settled(Grow(y, u, s), d)) == InOrder(Put(y, u, s)) && Nodes(Settled(Grow(y, u, s), d)) == Nodes(Put(y, u, s))
  {
    InOrderGrow(y, u, s);
    if y.balance == Sign(d) { RebalanceIsAvl(Grow(y, u, s), d); }
    hide Grow, Rebalance, Heavy, InOrder, Nodes;
  }

  lemma InsertedInOrder<N, T>(t: Tree<N, T>, x: seq<bool>, m: nat, n: N, item: T)
    requires IsPath(t, x) && Sub(t, x).Leaf?
    requires m < |x| && IsPath(t, x[..m]) && Sub(t, x[..m]).Node? && IsPath(Sub(t, x[..m]), x[m..])
    requires GrownWell(Sub(t, x[..m]), Grown(t, x, m, NewNode(n, item)), x[m])
    requires Rotatable(Grown(t, x, m, NewNode(n, item)), x[m])
    ensures InOrder(Inserted(t, x, m, NewNode(n, item))) == Before(t, x) + [item] + After(t, x)
    ensures Nodes(Inserted(t, x, m, NewNode(n, item))) == Nodes(t) + {n}
  {
    var s := NewNode(n, item);
    var y, u := Sub(t, x[..m]), x[m..];
    var r, r' := Settled(Grown(t, x, m, s), x[m]), Put(y, u, s);
    assert InOrder(s) == [item] && Nodes(s) == {n};
    SettledInOrder(y, u, s, x[m]);
    assert x == x[..m] + u;
    assert Nodes(Sub(t, x)) == {};
    hide Grow, Settled, GrownWell, Rotatable, IsPath, Sub, InOrder, Nodes, Put, Before, After, Around;
    PathSplit(t, x[..m], u);
    InOrderAt(t, x, s);
    InOrderAt(t, x[..m], r);
    InOrderAt(t, x[..m], r');
    NodesSplit(t, x[..m], r);
    NodesSplit(t, x[..m], r');
    NodesSplit(t, x, s);
  }

  lemma InsertedExtends<N, T>(t: Tree<N, T>, x: seq<bool>, m: nat, s: Tree<N, T>)
    requires IsPath(t, x) && Sub(t, x).Leaf?
    requires m < |x| && IsPath(t, x[..m]) && Sub(t, x[..m]).Node? && IsPath(Sub(t, x[..m]), x[m..])
    requires GrownWell(Sub(t, x[..m]), Grown(t, x, m, s), x[m]) && Rotatable(Grown(t, x, m, s), x[m])
    requires Sub(t, x[..m]).balance != Sign(x[m])
    ensures Extends(t, Inserted(t, x, m, s))
  {
    assert x == x[..m] + x[m..];
    PathSplit(t, x[..m], x[m..]);
    ExtendsGrow(Sub(t, x[..m]), x[m..], s);
    ExtendsPut(t, x[..m], Grown(t, x, m, s));
  }

  /** The most comparison results an insertion caches at once, k of them so far: the cache starts anew at every
      unbalanced node. */
  function Cached<N, T>(cmp: (T, T) -> int, t: Tree<N, T>, item: T, k: nat): nat {
    if t.Leaf? || cmp(item, t.data) == 0 then k
    else
      var c := Cached(cmp, Child(t, cmp(item, t.data) > 0), item, if t.balance != 0 then 1 else k + 1);
      if c < k then k else c
  }

  lemma CachedStep<N, T>(cmp: (T, T) -> int, t: Tree<N, T>, item: T, k: nat)
    requires t.Node? && cmp(item, t.data) != 0
    ensures var k' := if t.balance != 0 then 1 else k + 1;
      var c := Cached(cmp, Child(t, cmp(item, t.data) > 0), item, k');
      k' <= c <= Cached(cmp, t, item, k)
  {
  }

  /** Where the descent of an insertion stands: at the end of path x, with y the last unbalanced node. */
  ghost predicate Descent<N, T>(cmp: (T, T) -> int, whole: Tree<N, T>, item: T, x: seq<bool>, m: nat) {
    && whole.Node? && IsPath(whole.left, x) && Leads(cmp, whole.left, x, item)
    && m <= |x| && LastUnbalanced(whole.left, x, m) && IsPath(whole.left, x[..m])
  }

  lemma DescentStart<N, T>(cmp: (T, T) -> int, whole: Tree<N, T>, item: T)
    requires whole.Node?
    ensures Descent(cmp, whole, item, [], 0)
  {
  }

  lemma DescentStep<N, T(!new)>(cmp: (T, T) -> int, whole: Tree<N, T>, item: T, x: seq<bool>, m: nat)
    requires Descent(cmp, whole, item, x, m) && Order(cmp) && Sorted(cmp, InOrder(whole.left)) && Avl(whole.left)
    requires Sub(whole.left, x).Node? && cmp(item, Sub(whole.left, x).data) != 0
    ensures var d := cmp(item, Sub(whole.left, x).data) > 0;
      var m' := if Sub(whole.left, x).balance != 0 then |x| else m;
      && Descent(cmp, whole, item, x + [d], m') && |x| < Height(whole.left)
      && Sub(whole.left, x + [d]) == Child(Sub(whole.left, x), d)
      && (x + [d])[..m'] == x[..m'] && Above(whole, x + [d]) == Sub(whole.left, x)
      && ([false] + (x + [d]))[|x| + 1] == d && x[..|x|] == x
  {
    hide Order, Leads, Sorted, Avl, LastUnbalanced, InOrder, Before, After;
    var d := cmp(item, Sub(whole.left, x).data) > 0;
    LeadsStep(cmp, whole.left, x, item);
    var m' := if Sub(whole.left, x).balance != 0 then |x| else m;
    assert (x + [d])[..m'] == x[..m'] && x[..|x|] == x;
    LastUnbalancedStep(whole.left, x, m, d);
    PathFits(whole.left, x);
    AboveStep(whole, x, d);
  }

  lemma AboveIn<N, T>(whole: Tree<N, T>, x: seq<bool>)
    requires whole.Node? && IsPath(whole.left, x)
    ensures Above(whole, x).node in Nodes(whole)
  {
    var a := Above(whole, x);
    SubNodes(whole, ([false] + x)[..|x|]);
  }

  /** What the steps after the descent need to know about their paths. */
  lemma ProbePaths<N, T>(whole: Tree<N, T>, x: seq<bool>, m: nat)
    requires whole.Node? && IsPath(whole.left, x) && m <= |x| && IsPath(whole.left, x[..m]) && Sub(whole.left, x[..m]).Node?
    ensures var w := [false] + x; var v, dz, u := w[..m], w[m], x[m..];
      && w == v + [dz] + u && v + [dz] == [false] + x[..m]
      && IsPath(whole, w) && IsPath(whole, v + [dz]) && IsPath(Sub(whole, v + [dz]), u) && IsPath(whole, v)
      && Above(whole, x[..m]) == Sub(whole, v)
      && Sub(whole, v + [dz]) == Sub(whole.left, x[..m]) && IsPath(Sub(whole.left, x[..m]), u)
      && Sub(whole.left, x) == Sub(Sub(whole.left, x[..m]), u)
  {
    var w := [false] + x;
    assert w == w[..m] + [w[m]] + x[m..];
    assert w[..m] + [w[m]] == [false] + x[..m];
    assert w[..m] == ([false] + x[..m])[..m];
    ThroughSentinel(whole, x);
    ThroughSentinel(whole, x[..m]);
    PathSplit(whole, w[..m] + [w[m]], x[m..]);
    PathSplit(whole, w[..m], [w[m]]);
  }

  /** What insertion leaves in the table, when y is a node. */
  lemma ProbeDone<N, T(!new)>(cmp: (T, T) -> int, whole: Tree<N, T>, item: T, x: seq<bool>, m: nat, n: N)
    requires Order(cmp) && Descent(cmp, whole, item, x, m) && Avl(whole.left) && Sorted(cmp, InOrder(whole.left))
    requires Sub(whole.left, x).Leaf? && Sub(whole.left, x[..m]).Node?
    ensures m < |x| && IsPath(Sub(whole.left, x[..m]), x[m..])
    ensures GrownWell(Sub(whole.left, x[..m]), Grown(whole.left, x, m, NewNode(n, item)), x[m])
    ensures Rotatable(Grown(whole.left, x, m, NewNode(n, item)), x[m])
    ensures !Has(cmp, InOrder(whole.left), item)
    ensures InOrder(whole.left) == Before(whole.left, x) + After(whole.left, x)
    ensures var t' := Inserted(whole.left, x, m, NewNode(n, item));
      && Avl(t') && Sorted(cmp, InOrder(t')) && InOrder(t') == Before(whole.left, x) + [item] + After(whole.left, x)
      && Nodes(t') == Nodes(whole.left) + {n}
      && (Sub(whole.left, x[..m]).balance != Sign(x[m]) ==> Extends(whole.left, t'))
  {
    var t, s := whole.left, NewNode(n, item);
    ProbePaths(whole, x, m);
    assert x != [];
    hide Settled, Grown, Inserted, GrownWell, Rotatable, InOrder, Sorted, Order, Has, Avl, Height, LastUnbalanced, Leads, IsPath, Sub, Nodes, Before, After, Extends;
    InsertedIsDefined(t, x, m, s);
    InsertedIsAvl(t, x, m, s);
    InsertedInOrder(t, x, m, n, item);
    NotThere(cmp, t, x, item);
    if Sub(t, x[..m]).balance != Sign(x[m]) { InsertedExtends(t, x, m, s); }
  }

  /** What insertion leaves in an empty table. */
  lemma ProbeEmpty<N, T(!new)>(cmp: (T, T) -> int, whole: Tree<N, T>, item: T, x: seq<bool>, m: nat, n: N)
    requires Descent(cmp, whole, item, x, m) && Sub(whole.left, x[..m]).Leaf?
    ensures x == [] && whole.left.Leaf? && InOrder(whole.left) == [] && !Has(cmp, InOrder(whole.left), item)
    ensures Put(whole, [false] + x, NewNode(n, item)) == whole.(left := NewNode(n, item))
    ensures InOrder(NewNode(n, item)) == [item] && Avl(NewNode(n, item)) && Sorted(cmp, [item]) && Before(whole.left, x) == []
    ensures Nodes(NewNode(n, item)) == Nodes(whole.left) + {n} && Extends(whole.left, NewNode(n, item))
  {
    if x != [] { LastIsNode(whole.left, x, m); }
    ThroughSentinel(whole, x);
  }

  lemma WholeNodes<N, T>(whole: Tree<N, T>, t: Tree<N, T>, n: N)
    requires whole.Node? && Nodes(t) == Nodes(whole.left) + {n}
    ensures Nodes(whole.(left := t)) == Nodes(whole) + {n}
  {
  }

  lemma EqualsItself<T(!new)>(cmp: (T, T) -> int, item: T)
    requires Order(cmp)
    ensures cmp(item, item) == 0
  {
  }

  // ----- deletion as a whole

  /** The stack entries a deletion needs above the sentinel's: one for every node the search passes, and from
      the node found down to the subtree that shrinks. */
  function Entries<N, T>(cmp: (T, T) -> int, t: Tree<N, T>, item: T): nat {
    if t.Leaf? then 0
    else if cmp(item, t.data) == 0 then |ShrunkAt(t)|
    else 1 + Entries(cmp, Child(t, cmp(item, t.data) > 0), item)
  }

  /** Where the search of a deletion stands. */
  ghost predicate Sought<N, T>(cmp: (T, T) -> int, t: Tree<N, T>, item: T, x: seq<bool>) {
    IsPath(t, x) && Leads(cmp, t, x, item) && |x| + Entries(cmp, Sub(t, x), item) == Entries(cmp, t, item)
  }

  lemma SoughtStart<N, T>(cmp: (T, T) -> int, t: Tree<N, T>, item: T)
    ensures Sought(cmp, t, item, [])
  {
  }

  lemma SoughtStep<N, T(!new)>(cmp: (T, T) -> int, t: Tree<N, T>, item: T, x: seq<bool>)
    requires Order(cmp) && Sorted(cmp, InOrder(t)) && Sought(cmp, t, item, x)
    requires Sub(t, x).Node? && cmp(item, Sub(t, x).data) != 0
    ensures var d := cmp(item, Sub(t, x).data) > 0;
      Sought(cmp, t, item, x + [d]) && Sub(t, x + [d]) == Child(Sub(t, x), d) && |x| < Entries(cmp, t, item)
  {
    LeadsStep(cmp, t, x, item);
  }

  lemma SoughtMissing<N, T(!new)>(cmp: (T, T) -> int, t: Tree<N, T>, item: T, x: seq<bool>)
    requires Order(cmp) && Sorted(cmp, InOrder(t)) && Sought(cmp, t, item, x) && Sub(t, x).Leaf?
    ensures !Has(cmp, InOrder(t), item)
  {
    NotThere(cmp, t, x, item);
  }

  lemma SoughtFound<N, T>(cmp: (T, T) -> int, t: Tree<N, T>, item: T, x: seq<bool>)
    requires Sought(cmp, t, item, x) && Sub(t, x).Node? && cmp(item, Sub(t, x).data) == 0
    ensures Has(cmp, InOrder(t), item) && |x| + |ShrunkAt(Sub(t, x))| == Entries(cmp, t, item)
  {
    HasAt(cmp, t, x, item);
  }

  /** What deletion leaves. */
  lemma DeleteDone<N, T(!new)>(cmp: (T, T) -> int, t: Tree<N, T>, x: seq<bool>)
    requires Avl(t) && Sorted(cmp, InOrder(t)) && IsPath(t, x) && Sub(t, x).Node?
    ensures var p := Sub(t, x); var t' := Put(t, x, Spliced(p)); var at := |Before(t, x)| + |InOrder(p.left)|;
      && IsPath(t', x + ShrunkAt(p)) && Shrunk(t', x + ShrunkAt(p))
      && at < |InOrder(t)| && InOrder(t)[at] == p.data
      && InOrder(t') == InOrder(t)[..at] + InOrder(t)[at + 1..] && Sorted(cmp, InOrder(t'))
  {
    hide Avl, Shrunk, Sorted, Spliced, ShrunkAt;
    var p := Sub(t, x);
    SpliceShrinks(t, x);
    hide InOrder, Before, After, Put, Sub;
    Removal(cmp, Before(t, x), InOrder(p.left), p.data, InOrder(p.right), After(t, x));
  }

  lemma Removal<T>(cmp: (T, T) -> int, a: seq<T>, l: seq<T>, x: T, r: seq<T>, b: seq<T>)
    requires Sorted(cmp, a + l + [x] + r + b)
    ensures var s, at := a + l + [x] + r + b, |a| + |l|;
      at < |s| && s[at] == x && a + l + r + b == s[..at] + s[at + 1..] && Sorted(cmp, a + l + r + b)
  {
    assert a + l + [x] + r + b == (a + l) + [x] + (r + b);
    assert a + l + r + b == (a + l) + (r + b);
    RemoveSorted(cmp, a + l, x, r + b);
  }

  lemma SameNodesLeft<N, T>(whole: Tree<N, T>, l: Tree<N, T>, l': Tree<N, T>)
    requires whole.Node? && Nodes(l) == Nodes(l')
    ensures Nodes(whole.(left := l)) == Nodes(whole.(left := l'))
  {
  }

  lemma WithoutNode<N, T>(whole: Tree<N, T>, x: seq<bool>, s: Tree<N, T>)
    requires whole.Node? && IsPath(whole.left, x)
    ensures IsPath(whole, [false] + x) && Sub(whole, [false] + x) == Sub(whole.left, x)
    ensures Put(whole, [false] + x, s) == whole.(left := Put(whole.left, x, s))
    ensures forall u :: ([false] + x) + u == [false] + (x + u)
  {
    ThroughSentinel(whole, x);
  }

  /** Pushes the sentinel. */
  method PushHead<T>(head: AvlNode<T>, pa: array<AvlNode?<T>>, da: array<bool>, ghost whole: HeapTree<T>)
    requires whole.Node? && whole.node == head && 1 <= pa.Length == da.Length
    modifies pa, da
    ensures Stacked(pa, da, 1, whole, [false] + [])
  {
    pa[0] := head;
    da[0] := false;
    assert [false][1..] == [];
  }

  /** Pushes the node at x. */
  method PushNode<T>(pa: array<AvlNode?<T>>, da: array<bool>, k: nat, p: AvlNode<T>, d: bool, ghost whole: HeapTree<T>, ghost x: seq<bool>)
    requires whole.Node? && IsPath(whole.left, x) && Sub(whole.left, x).Node? && p == Sub(whole.left, x).node
    requires Stacked(pa, da, k, whole, [false] + x) && k < pa.Length
    modifies pa, da
    ensures Stacked(pa, da, k + 1, whole, [false] + (x + [d]))
  {
    pa[k] := p;
    da[k] := d;
    ThroughSentinel(whole, x);
    AncestorsStep(whole, [false] + x, d);
    assert [false] + (x + [d]) == ([false] + x) + [d];
    assert pa[..k + 1] == pa[..k] + [p] && da[..k + 1] == da[..k] + [d];
  }

  class AvlTable<T(0, !new)> {
    const cmp: (T, T) -> int
    /** Stands for the table's root field taken as a node: its left link is the root. */
    const head: AvlNode<T>
    var count: nat
    var generation: nat
    /** The tree from the sentinel down. */
    ghost var whole: HeapTree<T>

    ghost predicate Valid()
      reads this, Nodes(whole)
    {
      && Order(cmp) && whole.Node? && whole.node == head && whole.right.Leaf? && Shape(head, whole)
      && Avl(whole.left) && Sorted(cmp, InOrder(whole.left)) && count == |InOrder(whole.left)|
    }

    /** The items in order. */
    ghost function Items(): seq<T>
      requires whole.Node?
      reads this
    {
      InOrder(whole.left)
    }

    constructor (cmp: (T, T) -> int)
      requires Order(cmp)
      ensures Valid() && Items() == [] && this.cmp == cmp && fresh(Nodes(whole))
    {
      this.cmp := cmp;
      count, generation := 0, 0;
      var nothing: T := *;
      head := new AvlNode(nothing);
      new;
      whole := Node(Leaf, head, head.data, head.balance, Leaf);
    }

    /** The node at a path from the root, on the heap. */
    lemma NodeAt(x: seq<bool>, p: AvlNode?<T>)
      requires Valid() && IsPath(whole.left, x) && p == Root(Sub(whole.left, x))
      ensures p != null ==>
        && Sub(whole.left, x).Node? && p == Sub(whole.left, x).node && p in Nodes(whole)
        && p.data == Sub(whole.left, x).data && p.balance == Sub(whole.left, x).balance
        && forall d :: p.Link(d) == Root(Child(Sub(whole.left, x), d))
    {
      ThroughSentinel(whole, x);
      ShapeSub(head, whole, [false] + x);
      if p != null {
        Unpack(p, Sub(whole.left, x), false);
      }
    }

    lemma RootAt()
      requires Valid()
      ensures head.Link(false) == Root(whole.left) && head in Nodes(whole)
    {
      ShapeRoot(head.Link(false), whole.left);
    }

    method Find(item: T) returns (p: AvlNode?<T>)
      requires Valid()
      ensures p != null <==> Has(cmp, Items(), item)
      ensures p != null ==> p in Nodes(whole) && cmp(item, p.data) == 0 && p.data in Items()
    {
      ghost var x := [];
      RootAt();
      p := head.Link(false);
      while p != null
        invariant Valid()
        invariant IsPath(whole.left, x) && p == Root(Sub(whole.left, x)) && Leads(cmp, whole.left, x, item)
        decreases Sub(whole.left, x)
      {
        NodeAt(x, p);
        var c := cmp(item, p.data);
        if c == 0 {
          HasAt(cmp, whole.left, x, item);
          InOrderSub(whole.left, x);
          return;
        }
        LeadsStep(cmp, whole.left, x, item);
        x := x + [c > 0];
        p := p.Link(c > 0);
      }
      NotThere(cmp, whole.left, x, item);
    }

    /** The search of an insertion, which remembers the last unbalanced node and the steps from it. */
    method Descend(item: T, da: array<bool>)
        returns (p: AvlNode?<T>, q: AvlNode<T>, z: AvlNode<T>, y: AvlNode?<T>, dir: bool, ghost x: seq<bool>, ghost m: nat)
      requires Valid() && Cached(cmp, whole.left, item, 0) <= da.Length
      modifies da
      ensures Valid() && Descent(cmp, whole, item, x, m)
      ensures p == Root(Sub(whole.left, x)) && (p != null ==> cmp(item, p.data) == 0)
      ensures q == Above(whole, x).node && dir == ([false] + x)[|x|]
      ensures y == Root(Sub(whole.left, x[..m])) && z == Above(whole, x[..m]).node
      ensures |x| - m <= da.Length && da[..|x| - m] == x[m..]
    {
      hide Shape, Nodes, Sorted, Order, InOrder, Leads, Avl, Height, Cached;
      x, m := [], 0;
      RootAt();
      DescentStart(cmp, whole, item);
      NodesAllocated(whole);
      p, q, z, y, dir := head.Link(false), head, head, head.Link(false), false;
      var k := 0;
      while p != null
        invariant Valid() && Descent(cmp, whole, item, x, m)
        invariant p == Root(Sub(whole.left, x)) && q == Above(whole, x).node && dir == ([false] + x)[|x|]
        invariant y == Root(Sub(whole.left, x[..m])) && z == Above(whole, x[..m]).node
        invariant k == |x| - m && Cached(cmp, Sub(whole.left, x), item, k) <= Cached(cmp, whole.left, item, 0)
        invariant k <= da.Length && da[..k] == x[m..]
        decreases Sub(whole.left, x)
      {
        NodeAt(x, p);
        var c := cmp(item, p.data);
        if c == 0 {
          return;
        }
        DescentStep(cmp, whole, item, x, m);
        CachedStep(cmp, Sub(whole.left, x), item, k);
        if p.balance != 0 {
          z, y, k := q, p, 0;
          m := |x|;
        }
        dir := c > 0;
        da[k] := dir;
        k := k + 1;
        x := x + [dir];
        q, p := p, p.Link(dir);
      }
    }

    /** Links a new node below q. */
    method LinkNew(item: T, q: AvlNode<T>, dir: bool, ghost x: seq<bool>) returns (n: AvlNode<T>)
      requires whole.Node? && whole.node == head && Shape(head, whole)
      requires IsPath(whole.left, x) && Sub(whole.left, x).Leaf?
      requires q == Above(whole, x).node && dir == ([false] + x)[|x|]
      modifies q
      ensures fresh(n) && n.data == item && n !in Nodes(whole)
      ensures IsPath(whole, [false] + x) && Shape(head, Put(whole, [false] + x, NewNode(n, item)))
      ensures Nodes(Put(whole, [false] + x, NewNode(n, item))) == Nodes(whole) + {n}
    {
      NodesAllocated(whole);
      ThroughSentinel(whole, x);
      ghost var w := [false] + x;
      assert w == w[..|x|] + [dir];
      hide Shape, Context, Put;
      n := new AvlNode(item);
      Focus(head, whole, w);
      ContextAbove(head, whole, w[..|x|], dir, null);
      NodesSplit(whole, w, NewNode(n, item));
      Attach(head, whole, w[..|x|], q, dir, n, NewNode(n, item));
    }

    /** Settles the table after a new node has been linked at the end of x. */
    method SettleAfter(z: AvlNode<T>, y: AvlNode<T>, n: AvlNode<T>, da: array<bool>, ghost x: seq<bool>, ghost m: nat, ghost item: T)
        returns (rotated: bool)
      requires whole.Node? && whole.node == head && n !in Nodes(whole)
      requires IsPath(whole.left, x) && m < |x| && IsPath(whole.left, x[..m]) && Sub(whole.left, x[..m]).Node?
      requires IsPath(Sub(whole.left, x[..m]), x[m..])
      requires IsPath(whole, [false] + x) && Shape(head, Put(whole, [false] + x, NewNode(n, item)))
      requires y == Sub(whole.left, x[..m]).node && z == Above(whole, x[..m]).node
      requires |x| - m <= da.Length && da[..|x| - m] == x[m..]
      requires GrownWell(Sub(whole.left, x[..m]), Grown(whole.left, x, m, NewNode(n, item)), x[m])
      requires Rotatable(Grown(whole.left, x, m, NewNode(n, item)), x[m])
      modifies Nodes(Put(whole, [false] + x, NewNode(n, item)))
      ensures Shape(head, whole.(left := Inserted(whole.left, x, m, NewNode(n, item))))
      ensures rotated <==> Sub(whole.left, x[..m]).balance == Sign(x[m])
    {
      hide Shape, Nodes, Above, Put, GrownWell, Settled, Sub, IsPath, Grow;
      ProbePaths(whole, x, m);
      ThroughSentinel(whole, x[..m]);
      assert x[m..][0] == x[m];
      rotated := Settle(head, z, y, n, da, whole, ([false] + x)[..m], ([false] + x)[m], x[m..], NewNode(n, item));
    }

    /** Inserts item and returns its node, or returns the node of an equal item already there. */
    method Probe(item: T) returns (n: AvlNode<T>, ghost at: nat)
      requires Valid() && Cached(cmp, whole.left, item, 0) <= MAX_HEIGHT
      modifies this`count, this`generation, this`whole, Nodes(whole)
      ensures Valid() && n in Nodes(whole) && cmp(item, n.data) == 0
      ensures old(Has(cmp, Items(), item)) ==> n in old(Nodes(whole)) && whole == old(whole) && generation == old(generation)
      ensures !old(Has(cmp, Items(), item)) ==>
        && fresh(n) && n.data == item && Nodes(whole) == old(Nodes(whole)) + {n}
        && at <= |old(Items())| && Items() == old(Items()[..at]) + [item] + old(Items()[at..])
        && generation <= old(generation) + 1 && count == old(count) + 1
      ensures Change(old(whole).left, old(generation), whole.left, generation)
    {
      hide Shape, Nodes, Order, Sorted, InOrder, Leads, LastUnbalanced, Avl, Height, Has, Extends, Above, Put, GrownWell, Rotatable, Settled, Inserted, Sub, IsPath, Before, After, Grown;
      var da := new bool[MAX_HEIGHT];
      var p, q, z, y, dir;
      ghost var x, m;
      p, q, z, y, dir, x, m := Descend(item, da);
      if p != null {
        NodeAt(x, p);
        HasAt(cmp, whole.left, x, item);
        NoChange(whole.left, generation);
        return p, 0;
      }
      AboveIn(whole, x);
      n := LinkNew(item, q, dir, x);
      count := count + 1;
      at := |Before(whole.left, x)|;
      EqualsItself(cmp, item);
      if y == null {
        ProbeEmpty(cmp, whole, item, x, m, n);
        WholeNodes(whole, NewNode(n, item), n);
        whole := whole.(left := NewNode(n, item));
        return;
      }
      ProbeDone(cmp, whole, item, x, m, n);
      WholeNodes(whole, Inserted(whole.left, x, m, NewNode(n, item)), n);
      var rotated := SettleAfter(z, y, n, da, x, m, item);
      whole := whole.(left := Inserted(whole.left, x, m, NewNode(n, item)));
      if rotated {
        generation := generation + 1;
      }
    }

    /** The search of a deletion, which pushes every node it passes. */
    method Seek(item: T, pa: array<AvlNode?<T>>, da: array<bool>) returns (p: AvlNode?<T>, k: nat, ghost x: seq<bool>)
      requires Valid() && pa.Length == da.Length && 1 + Entries(cmp, whole.left, item) <= pa.Length
      modifies pa, da
      ensures Valid()
      ensures p == null ==> !Has(cmp, Items(), item)
      ensures p != null ==>
        && Sought(cmp, whole.left, item, x) && Sub(whole.left, x).Node? && p == Sub(whole.left, x).node
        && cmp(item, p.data) == 0 && p.data == Sub(whole.left, x).data && k == 1 + |x| && Stacked(pa, da, k, whole, [false] + x)
    {
      hide Shape, Nodes, Sorted, Order, InOrder, Avl, Leads, Has, Stacked, Ancestors;
      NodesAllocated(whole);
      RootAt();
      SoughtStart(cmp, whole.left, item);
      x := [];
      PushHead(head, pa, da, whole);
      p := head.Link(false);
      k := 1;
      while p != null
        invariant Valid() && Sought(cmp, whole.left, item, x) && p == Root(Sub(whole.left, x))
        invariant k == 1 + |x| && Stacked(pa, da, k, whole, [false] + x)
        decreases Sub(whole.left, x)
      {
        NodeAt(x, p);
        var c := cmp(item, p.data);
        if c == 0 {
          return;
        }
        SoughtStep(cmp, whole.left, item, x);
        PushNode(pa, da, k, p, c > 0, whole, x);
        k := k + 1;
        x := x + [c > 0];
        p := p.Link(c > 0);
      }
      SoughtMissing(cmp, whole.left, item, x);
    }

    /** Removes the item equal to the given one and returns it, if there is one. */
    method Delete(item: T) returns (r: Option<T>, ghost at: nat, ghost gone: AvlNode?<T>)
      requires Valid() && 1 + Entries(cmp, whole.left, item) <= MAX_HEIGHT
      modifies this`count, this`generation, this`whole, Nodes(whole)
      ensures Valid()
      ensures !old(Has(cmp, Items(), item)) ==>
        r.None? && whole == old(whole) && generation == old(generation) && count == old(count)
      ensures old(Has(cmp, Items(), item)) ==>
        && r.Some? && cmp(item, r.value) == 0 && at < |old(Items())| && old(Items())[at] == r.value
        && Items() == old(Items()[..at]) + old(Items()[at + 1..])
        && gone != null && gone in old(Nodes(whole)) && gone.data == r.value && Nodes(whole) == old(Nodes(whole)) - {gone}
        && generation == old(generation) + 1 && count == old(count) - 1
      ensures Change(old(whole).left, old(generation), whole.left, generation)
    {
      hide Shape, Nodes, Order, Sorted, InOrder, Avl, Height, Has, Put, Sub, IsPath, Before, After, Stacked, Spliced, ShrunkAt, Shrunk, Leads, Entries;
      var pa := new AvlNode?<T>[MAX_HEIGHT];
      var da := new bool[MAX_HEIGHT];
      var p, k;
      ghost var x;
      at, gone := 0, null;
      p, k, x := Seek(item, pa, da);
      if p == null {
        NoChange(whole.left, generation);
        return None, at, gone;
      }
      r, gone := Some(p.data), p;
      SoughtFound(cmp, whole.left, item, x);
      DeleteDone(cmp, whole.left, x);
      at := |Before(whole.left, x)| + |InOrder(Sub(whole.left, x).left)|;
      NodeAt(x, p);
      ghost var t' := Put(whole.left, x, Spliced(Sub(whole.left, x)));
      WithoutNode(whole, x, Spliced(Sub(whole.left, x)));
      k := Unlink(head, p, pa, da, k, whole, [false] + x);
      ghost var left := RepairAll(head, pa, da, k, whole.(left := t'), x + ShrunkAt(Sub(whole.left, x)));
      SameNodesLeft(whole, left, t');
      whole := whole.(left := left);
      count := count - 1;
      generation := generation + 1;
    }
  }
}
