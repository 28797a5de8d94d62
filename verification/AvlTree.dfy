/** Binary trees with balance factors as values: paths, order, heights, rotations. N is the type of node identities. */
module AvlTree {

  datatype Tree<N, T> = Leaf | Node(left: Tree<N, T>, node: N, data: T, balance: int, right: Tree<N, T>)

  function Height<N, T>(t: Tree<N, T>): nat {
    if t.Leaf? then 0 else 1 + Max(Height(t.left), Height(t.right))
  }

  function Max(a: int, b: int): int {
    if a < b then b else a
  }

  function InOrder<N, T>(t: Tree<N, T>): seq<T> {
    if t.Leaf? then [] else InOrder(t.left) + [t.data] + InOrder(t.right)
  }

  ghost function Nodes<N, T>(t: Tree<N, T>): set<N> {
    if t.Leaf? then {} else Nodes(t.left) + {t.node} + Nodes(t.right)
  }

  /** Every balance factor is the exact height difference and in {-1, 0, +1}. */
  ghost predicate Avl<N, T>(t: Tree<N, T>) {
    t.Node? ==>
      && Avl(t.left) && Avl(t.right)
      && t.balance == Height(t.right) - Height(t.left) && -1 <= t.balance <= 1
  }

  // ----- directions and paths: false is left, true is right

  function Child<N, T>(t: Tree<N, T>, d: bool): Tree<N, T>
    requires t.Node?
  {
    if d then t.right else t.left
  }

  function WithChild<N, T>(t: Tree<N, T>, d: bool, c: Tree<N, T>): (r: Tree<N, T>)
    requires t.Node?
    ensures r.Node?
  {
    if d then t.(right := c) else t.(left := c)
  }

  /** A node whose child in direction d is `near` and whose other child is `far`. */
  function Join<N, T>(d: bool, near: Tree<N, T>, n: N, x: T, b: int, far: Tree<N, T>): Tree<N, T> {
    if d then Node(far, n, x, b, near) else Node(near, n, x, b, far)
  }

  /** What a step in direction d adds to a balance factor. */
  function Sign(d: bool): int {
    if d then 1 else -1
  }

  predicate IsPath<N, T>(t: Tree<N, T>, w: seq<bool>) {
    w == [] || (t.Node? && IsPath(Child(t, w[0]), w[1..]))
  }

  function Sub<N, T>(t: Tree<N, T>, w: seq<bool>): Tree<N, T>
    requires IsPath(t, w)
  {
    if w == [] then t else Sub(Child(t, w[0]), w[1..])
  }

  function Put<N, T>(t: Tree<N, T>, w: seq<bool>, s: Tree<N, T>): Tree<N, T>
    requires IsPath(t, w)
  {
    if w == [] then s else WithChild(t, w[0], Put(Child(t, w[0]), w[1..], s))
  }

  /** What lies left and right of the subtree at w in order. */
  function Before<N, T>(t: Tree<N, T>, w: seq<bool>): seq<T>
    requires IsPath(t, w)
  {
    if w == [] then []
    else if w[0] then InOrder(t.left) + [t.data] + Before(t.right, w[1..])
    else Before(t.left, w[1..])
  }

  function After<N, T>(t: Tree<N, T>, w: seq<bool>): seq<T>
    requires IsPath(t, w)
  {
    if w == [] then []
    else if w[0] then After(t.right, w[1..])
    else After(t.left, w[1..]) + [t.data] + InOrder(t.right)
  }

  lemma {:induction false} InOrderSub<N, T>(t: Tree<N, T>, w: seq<bool>)
    requires IsPath(t, w)
    ensures InOrder(t) == Before(t, w) + InOrder(Sub(t, w)) + After(t, w)
    decreases |w|
  {
    if w != [] {
      var c := Child(t, w[0]);
      InOrderSub(c, w[1..]);
      var b, i, a := Before(c, w[1..]), InOrder(Sub(t, w)), After(c, w[1..]);
      if w[0] {
        assert InOrder(t.left) + [t.data] + (b + i + a) == (InOrder(t.left) + [t.data] + b) + i + a;
      } else {
        assert (b + i + a) + [t.data] + InOrder(t.right) == b + i + (a + [t.data] + InOrder(t.right));
      }
    }
  }

  /** Replacing a subtree replaces its part of the in-order sequence. */
  lemma InOrderAt<N, T>(t: Tree<N, T>, w: seq<bool>, s: Tree<N, T>)
    requires IsPath(t, w)
    ensures InOrder(t) == Before(t, w) + InOrder(Sub(t, w)) + After(t, w)
    ensures InOrder(Put(t, w, s)) == Before(t, w) + InOrder(s) + After(t, w)
  {
    InOrderSub(t, w);
    PutAgain(t, w, s, s);
    InOrderSub(Put(t, w, s), w);
  }

  lemma {:induction false} PathSplit<N, T>(t: Tree<N, T>, v: seq<bool>, u: seq<bool>)
    ensures IsPath(t, v + u) <==> IsPath(t, v) && IsPath(Sub(t, v), u)
    ensures IsPath(t, v + u) ==> Sub(t, v + u) == Sub(Sub(t, v), u)
    ensures forall s :: IsPath(t, v + u) ==> Put(t, v + u, s) == Put(t, v, Put(Sub(t, v), u, s))
    decreases |v|
  {
    if v == [] {
      assert v + u == u;
    } else {
      assert (v + u)[1..] == v[1..] + u;
      if t.Node? { PathSplit(Child(t, v[0]), v[1..], u); }
    }
  }

  lemma {:induction false} PutAgain<N, T>(t: Tree<N, T>, w: seq<bool>, s: Tree<N, T>, s': Tree<N, T>)
    requires IsPath(t, w)
    ensures IsPath(Put(t, w, s), w) && Sub(Put(t, w, s), w) == s
    ensures Put(Put(t, w, s), w, s') == Put(t, w, s')
    ensures Before(Put(t, w, s), w) == Before(t, w) && After(Put(t, w, s), w) == After(t, w)
    ensures Put(t, w, Sub(t, w)) == t
    decreases |w|
  {
    if w != [] {
      PutAgain(Child(t, w[0]), w[1..], s, s');
    }
  }

  lemma {:induction false} AvlSub<N, T>(t: Tree<N, T>, w: seq<bool>)
    requires IsPath(t, w) && Avl(t)
    ensures Avl(Sub(t, w)) && Height(Sub(t, w)) + |w| <= Height(t)
    decreases |w|
  {
    if w != [] { AvlSub(Child(t, w[0]), w[1..]); }
  }

  /** Replacing a subtree by an AVL tree of the same height. */
  lemma {:induction false} PutSameHeight<N, T>(t: Tree<N, T>, w: seq<bool>, s: Tree<N, T>)
    requires IsPath(t, w) && Avl(t) && Avl(s) && Height(s) == Height(Sub(t, w))
    ensures Avl(Put(t, w, s)) && Height(Put(t, w, s)) == Height(t)
    decreases |w|
  {
    if w != [] { PutSameHeight(Child(t, w[0]), w[1..], s); }
  }

  /** The nodes passed on the way along w. */
  function Ancestors<N, T>(t: Tree<N, T>, w: seq<bool>): (s: seq<N>)
    requires IsPath(t, w)
    ensures |s| == |w|
  {
    if w == [] then [] else [t.node] + Ancestors(Child(t, w[0]), w[1..])
  }

  lemma {:induction false} AncestorsSplit<N, T>(t: Tree<N, T>, v: seq<bool>, u: seq<bool>)
    requires IsPath(t, v) && IsPath(Sub(t, v), u)
    ensures IsPath(t, v + u) && Ancestors(t, v + u) == Ancestors(t, v) + Ancestors(Sub(t, v), u)
    decreases |v|
  {
    if v == [] {
      assert v + u == u;
    } else {
      assert (v + u)[1..] == v[1..] + u;
      AncestorsSplit(Child(t, v[0]), v[1..], u);
    }
  }

  lemma AncestorsStep<N, T>(t: Tree<N, T>, w: seq<bool>, d: bool)
    requires IsPath(t, w) && Sub(t, w).Node?
    ensures IsPath(t, w + [d]) && Ancestors(t, w + [d]) == Ancestors(t, w) + [Sub(t, w).node]
  {
    assert [d][1..] == [];
    AncestorsSplit(t, w, [d]);
  }

  lemma {:induction false} AncestorsPut<N, T>(t: Tree<N, T>, w: seq<bool>, s: Tree<N, T>)
    requires IsPath(t, w)
    ensures IsPath(Put(t, w, s), w) && Ancestors(Put(t, w, s), w) == Ancestors(t, w)
    decreases |w|
  {
    if w != [] { AncestorsPut(Child(t, w[0]), w[1..], s); }
  }

  // ----- growing by one node

  /** A new node put at the end of path u, and one step added to every balance factor on the way. */
  function Grow<N, T>(t: Tree<N, T>, u: seq<bool>, s: Tree<N, T>): Tree<N, T>
    requires IsPath(t, u)
  {
    if u == [] then s
    else
      var c := Grow(Child(t, u[0]), u[1..], s);
      Join(u[0], c, t.node, t.data, t.balance + Sign(u[0]), Child(t, !u[0]))
  }

  ghost predicate ZerosAlong<N, T>(t: Tree<N, T>, u: seq<bool>)
    requires IsPath(t, u)
  {
    u == [] || (t.balance == 0 && ZerosAlong(Child(t, u[0]), u[1..]))
  }

  /** Through balanced nodes the growth goes all the way up and leaves an AVL tree. */
  lemma {:induction false} GrowZeros<N, T>(t: Tree<N, T>, u: seq<bool>, s: Tree<N, T>)
    requires IsPath(t, u) && Avl(t) && ZerosAlong(t, u)
    requires Sub(t, u).Leaf? && Avl(s) && Height(s) == 1
    ensures Avl(Grow(t, u, s)) && Height(Grow(t, u, s)) == Height(t) + 1
    ensures u != [] ==> Grow(t, u, s).Node? && Grow(t, u, s).balance == Sign(u[0])
    decreases |u|
  {
    if u != [] { GrowZeros(Child(t, u[0]), u[1..], s); }
  }

  lemma {:induction false} InOrderGrow<N, T>(t: Tree<N, T>, u: seq<bool>, s: Tree<N, T>)
    requires IsPath(t, u)
    ensures InOrder(Grow(t, u, s)) == InOrder(Put(t, u, s))
    ensures Nodes(Grow(t, u, s)) == Nodes(Put(t, u, s))
    decreases |u|
  {
    if u != [] { InOrderGrow(Child(t, u[0]), u[1..], s); }
  }

  // ----- rotations; d is the direction of the heavy child

  /** The heavy child x of y takes its place. */
  function Single<N, T>(y: Tree<N, T>, d: bool, bx: int, b: int): Tree<N, T>
    requires y.Node? && Child(y, d).Node?
  {
    var x := Child(y, d);
    Join(d, Child(x, d), x.node, x.data, bx, Join(d, Child(x, !d), y.node, y.data, b, Child(y, !d)))
  }

  /** The inner grandchild w of y takes its place. */
  function Double<N, T>(y: Tree<N, T>, d: bool): Tree<N, T>
    requires y.Node? && Child(y, d).Node? && Child(Child(y, d), !d).Node?
  {
    var x := Child(y, d);
    var w := Child(x, !d);
    var bx := if w.balance == -Sign(d) then Sign(d) else 0;
    var b := if w.balance == -Sign(d) || w.balance == 0 then 0 else -Sign(d);
    Join(d, Join(d, Child(x, d), x.node, x.data, bx, Child(w, d)), w.node, w.data, 0, Join(d, Child(w, !d), y.node, y.data, b, Child(y, !d)))
  }

  lemma SingleKeepsOrder<N, T>(y: Tree<N, T>, d: bool, bx: int, b: int)
    requires y.Node? && Child(y, d).Node?
    ensures InOrder(Single(y, d, bx, b)) == InOrder(y) && Nodes(Single(y, d, bx, b)) == Nodes(y)
  {
  }

  lemma ReplaceChild<N, T>(y: Tree<N, T>, d: bool, c: Tree<N, T>)
    requires y.Node? && InOrder(c) == InOrder(Child(y, d)) && Nodes(c) == Nodes(Child(y, d))
    ensures InOrder(WithChild(y, d, c)) == InOrder(y) && Nodes(WithChild(y, d, c)) == Nodes(y)
  {
  }

  /** A double rotation is two single ones, up to balance factors. */
  lemma DoubleKeepsOrder<N, T>(y: Tree<N, T>, d: bool)
    requires y.Node? && Child(y, d).Node? && Child(Child(y, d), !d).Node?
    ensures InOrder(Double(y, d)) == InOrder(y) && Nodes(Double(y, d)) == Nodes(y)
  {
    var x := Child(y, d);
    var w := Child(x, !d);
    var bx := if w.balance == -Sign(d) then Sign(d) else 0;
    var b := if w.balance == -Sign(d) || w.balance == 0 then 0 else -Sign(d);
    var x' := Single(x, !d, 0, bx);
    SingleKeepsOrder(x, !d, 0, bx);
    ReplaceChild(y, d, x');
    var y' := WithChild(y, d, x');
    SingleKeepsOrder(y', d, 0, b);
    hide InOrder, Nodes;
    assert Double(y, d) == Single(y', d, 0, b);
  }

  /** Subtrees in order and a balance factor that is exact, of a node that may be out of balance by two. */
  ghost predicate Heavy<N, T>(y: Tree<N, T>, d: bool) {
    && y.Node? && Avl(y.left) && Avl(y.right)
    && y.balance == Height(y.right) - Height(y.left) == 2 * Sign(d)
  }

  /** The rotation chosen by the balance factor of the heavy child. */
  function Rebalance<N, T>(y: Tree<N, T>, d: bool): Tree<N, T>
    requires y.Node? && Child(y, d).Node?
    requires Child(y, d).balance == -Sign(d) ==> Child(Child(y, d), !d).Node?
  {
    var b := Child(y, d).balance;
    if b == -Sign(d) then Double(y, d)
    else if b == 0 then Single(y, d, -Sign(d), Sign(d))
    else Single(y, d, 0, 0)
  }

  /** Rebalancing gives an AVL tree; its height is one less, unless the heavy child was balanced. */
  lemma RebalanceIsAvl<N, T>(y: Tree<N, T>, d: bool)
    requires Heavy(y, d)
    ensures Child(y, d).Node? && (Child(y, d).balance == -Sign(d) ==> Child(Child(y, d), !d).Node?)
    ensures Avl(Rebalance(y, d)) && InOrder(Rebalance(y, d)) == InOrder(y) && Nodes(Rebalance(y, d)) == Nodes(y)
    ensures Height(Rebalance(y, d)) == Height(y) - (if Child(y, d).balance == 0 then 0 else 1)
  {
    var x := Child(y, d);
    if x.balance == -Sign(d) {
      DoubleIsAvl(y, d);
      DoubleKeepsOrder(y, d);
    } else {
      SingleIsAvl(y, d);
      SingleKeepsOrder(y, d, 0, 0);
      SingleKeepsOrder(y, d, -Sign(d), Sign(d));
    }
    hide InOrder, Nodes, Single, Double;
  }

  lemma HeightOver<N, T>(t: Tree<N, T>, d: bool)
    requires t.Node?
    ensures Height(t) == 1 + Max(Height(Child(t, d)), Height(Child(t, !d)))
  {
  }

  /** What an AVL tree says of its children, seen from direction d. */
  lemma AvlParts<N, T>(t: Tree<N, T>, d: bool)
    requires Avl(t)
    ensures t.Leaf? ==> Height(t) == 0
    ensures t.Node? ==>
      && Avl(Child(t, d)) && Avl(Child(t, !d)) && Height(t) == 1 + Max(Height(Child(t, d)), Height(Child(t, !d)))
      && -1 <= t.balance <= 1
      && t.balance == if d then Height(Child(t, d)) - Height(Child(t, !d)) else Height(Child(t, !d)) - Height(Child(t, d))
  {
  }

  lemma JoinIsAvl<N, T>(d: bool, near: Tree<N, T>, n: N, x: T, b: int, far: Tree<N, T>)
    requires Avl(near) && Avl(far) && -1 <= b <= 1
    requires b == if d then Height(near) - Height(far) else Height(far) - Height(near)
    ensures Avl(Join(d, near, n, x, b, far)) && Height(Join(d, near, n, x, b, far)) == 1 + Max(Height(near), Height(far))
  {
  }

  lemma SingleIsAvl<N, T>(y: Tree<N, T>, d: bool)
    requires Heavy(y, d) && Child(y, d).Node? && Child(y, d).balance != -Sign(d)
    ensures var b := Child(y, d).balance;
      var r := if b == 0 then Single(y, d, -Sign(d), Sign(d)) else Single(y, d, 0, 0);
      Avl(r) && Height(r) == Height(y) - (if b == 0 then 0 else 1)
  {
  }

  lemma DoubleIsAvl<N, T>(y: Tree<N, T>, d: bool)
    requires Heavy(y, d) && Child(y, d).Node? && Child(y, d).balance == -Sign(d)
    ensures Child(Child(y, d), !d).Node?
    ensures Avl(Double(y, d)) && Height(Double(y, d)) == Height(y) - 1
  {
    hide Avl, Height;
    var x := Child(y, d);
    AvlParts(x, d);
    var w := Child(x, !d);
    AvlParts(w, d);
    HeightOver(y, d);
    var bx := if w.balance == -Sign(d) then Sign(d) else 0;
    var b := if w.balance == -Sign(d) || w.balance == 0 then 0 else -Sign(d);
    JoinIsAvl(d, Child(x, d), x.node, x.data, bx, Child(w, d));
    JoinIsAvl(d, Child(w, !d), y.node, y.data, b, Child(y, !d));
    JoinIsAvl(d, Join(d, Child(x, d), x.node, x.data, bx, Child(w, d)), w.node, w.data, 0, Join(d, Child(w, !d), y.node, y.data, b, Child(y, !d)));
  }
}
