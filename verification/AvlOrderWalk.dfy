/** Steps from node to node: how many items lie beyond a node in a direction; true is towards greater items. */
module AvlOrderWalk {
  import opened Orders
  import opened AvlTree
  import opened AvlOrder

  /** The number of items of t beyond the node at x in direction d. */
  function Beyond<N, T>(t: Tree<N, T>, x: seq<bool>, d: bool): nat
    requires IsPath(t, x) && Sub(t, x).Node?
  {
    if x == [] then |InOrder(Child(t, d))|
    else (if x[0] == d then 0 else 1 + |InOrder(Child(t, d))|) + Beyond(Child(t, x[0]), x[1..], d)
  }

  /** The node at x has as many items before it as its place in order. */
  lemma {:induction false} PlaceOf<N, T>(t: Tree<N, T>, x: seq<bool>)
    requires IsPath(t, x) && Sub(t, x).Node?
    ensures Beyond(t, x, false) + 1 + Beyond(t, x, true) == |InOrder(t)|
    ensures InOrder(t)[Beyond(t, x, false)] == Sub(t, x).data
    decreases |x|
  {
    if x != [] { PlaceOf(Child(t, x[0]), x[1..]); }
  }

  /** The way to the last node in direction d. */
  function EdgePath<N, T>(t: Tree<N, T>, d: bool): (z: seq<bool>)
    requires t.Node?
    ensures IsPath(t, z) && Sub(t, z).Node? && Child(Sub(t, z), d).Leaf?
  {
    if Child(t, d).Leaf? then [] else [d] + EdgePath(Child(t, d), d)
  }

  lemma {:induction false} EdgeIsLast<N, T>(t: Tree<N, T>, d: bool)
    requires t.Node?
    ensures Beyond(t, EdgePath(t, d), d) == 0
  {
    if Child(t, d).Node? { EdgeIsLast(Child(t, d), d); }
  }

  lemma {:induction false} EdgeStep<N, T>(t: Tree<N, T>, d: bool, n: nat)
    requires t.Node? && n <= |EdgePath(t, d)|
    ensures var z := EdgePath(t, d);
      && IsPath(t, z[..n]) && Sub(t, z[..n]).Node? && EdgePath(Sub(t, z[..n]), d) == z[n..]
      && (Child(Sub(t, z[..n]), d).Node? <==> n < |z|) && (n < |z| ==> z[n] == d)
    decreases n
  {
    var z := EdgePath(t, d);
    if n == 0 {
      assert z[..0] == [] && z[0..] == z;
    } else {
      EdgeStep(Child(t, d), d, n - 1);
      assert z[..n][1..] == z[1..][..n - 1] && z[1..][n - 1..] == z[n..];
    }
  }

  /** What lies beyond a node below x is what lies beyond it in x's subtree, and what lies beyond that. */
  lemma {:induction false} BeyondSplit<N, T>(t: Tree<N, T>, x: seq<bool>, u: seq<bool>, d: bool)
    requires IsPath(t, x) && Sub(t, x).Node? && IsPath(Sub(t, x), u) && Sub(Sub(t, x), u).Node?
    ensures IsPath(t, x + u) && Sub(t, x + u) == Sub(Sub(t, x), u)
    ensures Beyond(t, x + u, d) == Beyond(t, x, d) - |InOrder(Child(Sub(t, x), d))| + Beyond(Sub(t, x), u, d)
    decreases |x|
  {
    if x == [] {
      assert x + u == u;
    } else {
      assert (x + u)[1..] == x[1..] + u;
      BeyondSplit(Child(t, x[0]), x[1..], u, d);
    }
  }

  lemma BeyondChild<N, T>(t: Tree<N, T>, c: bool, u: seq<bool>, d: bool)
    requires t.Node? && IsPath(Child(t, c), u) && Sub(Child(t, c), u).Node?
    ensures IsPath(t, [c] + u) && Sub(t, [c] + u) == Sub(Child(t, c), u)
    ensures Beyond(t, [c] + u, d) == (if c == d then 0 else 1 + |InOrder(Child(t, d))|) + Beyond(Child(t, c), u, d)
  {
    assert ([c] + u)[1..] == u;
  }

  /** One step in direction d and then as far as possible the other way: the neighbour of the node at x. */
  lemma StepDown<N, T>(t: Tree<N, T>, x: seq<bool>, d: bool)
    requires IsPath(t, x) && Sub(t, x).Node? && Child(Sub(t, x), d).Node?
    ensures var u := [d] + EdgePath(Child(Sub(t, x), d), !d);
      && IsPath(t, x + u) && Sub(t, x + u).Node?
      && Sub(t, x + u) == Sub(Child(Sub(t, x), d), EdgePath(Child(Sub(t, x), d), !d))
      && Beyond(t, x + u, d) == Beyond(t, x, d) - 1
  {
    var s := Sub(t, x);
    var c := Child(s, d);
    var z := EdgePath(c, !d);
    EdgeIsLast(c, !d);
    PlaceOf(c, z);
    BeyondChild(s, d, z, d);
    BeyondSplit(t, x, [d] + z, d);
  }

  /** Back over steps in direction d, and over one step the other way: again the neighbour. */
  lemma StepUp<N, T>(t: Tree<N, T>, v: seq<bool>, u: seq<bool>, d: bool)
    requires IsPath(t, v + [!d] + u) && Sub(t, v + [!d] + u).Node? && Child(Sub(t, v + [!d] + u), d).Leaf?
    requires forall i :: 0 <= i < |u| ==> u[i] == d
    ensures IsPath(t, v) && Sub(t, v).Node? && Beyond(t, v, d) == Beyond(t, v + [!d] + u, d) - 1
  {
    assert v + [!d] + u == v + ([!d] + u);
    PathSplit(t, v, [!d] + u);
    var s := Sub(t, v);
    assert ([!d] + u)[1..] == u;
    StraightIsLast(Child(s, !d), u, d);
    BeyondChild(s, !d, u, d);
    BeyondSplit(t, v, [!d] + u, d);
  }

  lemma {:induction false} StraightIsLast<N, T>(t: Tree<N, T>, u: seq<bool>, d: bool)
    requires IsPath(t, u) && Sub(t, u).Node? && Child(Sub(t, u), d).Leaf?
    requires forall i :: 0 <= i < |u| ==> u[i] == d
    ensures Beyond(t, u, d) == 0
    decreases |u|
  {
    if u != [] { StraightIsLast(Child(t, u[0]), u[1..], d); }
  }

  // ----- finding a node again by its item

  /** Every node is at the end of a path. */
  lemma {:induction false} PathTo<N, T>(t: Tree<N, T>, n: N) returns (x: seq<bool>)
    requires n in Nodes(t)
    ensures IsPath(t, x) && Sub(t, x).Node? && Sub(t, x).node == n
  {
    if t.node == n {
      x := [];
    } else if n in Nodes(t.left) {
      x := PathTo(t.left, n);
      x := [false] + x;
    } else {
      x := PathTo(t.right, n);
      x := [true] + x;
    }
  }

  /** Comparing with the item at the end of a path gives the steps of the path. */
  lemma PathIsSearch<N, T(!new)>(cmp: (T, T) -> int, t: Tree<N, T>, x: seq<bool>, i: nat)
    requires Order(cmp) && Sorted(cmp, InOrder(t)) && IsPath(t, x) && Sub(t, x).Node? && i < |x|
    ensures IsPath(t, x[..i]) && Sub(t, x[..i]).Node?
    ensures var c := cmp(Sub(t, x).data, Sub(t, x[..i]).data); c != 0 && (c > 0 <==> x[i])
  {
    var v, u := x[..i], x[i + 1..];
    assert x == v + ([x[i]] + u);
    PathSplit(t, v, [x[i]] + u);
    var s := Sub(t, v);
    assert ([x[i]] + u)[1..] == u;
    BeyondChild(s, x[i], u, false);
    BeyondSplit(t, v, [x[i]] + u, false);
    var p, q := Beyond(t, v, false), Beyond(t, x, false);
    PlaceOf(t, v);
    PlaceOf(t, x);
    PlaceOf(Child(s, x[i]), u);
    PlaceOf(s, []);
    assert if x[i] then p < q else q < p;
    assert if x[i] then cmp(InOrder(t)[p], InOrder(t)[q]) < 0 else cmp(InOrder(t)[q], InOrder(t)[p]) < 0;
  }
}
