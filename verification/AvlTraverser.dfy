/** Traversers: a stack of ancestors, trusted while the generation stands. true is avl_t_next, false avl_t_prev. */
module AvlTraverser {
  import opened Orders
  import opened Options
  import opened AvlTree
  import opened AvlOrder
  import opened AvlShape
  import opened AvlInsert
  import opened AvlTable
  import opened AvlOrderWalk

  /** The stack and the node of a traverser are those of path x in t. */
  ghost predicate Placed<T>(t: HeapTree<T>, node: AvlNode<T>, stack: seq<AvlNode?<T>>, x: seq<bool>) {
    IsPath(t, x) && Sub(t, x).Node? && Sub(t, x).node == node && stack == Ancestors(t, x)
  }

  /** A traverser on a node of the table may rely on its stack while it has the table's generation. */
  ghost predicate Trusted<T>(t: HeapTree<T>, current: nat, node: AvlNode<T>, stack: seq<AvlNode?<T>>, generation: nat, x: seq<bool>) {
    && node in Nodes(t) && generation <= current
    && (generation == current ==> Placed(t, node, stack, x))
  }

  lemma {:induction false} ExtendsKeepsPath<N, T>(t: Tree<N, T>, t': Tree<N, T>, x: seq<bool>)
    requires Extends(t, t') && IsPath(t, x) && Sub(t, x).Node?
    ensures IsPath(t', x) && Sub(t', x).Node? && Sub(t', x).node == Sub(t, x).node && Ancestors(t', x) == Ancestors(t, x)
    decreases |x|
  {
    if x != [] { ExtendsKeepsPath(Child(t, x[0]), Child(t', x[0]), x[1..]); }
  }

  /** Insertions and deletions of other items, as many as there may be, leave a traverser as trustworthy as it was. */
  lemma {:induction false} ChangesKeepTrust<T>(trees: seq<HeapTree<T>>, generations: seq<nat>,
                                               node: AvlNode<T>, stack: seq<AvlNode?<T>>, generation: nat, x: seq<bool>)
    requires |trees| == |generations| > 0
    requires forall i :: 0 <= i < |trees| - 1 ==> Change(trees[i], generations[i], trees[i + 1], generations[i + 1])
    requires forall i :: 0 <= i < |trees| ==> node in Nodes(trees[i])
    requires Trusted(trees[0], generations[0], node, stack, generation, x)
    ensures Trusted(trees[|trees| - 1], generations[|trees| - 1], node, stack, generation, x)
    decreases |trees|
  {
    if |trees| > 1 {
      assert Change(trees[0], generations[0], trees[0 + 1], generations[0 + 1]);
      if generation == generations[1] { ExtendsKeepsPath(trees[0], trees[1], x); }
      ChangesKeepTrust(trees[1..], generations[1..], node, stack, generation, x);
    }
  }

  lemma EdgeOfAll<N, T>(t: Tree<N, T>, d: bool, p: seq<bool>)
    requires t.Node? && p == [] + EdgePath(Sub(t, []), d)
    ensures IsPath(t, p) && Sub(t, p).Node? && InOrder(t) != []
    ensures Sub(t, p).data == InOrder(t)[if d then |InOrder(t)| - 1 else 0]
  {
    assert p == EdgePath(t, d);
    EdgeIsLast(t, d);
    PlaceOf(t, p);
  }

  lemma EdgeOn<N, T>(s: Tree<N, T>, p: seq<bool>, d: bool)
    requires s.Node?
    ensures Child(s, d).Node? ==> (p + [d]) + EdgePath(Child(s, d), d) == p + EdgePath(s, d)
    ensures Child(s, d).Leaf? ==> p + EdgePath(s, d) == p
  {
  }

  /** The search for the item at the end of path x follows x. */
  lemma OnTheWay<N, T(!new)>(cmp: (T, T) -> int, t: Tree<N, T>, x: seq<bool>, i: nat)
    requires Order(cmp) && Sorted(cmp, InOrder(t)) && IsPath(t, x) && Sub(t, x).Node? && i <= |x|
    ensures IsPath(t, x[..i]) && Sub(t, x[..i]).Node?
    ensures i == |x| ==> x[..i] == x
    ensures i < |x| ==>
      && cmp(Sub(t, x).data, Sub(t, x[..i]).data) != 0
      && (cmp(Sub(t, x).data, Sub(t, x[..i]).data) > 0 <==> x[i])
      && x[..i + 1] == x[..i] + [x[i]] && Child(Sub(t, x[..i]), x[i]).Node?
  {
    if i < |x| {
      PathIsSearch(cmp, t, x, i);
      assert x == x[..i] + x[i..];
      PathSplit(t, x[..i], x[i..]);
    } else {
      assert x[..i] == x;
    }
  }

  /** The place next to i in direction d. */
  function Neighbour(i: int, d: bool): int {
    if d then i + 1 else i - 1
  }

  lemma NextPlace<N, T>(t: Tree<N, T>, x: seq<bool>, y: seq<bool>, d: bool)
    requires IsPath(t, x) && Sub(t, x).Node? && IsPath(t, y) && Sub(t, y).Node? && Beyond(t, y, d) == Beyond(t, x, d) - 1
    ensures var next := Neighbour(Beyond(t, x, false), d);
      0 <= next < |InOrder(t)| && InOrder(t)[next] == Sub(t, y).data
  {
    PlaceOf(t, x);
    PlaceOf(t, y);
  }

  lemma LastPlace<N, T>(t: Tree<N, T>, x: seq<bool>, d: bool)
    requires IsPath(t, x) && Sub(t, x).Node? && Beyond(t, x, d) == 0
    ensures !(0 <= Neighbour(Beyond(t, x, false), d) < |InOrder(t)|)
  {
    PlaceOf(t, x);
  }

  class AvlTraverser<T(0, !new)> {
    const table: AvlTable<T>
    var node: AvlNode?<T>
    const stack: array<AvlNode?<T>>
    var height: nat
    var generation: nat
    /** The path to the node, when the stack is up to date. */
    ghost var path: seq<bool>

    ghost predicate Valid()
      reads this, stack, table, Nodes(table.whole)
    {
      && table.Valid() && stack.Length == MAX_HEIGHT && height <= stack.Length
      && (node != null ==> Trusted(table.whole.left, table.generation, node, stack[..height], generation, path))
    }

    /** On top of a valid table, a traverser on no node. */
    constructor (table: AvlTable<T>)
      requires table.Valid()
      ensures Valid() && node == null && this.table == table
    {
      this.table := table;
      node, height, generation := null, 0, table.generation;
      stack := new AvlNode?<T>[MAX_HEIGHT];
    }

    /** The table and its tree as a walk needs them; x is the walk's node, p its path, stack[..k] the way to it. */
    ghost predicate Walking(x: AvlNode<T>, k: nat, p: seq<bool>)
      reads stack, table, Nodes(table.whole)
    {
      && table.Valid() && Height(table.whole.left) <= MAX_HEIGHT + 1 && MAX_HEIGHT == stack.Length && k <= stack.Length
      && Placed(table.whole.left, x, stack[..k], p)
    }

    lemma WalkLinks(x: AvlNode<T>, k: nat, p: seq<bool>)
      requires Walking(x, k, p)
      ensures k == |p| <= stack.Length && x.data == Sub(table.whole.left, p).data && x in Nodes(table.whole.left)
      ensures forall d :: x.Link(d) == Root(Child(Sub(table.whole.left, p), d))
      ensures forall d :: Child(Sub(table.whole.left, p), d).Node? ==> k < stack.Length
    {
      table.NodeAt(p, x);
      AvlSub(table.whole.left, p);
      SubNodes(table.whole.left, p);
    }

    /** Pushes x and goes to its child in direction d. */
    method Descend(x: AvlNode<T>, k: nat, d: bool, ghost p: seq<bool>) returns (c: AvlNode<T>)
      requires Walking(x, k, p) && Child(Sub(table.whole.left, p), d).Node?
      modifies stack
      ensures Walking(c, k + 1, p + [d]) && Sub(table.whole.left, p + [d]) == Child(Sub(table.whole.left, p), d)
    {
      NodesAllocated(table.whole);
      WalkLinks(x, k, p);
      AncestorsStep(table.whole.left, p, d);
      BeforeStep(table.whole.left, p, d);
      hide Height, Nodes, Ancestors;
      stack[k] := x;
      assert stack[..k + 1] == stack[..k] + [x];
      c := x.Link(d);
    }

    /** Goes from x in direction d as far as possible, pushing what it passes. */
    method Edge(x0: AvlNode<T>, k0: nat, d: bool, ghost p0: seq<bool>) returns (x: AvlNode<T>, k: nat, ghost p: seq<bool>)
      requires Walking(x0, k0, p0)
      modifies stack
      ensures p == p0 + EdgePath(Sub(table.whole.left, p0), d) && Walking(x, k, p)
    {
      NodesAllocated(table.whole);
      ghost var t := table.whole.left;
      x, k, p := x0, k0, p0;
      hide Height, Nodes, Ancestors, Shape, Avl, Sorted, Order, InOrder, Sub, IsPath, EdgePath;
      WalkLinks(x, k, p);
      while x.Link(d) != null
        invariant Walking(x, k, p) && p + EdgePath(Sub(t, p), d) == p0 + EdgePath(Sub(t, p0), d)
        invariant x.Link(d) == Root(Child(Sub(t, p), d))
        decreases Sub(t, p)
      {
        x := Descend(x, k, d, p);
        EdgeOn(Sub(t, p), p, d);
        k, p := k + 1, p + [d];
        WalkLinks(x, k, p);
      }
      EdgeOn(Sub(t, p), p, d);
    }

    /** Selects the last node in direction d. */
    method Select(d: bool) returns (r: Option<T>)
      requires Valid() && Height(table.whole.left) <= MAX_HEIGHT + 1
      modifies this`node, this`height, this`generation, this`path, stack
      ensures Valid() && generation == table.generation
      ensures table.Items() == [] ==> node == null && r.None?
      ensures table.Items() != [] ==>
        && node != null && r == Some(node.data)
        && node.data == table.Items()[if d then |table.Items()| - 1 else 0]
    {
      hide Height, Avl, Sorted, Order, EdgePath, Beyond;
      NodesAllocated(table.whole);
      ghost var t := table.whole.left;
      table.RootAt();
      height := 0;
      generation := table.generation;
      node := table.head.Link(false);
      if node == null {
        return None;
      }
      path := [];
      var x;
      hide Nodes, Ancestors, Shape, InOrder, Sub, IsPath;
      x, height, path := Edge(node, 0, d, []);
      node := x;
      WalkLinks(x, height, path);
      EdgeOfAll(t, d, path);
      r := Some(x.data);
    }

    /** Searches for the current node from the root and rebuilds the stack. */
    method Refresh()
      requires Valid() && Height(table.whole.left) <= MAX_HEIGHT + 1
      modifies this`generation, this`height, this`path, stack
      ensures Valid() && generation == table.generation
      ensures node != null ==> Walking(node, height, path)
    {
      hide Height, Ancestors, Avl, Sorted, Order, InOrder, Sub, IsPath, Nodes, Shape;
      NodesAllocated(table.whole);
      ghost var t := table.whole.left;
      generation := table.generation;
      if node == null {
        return;
      }
      ghost var x := PathTo(t, node);
      table.NodeAt(x, node);
      table.RootAt();
      var i: AvlNode?<T> := table.head.Link(false);
      height := 0;
      WalkStart(x);
      assert x[..0] == [];
      while i != node
        invariant height <= |x| && i != null && Walking(i, height, x[..height])
        invariant generation == table.generation
        decreases |x| - height
      {
        WalkLinks(i, height, x[..height]);
        OnTheWay(table.cmp, t, x, height);
        i := Descend(i, height, table.cmp(node.data, i.data) > 0, x[..height]);
        height := height + 1;
      }
      OnTheWay(table.cmp, t, x, height);
      WalkLinks(i, height, x[..height]);
      EqualsItself(table.cmp, node.data);
      path := x;
    }

    lemma WalkStart(x: seq<bool>)
      requires table.Valid() && Height(table.whole.left) <= MAX_HEIGHT + 1 && MAX_HEIGHT == stack.Length
      requires IsPath(table.whole.left, x) && Sub(table.whole.left, x).Node?
      ensures table.whole.left.Node? && Walking(table.whole.left.node, 0, [])
    {
    }

    /** What is popped is the parent, and which of its links led here. */
    lemma Popped(x: AvlNode<T>, k: nat, p: seq<bool>, v: seq<bool>, c: bool, d: bool)
      requires Walking(x, k, p) && p == v + [c]
      ensures k > 0 && stack[k - 1] != null && Walking(stack[k - 1], k - 1, v)
      ensures x == stack[k - 1].Link(d) <==> c == d
    {
      var t := table.whole.left;
      PathSplit(t, v, [c]);
      AncestorsStep(t, v, c);
      assert stack[..k][k - 1] == stack[k - 1];
      assert stack[..k - 1] == stack[..k][..k - 1];
      ThroughSentinel(table.whole, v);
      ShapeSub(table.head, table.whole, [false] + v);
      assert [c][1..] == [];
      Unpack(stack[k - 1], Sub(t, v), c);
      UnpackRoot(x, Child(Sub(t, v), c));
      ShapeRoot(stack[k - 1].Link(!c), Child(Sub(t, v), !c));
    }

    /** Pops until a step in the other direction has been taken back. */
    method Climb(x0: AvlNode<T>, k0: nat, d: bool, ghost p: seq<bool>) returns (x: AvlNode?<T>, k: nat)
      requires Walking(x0, k0, p) && Child(Sub(table.whole.left, p), d).Leaf?
      ensures k <= |p| && (x == null ==> Beyond(table.whole.left, p, d) == 0)
      ensures x != null ==>
        && k < |p| && Walking(x, k, p[..k])
        && Beyond(table.whole.left, p[..k], d) == Beyond(table.whole.left, p, d) - 1
    {
      hide Height, Nodes, Ancestors, Shape, Avl, Sorted, Order, InOrder, Sub, IsPath, Beyond;
      ghost var t := table.whole.left;
      x, k := x0, k0;
      WalkLinks(x, k, p);
      assert p[..k] == p;
      while true
        invariant k <= |p| && x != null && Walking(x, k, p[..k])
        invariant forall i :: k <= i < |p| ==> p[i] == d
        decreases k
      {
        if k == 0 {
          StraightIsLast(t, p, d);
          return null, 0;
        }
        var y := x;
        k := k - 1;
        assert p[..k + 1] == p[..k] + [p[k]];
        Popped(y, k + 1, p[..k + 1], p[..k], p[k], d);
        x := stack[k];
        if y != x.Link(d) {
          assert p == p[..k] + [!d] + p[k + 1..];
          StepUp(t, p[..k], p[k + 1..], d);
          return;
        }
      }
    }

    lemma Arrived(x: AvlNode<T>, k: nat, p: seq<bool>)
      requires Walking(x, k, p) && node == x && height == k && path == p && generation == table.generation
      ensures Valid()
    {
      WalkLinks(x, k, p);
    }

    /** The current item's place in order. */
    ghost function Place(): int
      requires Valid() && node != null && Walking(node, height, path)
      reads this, stack, table, Nodes(table.whole)
    {
      Beyond(table.whole.left, path, false)
    }

    /** One step in direction d and then as far as possible the other way. */
    method GoDown(x0: AvlNode<T>, k0: nat, d: bool, ghost p0: seq<bool>) returns (x: AvlNode<T>, k: nat, ghost p: seq<bool>)
      requires Walking(x0, k0, p0) && Child(Sub(table.whole.left, p0), d).Node?
      modifies stack
      ensures Walking(x, k, p) && Beyond(table.whole.left, p, d) == Beyond(table.whole.left, p0, d) - 1
    {
      NodesAllocated(table.whole);
      hide Height, Nodes, Ancestors, Shape, Avl, Sorted, Order, InOrder, Sub, IsPath, Beyond, EdgePath;
      StepDown(table.whole.left, p0, d);
      x := Descend(x0, k0, d, p0);
      x, k, p := Edge(x, k0 + 1, !d, p0 + [d]);
      assert p == p0 + ([d] + EdgePath(Child(Sub(table.whole.left, p0), d), !d));
    }

    /** The neighbour below the current node. */
    method StepIn(d: bool) returns (r: Option<T>)
      requires Valid() && node != null && Walking(node, height, path) && generation == table.generation
      requires Child(Sub(table.whole.left, path), d).Node?
      modifies this`node, this`height, this`path, stack
      ensures Valid() && node != null && r == Some(node.data)
      ensures var next := Neighbour(old(Place()), d);
        0 <= next < |table.Items()| && node.data == table.Items()[next]
    {
      NodesAllocated(table.whole);
      hide Height, Nodes, Ancestors, Shape, Avl, Sorted, Order, InOrder, Sub, IsPath, Beyond, EdgePath, Trusted;
      ghost var was, p := path, path;
      var x;
      x, height, p := GoDown(node, height, d, path);
      WalkLinks(x, height, p);
      NextPlace(table.whole.left, was, p, d);
      path := p;
      node := x;
      Arrived(x, height, p);
      r := Some(x.data);
    }

    /** The neighbour above the current node, if there is one. */
    method StepOut(d: bool) returns (r: Option<T>)
      requires Valid() && node != null && Walking(node, height, path) && generation == table.generation
      requires Child(Sub(table.whole.left, path), d).Leaf?
      modifies this`node, this`height, this`path
      ensures Valid()
      ensures var next := Neighbour(old(Place()), d);
        && (0 <= next < |table.Items()| ==> node != null && r == Some(node.data) && node.data == table.Items()[next])
        && (!(0 <= next < |table.Items()|) ==> node == null && r.None?)
    {
      NodesAllocated(table.whole);
      hide Height, Nodes, Ancestors, Shape, Avl, Sorted, Order, InOrder, Sub, IsPath, Beyond, EdgePath;
      var x, k := Climb(node, height, d, path);
      if x == null {
        LastPlace(table.whole.left, path, d);
        node, height := null, 0;
        return None;
      }
      WalkLinks(x, k, path[..k]);
      NextPlace(table.whole.left, path, path[..k], d);
      path := path[..k];
      node, height := x, k;
      Arrived(x, k, path);
      r := Some(x.data);
    }

    /** The neighbour of the current item, when the stack is up to date. */
    method StepFresh(d: bool) returns (r: Option<T>)
      requires Valid() && node != null && Walking(node, height, path) && generation == table.generation
      modifies this`node, this`height, this`path, stack
      ensures Valid() && 0 <= old(Place()) < |table.Items()| && table.Items()[old(Place())] == old(node).data
      ensures var next := Neighbour(old(Place()), d);
        && (0 <= next < |table.Items()| ==> node != null && r == Some(node.data) && node.data == table.Items()[next])
        && (!(0 <= next < |table.Items()|) ==> node == null && r.None?)
    {
      hide Height, Nodes, Ancestors, Shape, Avl, Sorted, Order, InOrder, Sub, IsPath, Beyond, EdgePath, Trusted;
      PlaceOf(table.whole.left, path);
      WalkLinks(node, height, path);
      if node.Link(d) != null {
        r := StepIn(d);
      } else {
        r := StepOut(d);
      }
    }

    /** The neighbour of the current item in direction d; from no node, the first item in that direction. The
        table may have been changed since the traverser was last used, if its current item was not removed. */
    method Step(d: bool) returns (r: Option<T>, ghost at: int)
      requires Valid() && Height(table.whole.left) <= MAX_HEIGHT + 1
      modifies this`node, this`height, this`generation, this`path, stack
      ensures Valid() && generation == table.generation
      ensures old(node) == null ==> at == if d then -1 else |table.Items()|
      ensures old(node) != null ==> 0 <= at < |table.Items()| && table.Items()[at] == old(node).data
      ensures var next := Neighbour(at, d);
        && (0 <= next < |table.Items()| ==> node != null && r == Some(node.data) && node.data == table.Items()[next])
        && (!(0 <= next < |table.Items()|) ==> node == null && r.None?)
    {
      NodesAllocated(table.whole);
      if generation != table.generation {
        Refresh();
      }
      hide Height, Nodes, Ancestors, Shape, Avl, Sorted, Order, InOrder, Sub, IsPath, Beyond, EdgePath, Trusted;
      if node == null {
        at := if d then -1 else |table.Items()|;
        r := Select(!d);
        return;
      }
      at := Place();
      r := StepFresh(d);
    }
  }
}
