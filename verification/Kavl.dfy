/** The tree of kavl.h: an AVL tree of nodes that the caller supplies, which keeps the size of every subtree and
    tells ranks. */
module Kavl {
  import opened Orders
  import opened AvlTree
  import opened AvlOrder
  import opened AvlShape
  import opened AvlInsert
  import opened AvlDelete
  import opened AvlSplice
  import opened AvlTable
  import opened AvlBounds
  import opened KavlSizes
  import opened KavlSteps

  class KavlTree<T(0, !new)> {
    const cmp: (T, T) -> int
    /** Stands for the pointer to the root: its left link is the root. */
    const head: AvlNode<T>
    /** The size fields of the nodes. */
    var sizes: Sizes<T>
    /** The tree from the sentinel down. */
    ghost var whole: HeapTree<T>

    ghost predicate Valid()
      reads this, Nodes(whole)
    {
      && Order(cmp) && whole.Node? && whole.node == head && whole.right.Leaf? && Shape(head, whole)
      && Avl(whole.left) && Sorted(cmp, InOrder(whole.left)) && Sized(sizes, whole.left)
    }

    /** The items in order. */
    ghost function Items(): seq<T>
      requires whole.Node?
      reads this
    {
      InOrder(whole.left)
    }

    constructor (cmp: (T, T) -> int)
      requires Order(cmp)
      ensures Valid() && Items() == [] && this.cmp == cmp && fresh(Nodes(whole))
    {
      this.cmp := cmp;
      sizes := map[];
      var nothing: T := *;
      head := new AvlNode(nothing);
      new;
      whole := Node(Leaf, head, head.data, head.balance, Leaf);
    }

    lemma RootIs()
      requires Valid()
      ensures head.Link(false) == Root(whole.left) && head in Nodes(whole) && Before(whole.left, []) == []
    {
      ShapeRoot(head.Link(false), whole.left);
    }

    /** The node of an equal item, and how many items are not greater than the given one. */
    method Find(item: T) returns (p: AvlNode?<T>, cnt: nat)
      requires Valid()
      ensures p != null <==> Has(cmp, Items(), item)
      ensures p != null ==> p in Nodes(whole) && cmp(item, p.data) == 0
      ensures cnt == Rank(cmp, Items(), item)
    {
      hide Shape, Nodes, Sorted, Order, InOrder, Leads, Avl, Has, Rank, Sized, Count, Before, After;
      ghost var x := [];
      RootIs();
      SoughtStart(cmp, whole.left, item);
      p, cnt := head.Link(false), 0;
      while p != null
        invariant Valid() && Sought(cmp, whole.left, item, x) && p == Root(Sub(whole.left, x))
        invariant cnt == |Before(whole.left, x)|
        decreases Sub(whole.left, x)
      {
        NodeOnPath(head, sizes, whole, x, p);
        var c := cmp(item, p.data);
        CountStep(whole.left, x, c > 0);
        if c >= 0 {
          cnt := cnt + ChildSize(sizes, p, false) + 1;
        }
        if c == 0 {
          RankAt(cmp, whole.left, x, item);
          HasAt(cmp, whole.left, x, item);
          return;
        }
        SoughtStep(cmp, whole.left, item, x);
        x := x + [c > 0];
        p := p.Link(c > 0);
      }
      RankMissing(cmp, whole.left, x, item);
      SoughtMissing(cmp, whole.left, item, x);
    }

    /** What the search of an insertion keeps: the walk is at the end of x, the steps from the last unbalanced
        node are in da, the nodes passed in pa, and cnt items lie before. */
    ghost predicate Searching(item: T, x: seq<bool>, m: nat, q: AvlNode<T>, z: AvlNode<T>, y: AvlNode?<T>, dir: bool,
                              da: array<bool>, pa: array<AvlNode?<T>>, cnt: nat)
      reads this, Nodes(whole), da, pa
    {
      && Valid() && Descent(cmp, whole, item, x, m)
      && q == Above(whole, x).node && dir == ([false] + x)[|x|]
      && y == Root(Sub(whole.left, x[..m])) && z == Above(whole, x[..m]).node
      && |x| - m <= da.Length && da[..|x| - m] == x[m..]
      && |x| <= pa.Length && pa[..|x|] == Ancestors(whole.left, x) && cnt == |Before(whole.left, x)|
    }

    lemma SearchStart(item: T, da: array<bool>, pa: array<AvlNode?<T>>)
      requires Valid()
      ensures Searching(item, [], 0, head, head, head.Link(false), false, da, pa, 0)
    {
      hide Shape, Nodes, Sorted, Order, Leads, Avl, Sized;
      RootIs();
      DescentStart(cmp, whole, item);
    }

    lemma SearchIs(item: T, x: seq<bool>, m: nat, q: AvlNode<T>, z: AvlNode<T>, y: AvlNode?<T>, dir: bool,
                   da: array<bool>, pa: array<AvlNode?<T>>, cnt: nat)
      requires Searching(item, x, m, q, z, y, dir, da, pa, cnt)
      ensures Valid() && Descent(cmp, whole, item, x, m) && cnt == |Before(whole.left, x)| && Leads(cmp, whole.left, x, item)
    {
    }

    lemma SearchPath(item: T, x: seq<bool>, m: nat, q: AvlNode<T>, z: AvlNode<T>, y: AvlNode?<T>, dir: bool,
                     da: array<bool>, pa: array<AvlNode?<T>>, cnt: nat)
      requires Searching(item, x, m, q, z, y, dir, da, pa, cnt)
      ensures q == Above(whole, x).node && dir == ([false] + x)[|x|]
      ensures y == Root(Sub(whole.left, x[..m])) && z == Above(whole, x[..m]).node
      ensures |x| - m <= da.Length && da[..|x| - m] == x[m..]
      ensures |x| <= pa.Length && pa[..|x|] == Ancestors(whole.left, x)
    {
    }

    /** Goes on from p in direction d, remembering it. */
    method PassNode(item: T, p: AvlNode<T>, d: bool, q0: AvlNode<T>, z0: AvlNode<T>, y0: AvlNode?<T>, ghost dir0: bool, k0: nat, len: nat,
                    da: array<bool>, pa: array<AvlNode?<T>>, ghost cnt: nat, ghost x: seq<bool>, ghost m0: nat)
        returns (z: AvlNode<T>, y: AvlNode?<T>, k: nat, ghost m: nat)
      requires Searching(item, x, m0, q0, z0, y0, dir0, da, pa, cnt) && Sub(whole.left, x).Node? && p == Sub(whole.left, x).node
      requires cmp(item, p.data) != 0 && d == (cmp(item, p.data) > 0) && k0 == |x| - m0 && len == |x|
      requires Height(whole.left) <= da.Length && Height(whole.left) <= pa.Length
      modifies da, pa
      ensures Searching(item, x + [d], m, p, z, y, d, da, pa, cnt + if d then Count(Sub(whole.left, x).left) + 1 else 0)
      ensures k == |x| + 1 - m && Sub(whole.left, x + [d]) == Child(Sub(whole.left, x), d)
    {
      hide Shape, Nodes, Sorted, Order, InOrder, Leads, Avl, Height, Sized, Count, Before, Ancestors, LastUnbalanced;
      NodesAllocated(whole);
      NodeOnPath(head, sizes, whole, x, p);
      CountStep(whole.left, x, d);
      AncestorsStep(whole.left, x, d);
      DescentStep(cmp, whole, item, x, m0);
      z, y, k, m := z0, y0, k0, m0;
      if p.balance != 0 {
        z, y, k, m := q0, p, 0, |x|;
      }
      da[k] := d;
      k := k + 1;
      pa[len] := p;
      assert pa[..|x| + 1] == pa[..|x|] + [p];
      assert (x + [d])[m..] == x[m..] + [d];
      assert da[..k] == da[..k - 1] + [d];
    }

    /** The search of an insertion. */
    method Descend(item: T, da: array<bool>, pa: array<AvlNode?<T>>)
        returns (p: AvlNode?<T>, q: AvlNode<T>, z: AvlNode<T>, y: AvlNode?<T>, dir: bool, len: nat, cnt: nat, ghost x: seq<bool>, ghost m: nat)
      requires Valid() && Height(whole.left) <= da.Length && Height(whole.left) <= pa.Length
      modifies da, pa
      ensures Valid() && Descent(cmp, whole, item, x, m)
      ensures p == Root(Sub(whole.left, x)) && (p != null ==> cmp(item, p.data) == 0)
      ensures cnt == Rank(cmp, Items(), item) && len == |x|
      ensures p == null ==> Searching(item, x, m, q, z, y, dir, da, pa, cnt)
    {
      hide Shape, Nodes, Sorted, Order, InOrder, Leads, Avl, Height, Sized, Count, Rank, Before, After, Ancestors, Searching;
      x, m, len, cnt := [], 0, 0, 0;
      RootIs();
      DescentStart(cmp, whole, item);
      NodesAllocated(whole);
      p, q, z, y, dir := head.Link(false), head, head, head.Link(false), false;
      var k := 0;
      SearchStart(item, da, pa);
      while p != null
        invariant Searching(item, x, m, q, z, y, dir, da, pa, cnt) && Valid() && Descent(cmp, whole, item, x, m)
        invariant p == Root(Sub(whole.left, x)) && len == |x| && k == |x| - m
        decreases Sub(whole.left, x)
      {
        SearchIs(item, x, m, q, z, y, dir, da, pa, cnt);
        NodeOnPath(head, sizes, whole, x, p);
        var c := cmp(item, p.data);
        ghost var before := cnt;
        if c >= 0 {
          cnt := cnt + ChildSize(sizes, p, false) + 1;
        }
        if c == 0 {
          RankAt(cmp, whole.left, x, item);
          return;
        }
        z, y, k, m := PassNode(item, p, c > 0, q, z, y, dir, k, len, da, pa, before, x, m);
        dir, len, x := c > 0, len + 1, x + [c > 0];
        q, p := p, p.Link(dir);
        SearchIs(item, x, m, q, z, y, dir, da, pa, cnt);
      }
      SearchIs(item, x, m, q, z, y, dir, da, pa, cnt);
      RankMissing(cmp, whole.left, x, item);
    }

    /** Makes the caller's node n a leaf below q. */
    method LinkNode(n: AvlNode<T>, q: AvlNode<T>, dir: bool, ghost x: seq<bool>)
      requires whole.Node? && whole.node == head && Shape(head, whole) && n !in Nodes(whole)
      requires IsPath(whole.left, x) && Sub(whole.left, x).Leaf?
      requires q == Above(whole, x).node && dir == ([false] + x)[|x|]
      modifies q, n
      ensures IsPath(whole, [false] + x) && Shape(head, Put(whole, [false] + x, NewNode(n, n.data)))
      ensures Nodes(Put(whole, [false] + x, NewNode(n, n.data))) == Nodes(whole) + {n}
    {
      hide Context, Put, Around, Shape;
      NodesAllocated(whole);
      ThroughSentinel(whole, x);
      ghost var w := [false] + x;
      assert w == w[..|x|] + [dir];
      AboveIn(whole, x);
      NodesSplit(whole, w, NewNode(n, n.data));
      Focus(head, whole, w);
      n.balance := 0;
      n.link0, n.link1 := null, null;
      LeafShape(n);
      ContextAbove(head, whole, w[..|x|], dir, null);
      Attach(head, whole, w[..|x|], q, dir, n, NewNode(n, n.data));
    }

    /** The balance factors and sizes after the new node has been linked at the end of x. */
    method SettleNode(z: AvlNode<T>, y: AvlNode<T>, n: AvlNode<T>, da: array<bool>, ghost x: seq<bool>, ghost m: nat, ghost item: T)
      requires whole.Node? && whole.node == head && n !in Nodes(whole)
      requires IsPath(whole.left, x) && m < |x| && IsPath(whole.left, x[..m]) && Sub(whole.left, x[..m]).Node?
      requires IsPath(Sub(whole.left, x[..m]), x[m..])
      requires IsPath(whole, [false] + x) && Shape(head, Put(whole, [false] + x, NewNode(n, item)))
      requires y == Sub(whole.left, x[..m]).node && z == Above(whole, x[..m]).node
      requires |x| - m <= da.Length && da[..|x| - m] == x[m..]
      requires GrownWell(Sub(whole.left, x[..m]), Grown(whole.left, x, m, NewNode(n, item)), x[m])
      requires Rotatable(Grown(whole.left, x, m, NewNode(n, item)), x[m])
      requires Sized(sizes, Put(whole.left, x, NewNode(n, item)))
      modifies this`sizes, Nodes(Put(whole, [false] + x, NewNode(n, item)))
      ensures Shape(head, whole.(left := Inserted(whole.left, x, m, NewNode(n, item))))
      ensures Sized(sizes, Inserted(whole.left, x, m, NewNode(n, item)))
    {
      hide Shape, Nodes, Above, Put, GrownWell, Settled, Sub, IsPath, Grow, Sized, Simple, Count;
      ProbePaths(whole, x, m);
      ThroughSentinel(whole, x);
      ThroughSentinel(whole, x[..m]);
      assert x[m..][0] == x[m];
      SimplePut(head, whole, x, NewNode(n, item));
      SizedPart(sizes, whole.left, x, m, NewNode(n, item));
      var after := SettleSizes(sizes, head, z, y, n, da, whole, ([false] + x)[..m], ([false] + x)[m], x[m..], NewNode(n, item));
      SizedInserted(sizes, after, whole.left, x, m, NewNode(n, item));
      ghost var t := whole.(left := Inserted(whole.left, x, m, NewNode(n, item)));
      assert Put(whole, [false] + x[..m], Settled(Grown(whole.left, x, m, NewNode(n, item)), x[m])) == t;
      NodesAllocated(t);
      sizes := after;
      assert Shape(head, t);
    }

    /** Every node on the way to the new one counts it. */
    method CountAlong(pa: array<AvlNode?<T>>, len: nat, n: AvlNode<T>, ghost item: T, ghost x: seq<bool>)
      requires whole.Node? && IsPath(whole.left, x) && Sub(whole.left, x).Leaf? && len == |x| <= pa.Length
      requires pa[..len] == Ancestors(whole.left, x) && Simple(whole.left) && n !in Nodes(whole.left)
      requires n in sizes && sizes[n] == 1 && Sized(sizes, whole.left)
      modifies this`sizes
      ensures Sized(sizes, Put(whole.left, x, NewNode(n, item)))
    {
      hide *;
      ghost var before := sizes;
      assert before[n := 1] == before;
      assert pa[0..len] == pa[..len];
      sizes := ShiftPath(sizes, pa, 0, len, 1, whole.left, x);
      SizedLinked(before, sizes, whole.left, x, n, item);
    }

    /** Inserts n where the search has ended. */
    method InsertAt(n: AvlNode<T>, q: AvlNode<T>, z: AvlNode<T>, y: AvlNode?<T>, dir: bool, len: nat, ghost cnt: nat,
                    da: array<bool>, pa: array<AvlNode?<T>>, ghost x: seq<bool>, ghost m: nat)
      requires Searching(n.data, x, m, q, z, y, dir, da, pa, cnt) && Sub(whole.left, x).Leaf? && len == |x| && n !in Nodes(whole)
      modifies this`sizes, this`whole, Nodes(whole), n
      ensures Valid() && !old(Has(cmp, Items(), n.data)) && Nodes(whole) == old(Nodes(whole)) + {n}
      ensures cnt <= |old(Items())| && Items() == old(Items()[..cnt]) + [n.data] + old(Items()[cnt..])
    {
      hide Shape, Nodes, Order, Sorted, InOrder, Leads, LastUnbalanced, Avl, Height, Has, Above, Put, GrownWell, Rotatable, Settled,
        Inserted, Sub, IsPath, Before, After, Grown, Sized, Simple, Count, PathNodes, Ancestors, Searching;
      NodesAllocated(whole);
      SearchIs(n.data, x, m, q, z, y, dir, da, pa, cnt);
      SearchPath(n.data, x, m, q, z, y, dir, da, pa, cnt);
      AboveIn(whole, x);
      RootIs();
      ShapeSimple(head, whole);
      SizedNew(sizes, whole, n);
      LinkNode(n, q, dir, x);
      sizes := sizes[n := 1];
      if y == null {
        ProbeEmpty(cmp, whole, n.data, x, m, n);
        SizedAlone(sizes, n, n.data);
        WholeNodes(whole, NewNode(n, n.data), n);
        whole := whole.(left := NewNode(n, n.data));
        return;
      }
      ProbeDone(cmp, whole, n.data, x, m, n);
      WholeNodes(whole, Inserted(whole.left, x, m, NewNode(n, n.data)), n);
      CountAlong(pa, len, n, n.data, x);
      SettleNode(z, y, n, da, x, m, n.data);
      whole := whole.(left := Inserted(whole.left, x, m, NewNode(n, n.data)));
    }

    /** Inserts the node n and returns it, or returns the node of an equal item already there; cnt is how many
        items were not greater. */
    method Insert(n: AvlNode<T>) returns (r: AvlNode<T>, cnt: nat)
      requires Valid() && n !in Nodes(whole) && |Items()| < MAX_SIZE
      modifies this`sizes, this`whole, Nodes(whole), n
      ensures Valid() && r in Nodes(whole) && cmp(n.data, r.data) == 0
      ensures cnt == Rank(cmp, old(Items()), n.data)
      ensures old(Has(cmp, Items(), n.data)) ==> r in old(Nodes(whole)) && whole == old(whole) && sizes == old(sizes)
      ensures !old(Has(cmp, Items(), n.data)) ==>
        && r == n && Nodes(whole) == old(Nodes(whole)) + {n}
        && cnt <= |old(Items())| && Items() == old(Items()[..cnt]) + [n.data] + old(Items()[cnt..])
    {
      hide Shape, Nodes, Order, Sorted, InOrder, Leads, Avl, Height, Has, Put, Sub, IsPath, Sized, Count, Rank, Searching;
      DepthFits(whole.left);
      NodesAllocated(whole);
      EqualsItself(cmp, n.data);
      var da, pa := new bool[MAX_DEPTH], new AvlNode?<T>[MAX_DEPTH];
      var p, q, z, y, dir, len;
      ghost var x, m;
      p, q, z, y, dir, len, cnt, x, m := Descend(n.data, da, pa);
      if p != null {
        NodeOnPath(head, sizes, whole, x, p);
        HasAt(cmp, whole.left, x, n.data);
        return p, cnt;
      }
      InsertAt(n, q, z, y, dir, len, cnt, da, pa, x, m);
      r := n;
    }

    /** The search of an erasure, which pushes every node it passes; cnt is the rank of what it finds. */
    method Seek(item: T, pa: array<AvlNode?<T>>, da: array<bool>) returns (p: AvlNode?<T>, k: nat, cnt: nat, ghost x: seq<bool>)
      requires Valid() && pa.Length == da.Length && 1 + Entries(cmp, whole.left, item) <= pa.Length
      modifies pa, da
      ensures Valid()
      ensures p == null ==> cnt == 0 && !Has(cmp, Items(), item)
      ensures p != null ==>
        && Sought(cmp, whole.left, item, x) && Sub(whole.left, x).Node? && p == Sub(whole.left, x).node
        && cmp(item, p.data) == 0 && p.data == Sub(whole.left, x).data && k == 1 + |x| && Stacked(pa, da, k, whole, [false] + x)
        && cnt == |Before(whole.left, x)| + Count(Sub(whole.left, x).left) + 1
    {
      hide Shape, Nodes, Sorted, Order, InOrder, Avl, Leads, Has, Stacked, Ancestors, Sized, Count, Before;
      NodesAllocated(whole);
      RootIs();
      SoughtStart(cmp, whole.left, item);
      x := [];
      PushHead(head, pa, da, whole);
      p, k, cnt := head.Link(false), 1, 0;
      while p != null
        invariant Valid() && Sought(cmp, whole.left, item, x) && p == Root(Sub(whole.left, x))
        invariant k == 1 + |x| && Stacked(pa, da, k, whole, [false] + x) && cnt == |Before(whole.left, x)|
        decreases Sub(whole.left, x)
      {
        NodeOnPath(head, sizes, whole, x, p);
        var c := cmp(item, p.data);
        if c == 0 {
          cnt := cnt + ChildSize(sizes, p, false) + 1;
          return;
        }
        SoughtStep(cmp, whole.left, item, x);
        CountStep(whole.left, x, c > 0);
        if c > 0 {
          cnt := cnt + ChildSize(sizes, p, false) + 1;
        }
        PushNode(pa, da, k, p, c > 0, whole, x);
        k := k + 1;
        x := x + [c > 0];
        p := p.Link(c > 0);
      }
      SoughtMissing(cmp, whole.left, item, x);
      cnt := 0;
    }

    /** The size stores of an erasure, before and after p is unlinked. */
    method UnlinkSized(p: AvlNode<T>, pa: array<AvlNode?<T>>, da: array<bool>, k0: nat, ghost x: seq<bool>) returns (k: nat)
      requires Valid() && IsPath(whole.left, x) && Sub(whole.left, x).Node? && p == Sub(whole.left, x).node
      requires k0 == 1 + |x| && Stacked(pa, da, k0, whole, [false] + x) && k0 + |ShrunkAt(Sub(whole.left, x))| <= pa.Length
      modifies this`sizes, pa, da, Nodes(whole)
      ensures var s := Sub(whole.left, x); var left := Put(whole.left, x, Spliced(s));
        && Shape(head, whole.(left := left)) && Nodes(whole.(left := left)) == Nodes(whole) - {p} && Sized(sizes, left)
        && Stacked(pa, da, k, whole.(left := left), [false] + (x + ShrunkAt(s)))
    {
      hide Shape, Nodes, Order, Sorted, InOrder, Avl, Put, Sub, IsPath, Stacked, Spliced, ShrunkAt, Sized, Simple, Count, PathNodes, Ancestors;
      NodesAllocated(whole);
      ghost var t, s := whole.left, Sub(whole.left, x);
      var hasRight := p.link1 != null;
      TopLinks(head, whole, x, p);
      StackOfPath(pa, da, k0, whole, x);
      var first := ShiftPath(sizes, pa, 1, k0, -1, t, x);
      SizedBelow(sizes, first, t, x);
      WithoutNode(whole, x, Spliced(s));
      k := Unlink(head, p, pa, da, k0, whole, [false] + x);
      var after := first;
      if hasRight {
        StackParts(pa, da, k0, k, whole, [false] + x, s);
        after := SpliceSizes(first, p, pa, k0, k, s);
      } else {
        SplicedLeft(first, s);
      }
      SizedErased(sizes, first, after, t, x, Spliced(s));
      ghost var t' := whole.(left := Put(t, x, Spliced(s)));
      NodesAllocated(t');
      sizes := after;
      assert Shape(head, t');
    }

    /** The repair loop with the sizes: k0 entries are on the stack, the first of them the sentinel. */
    method RepairAllSized(pa: array<AvlNode?<T>>, da: array<bool>, k0: nat, ghost t: HeapTree<T>, ghost u: seq<bool>) returns (ghost r: HeapTree<T>)
      requires t.Node? && Stacked(pa, da, k0, t, [false] + u) && Shape(head, t)
      requires IsPath(t.left, u) && Shrunk(t.left, u) && Sized(sizes, t.left)
      modifies this`sizes, Nodes(t)
      ensures Shape(head, t.(left := r)) && Avl(r) && InOrder(r) == InOrder(t.left) && Nodes(r) == Nodes(t.left) && Sized(sizes, r)
    {
      hide Shape, Stacked, Shrunk, InOrder, IsPath, Put, Sub, Repaired, Ends, Sized, Avl;
      NodesAllocated(t);
      r := t.left;
      ghost var w := u;
      RepairBegins(pa, da, k0, t, u);
      var k := k0 - 1;
      while k > 0
        invariant k == |w| && IsPath(r, w) && Shrunk(r, w) && Sized(sizes, r)
        invariant Stacked(pa, da, k + 1, t.(left := r), [false] + w) && Shape(head, t.(left := r))
        invariant InOrder(r) == InOrder(t.left) && Nodes(r) == Nodes(t.left)
      {
        ghost var v, d := w[..k - 1], w[k - 1];
        assert w == v + [d];
        RepairReady(t.(left := r), v, d);
        sizes := PassSizes(head, sizes, pa, da, k, t.(left := r), v, d);
        var done := RepairTop(head, pa, da, k, t.(left := r), [false] + v, d);
        r := Put(r, v, Repaired(Updated(r, v, d), d));
        if done {
          return;
        }
        w := v;
        k := k - 1;
      }
      assert w == [];
      RepairEnds(r);
    }

    /** Removes the node at the end of the path on the stack. */
    method Remove(p: AvlNode<T>, pa: array<AvlNode?<T>>, da: array<bool>, k0: nat, ghost x: seq<bool>, ghost at: nat)
      requires Valid() && IsPath(whole.left, x) && Sub(whole.left, x).Node? && p == Sub(whole.left, x).node
      requires k0 == 1 + |x| && Stacked(pa, da, k0, whole, [false] + x) && k0 + |ShrunkAt(Sub(whole.left, x))| <= pa.Length
      requires at == |Before(whole.left, x)| + |InOrder(Sub(whole.left, x).left)|
      modifies this`sizes, this`whole, pa, da, Nodes(whole)
      ensures Valid() && Nodes(whole) == old(Nodes(whole)) - {p}
      ensures at < |old(Items())| && old(Items())[at] == old(Sub(whole.left, x)).data
      ensures Items() == old(Items()[..at]) + old(Items()[at + 1..])
    {
      hide Shape, Nodes, Order, Sorted, InOrder, Avl, Put, Sub, IsPath, Stacked, Spliced, ShrunkAt, Shrunk, Sized, Before;
      DeleteDone(cmp, whole.left, x);
      ghost var s := Sub(whole.left, x);
      ghost var left := Put(whole.left, x, Spliced(s));
      var k := UnlinkSized(p, pa, da, k0, x);
      ghost var r := RepairAllSized(pa, da, k, whole.(left := left), x + ShrunkAt(s));
      SameNodesLeft(whole, r, left);
      whole := whole.(left := r);
    }

    /** Removes the node of an equal item and returns it, if there is one; cnt is how many items were not greater,
        or 0 if there is none. */
    method Erase(item: T) returns (r: AvlNode?<T>, cnt: nat)
      requires Valid() && |Items()| <= MAX_SIZE
      modifies this`sizes, this`whole, Nodes(whole)
      ensures Valid()
      ensures !old(Has(cmp, Items(), item)) ==> r == null && cnt == 0 && whole == old(whole) && sizes == old(sizes)
      ensures old(Has(cmp, Items(), item)) ==>
        && r != null && cmp(item, r.data) == 0 && cnt == Rank(cmp, old(Items()), item) && 1 <= cnt <= |old(Items())|
        && Items() == old(Items()[..cnt - 1]) + old(Items()[cnt..]) && old(Items())[cnt - 1] == r.data
        && Nodes(whole) == old(Nodes(whole)) - {r}
    {
      hide Shape, Nodes, Order, Sorted, InOrder, Avl, Height, Has, Sub, IsPath, Stacked, ShrunkAt, Sized, Before, Leads, Entries, Rank;
      DepthFits(whole.left);
      EntriesFit(cmp, whole.left, item);
      NodesAllocated(whole);
      var pa, da := new AvlNode?<T>[MAX_DEPTH], new bool[MAX_DEPTH];
      var k;
      ghost var x;
      r, k, cnt, x := Seek(item, pa, da);
      if r == null {
        return;
      }
      SoughtFound(cmp, whole.left, item, x);
      RankAt(cmp, whole.left, x, item);
      Remove(r, pa, da, k, x, cnt - 1);
    }

    /** The way to the first item, which is pushed and popped again. */
    method SeekFirst(pa: array<AvlNode?<T>>, da: array<bool>) returns (r: AvlNode<T>, k: nat, ghost y: seq<bool>)
      requires Valid() && Items() != [] && pa.Length == da.Length && Height(whole.left) < pa.Length
      modifies pa, da
      ensures Valid() && IsPath(whole.left, y) && Sub(whole.left, y).Node? && r == Sub(whole.left, y).node && r.data == Sub(whole.left, y).data
      ensures k == 1 + |y| && Stacked(pa, da, k, whole, [false] + y)
      ensures |Before(whole.left, y)| + |InOrder(Sub(whole.left, y).left)| == 0
    {
      hide Shape, Nodes, Order, Sorted, Avl, Height, Stacked, Sized, Before, Sub, IsPath;
      NodesAllocated(whole);
      RootIs();
      ghost var x: seq<bool> := [];
      PushHead(head, pa, da, whole);
      var p;
      r, p, k := head, head.Link(false), 1;
      LeftmostStart(whole.left);
      while p != null
        invariant Valid() && k == 1 + |x| && Stacked(pa, da, k, whole, [false] + x) && Leftmost(whole.left, x) && p == Root(Sub(whole.left, x))
        invariant x != [] ==> r == Above(whole, x).node
        invariant p == null ==> x != []
        decreases Sub(whole.left, x)
      {
        NodeOnPath(head, sizes, whole, x, p);
        LeftmostStep(whole, x);
        PushNode(pa, da, k, p, false, whole, x);
        k := k + 1;
        x := x + [false];
        r, p := p, p.Link(false);
      }
      LeftmostEnd(whole, x);
      y := x[..|x| - 1];
      StackTop(pa, da, k - 1, whole, [false] + y, false);
      k := k - 1;
      NodeOnPath(head, sizes, whole, y, r);
    }

    /** Removes the first item and returns its node. */
    method EraseFirst() returns (r: AvlNode<T>, cnt: nat)
      requires Valid() && 0 < |Items()| <= MAX_SIZE
      modifies this`sizes, this`whole, Nodes(whole)
      ensures Valid() && cnt == 1 && Nodes(whole) == old(Nodes(whole)) - {r}
      ensures r.data == old(Items())[0] && Items() == old(Items())[1..]
    {
      hide Shape, Nodes, Order, Sorted, Avl, Height, Stacked, ShrunkAt, Sized, Before, Sub, IsPath, InOrder;
      DepthFits(whole.left);
      NodesAllocated(whole);
      var pa, da := new AvlNode?<T>[MAX_DEPTH], new bool[MAX_DEPTH];
      var k;
      ghost var y;
      r, k, y := SeekFirst(pa, da);
      cnt := 1;
      FirstFits(whole.left, y);
      Remove(r, pa, da, k, y, 0);
    }
  }
}
