/** Deletion: splicing a node out of the tree, and what repairs the balance on the way back up. */
module AvlDelete {
  import opened AvlTree

  // ----- a tree that is AVL but for one subtree

  /** The height t would have if its subtree at w had height h. */
  function HoleHeight<N, T>(t: Tree<N, T>, w: seq<bool>, h: nat): nat
    requires IsPath(t, w)
  {
    if w == [] then h else 1 + Max(HoleHeight(Child(t, w[0]), w[1..], h), Height(Child(t, !w[0])))
  }

  /** t would be AVL if its subtree at w were an AVL tree of height h. */
  ghost predicate AvlHole<N, T>(t: Tree<N, T>, w: seq<bool>, h: nat)
    requires IsPath(t, w)
  {
    w == [] ||
    var c, o := Child(t, w[0]), Child(t, !w[0]);
    && AvlHole(c, w[1..], h) && Avl(o) && -1 <= t.balance <= 1
    && t.balance == (if w[0] then HoleHeight(c, w[1..], h) - Height(o) else Height(o) - HoleHeight(c, w[1..], h))
  }

  /** The subtree at w is an AVL tree, but one lower than the balance factors above it say. */
  ghost predicate Shrunk<N, T>(t: Tree<N, T>, w: seq<bool>)
    requires IsPath(t, w)
  {
    Avl(Sub(t, w)) && AvlHole(t, w, Height(Sub(t, w)) + 1)
  }

  lemma {:induction false} MakeHole<N, T>(t: Tree<N, T>, w: seq<bool>)
    requires IsPath(t, w) && Avl(t)
    ensures AvlHole(t, w, Height(Sub(t, w))) && HoleHeight(t, w, Height(Sub(t, w))) == Height(t)
    decreases |w|
  {
    if w != [] { MakeHole(Child(t, w[0]), w[1..]); }
  }

  lemma {:induction false} FillHole<N, T>(t: Tree<N, T>, w: seq<bool>, s: Tree<N, T>)
    requires IsPath(t, w) && AvlHole(t, w, Height(s)) && Avl(s)
    ensures Avl(Put(t, w, s)) && Height(Put(t, w, s)) == HoleHeight(t, w, Height(s))
    decreases |w|
  {
    if w != [] { FillHole(Child(t, w[0]), w[1..], s); }
  }

  /** What is in the hole does not matter. */
  lemma {:induction false} HoleIgnores<N, T>(t: Tree<N, T>, w: seq<bool>, s: Tree<N, T>, h: nat)
    requires IsPath(t, w)
    ensures IsPath(Put(t, w, s), w) && HoleHeight(Put(t, w, s), w, h) == HoleHeight(t, w, h)
    ensures AvlHole(Put(t, w, s), w, h) <==> AvlHole(t, w, h)
    decreases |w|
  {
    if w != [] { HoleIgnores(Child(t, w[0]), w[1..], s, h); }
  }

  /** A hole below a hole. */
  lemma {:induction false} HoleSplit<N, T>(t: Tree<N, T>, v: seq<bool>, u: seq<bool>, h: nat)
    requires IsPath(t, v) && IsPath(Sub(t, v), u)
    ensures IsPath(t, v + u)
    ensures HoleHeight(t, v + u, h) == HoleHeight(t, v, HoleHeight(Sub(t, v), u, h))
    ensures AvlHole(t, v + u, h) <==> AvlHole(t, v, HoleHeight(Sub(t, v), u, h)) && AvlHole(Sub(t, v), u, h)
    decreases |v|
  {
    if v == [] {
      assert v + u == u;
    } else {
      assert (v + u)[1..] == v[1..] + u;
      HoleSplit(Child(t, v[0]), v[1..], u, h);
    }
  }

  // ----- one step of the repair

  /** The node above the shrunken subtree with its balance factor brought up to date. */
  function Updated<N, T>(t: Tree<N, T>, v: seq<bool>, d: bool): Tree<N, T>
    requires IsPath(t, v) && Sub(t, v).Node?
  {
    Sub(t, v).(balance := Sub(t, v).balance - Sign(d))
  }

  lemma HoleBelow<N, T>(y: Tree<N, T>, d: bool, h: nat)
    requires y.Node?
    ensures IsPath(y, [d]) && HoleHeight(y, [d], h) == 1 + Max(h, Height(Child(y, !d)))
    ensures AvlHole(y, [d], h) ==> Avl(Child(y, !d)) && -1 <= y.balance <= 1
    ensures AvlHole(y, [d], h) ==> y.balance == (if d then h - Height(Child(y, !d)) else Height(Child(y, !d)) - h)
  {
    assert [d][1..] == [];
  }

  /** One node, the subtree in direction d of which has shrunk. */
  lemma UpdatedNode<N, T>(y: Tree<N, T>, d: bool)
    requires y.Node? && IsPath(y, [d]) && Avl(Child(y, d)) && AvlHole(y, [d], Height(Child(y, d)) + 1)
    ensures var b := y.balance - Sign(d);
      && Avl(Child(y, !d)) && b == Height(y.right) - Height(y.left)
      && (b == 0 || b == -Sign(d) || b == -2 * Sign(d))
      && HoleHeight(y, [d], Height(Child(y, d)) + 1) == (if b == 0 then Height(y) + 1 else Height(y))
  {
    hide AvlHole, HoleHeight, Avl, IsPath;
    HoleBelow(y, d, Height(Child(y, d)) + 1);
    if d { assert Height(y) == 1 + Max(Height(y.left), Height(y.right)); }
    hide Height;
  }

  lemma SubOne<N, T>(t: Tree<N, T>, d: bool)
    requires IsPath(t, [d])
    ensures t.Node? && Sub(t, [d]) == Child(t, d)
  {
    assert [d][1..] == [];
  }

  lemma SameHeight<N, T>(t: Tree<N, T>, balance: int)
    requires t.Node?
    ensures Height(t.(balance := balance)) == Height(t)
  {
  }

  lemma UpdatedIs<N, T>(t: Tree<N, T>, v: seq<bool>, d: bool)
    requires IsPath(t, v) && Sub(t, v).Node? && IsPath(t, v + [d]) && Shrunk(t, v + [d])
    ensures var y := Updated(t, v, d);
      && Sub(t, v + [d]) == Child(y, d)
      && Avl(y.left) && Avl(y.right) && y.balance == Height(y.right) - Height(y.left)
      && (y.balance == 0 || y.balance == -Sign(d) || y.balance == -2 * Sign(d))
      && AvlHole(t, v, if y.balance == 0 then Height(y) + 1 else Height(y))
  {
    hide AvlHole, HoleHeight, Sub, Avl, Height, IsPath;
    PathSplit(t, v, [d]);
    SubOne(Sub(t, v), d);
    HoleSplit(t, v, [d], Height(Sub(t, v + [d])) + 1);
    UpdatedNode(Sub(t, v), d);
    SameHeight(Sub(t, v), Sub(t, v).balance - Sign(d));
  }

  /** The three outcomes of a repair step: done, or the subtree one node up has shrunk. */
  lemma StepUpdated<N, T>(t: Tree<N, T>, v: seq<bool>, d: bool)
    requires IsPath(t, v) && Sub(t, v).Node? && IsPath(t, v + [d]) && Shrunk(t, v + [d])
    ensures var y := Updated(t, v, d); var t' := Put(t, v, y);
      && IsPath(t', v)
      && (y.balance == -Sign(d) ==> Avl(t'))
      && (y.balance == 0 ==> Shrunk(t', v))
      && (y.balance == -2 * Sign(d) ==> Heavy(y, !d) && AvlHole(t, v, Height(y)))
      && (y.balance == 0 || y.balance == -Sign(d) || y.balance == -2 * Sign(d))
  {
    hide AvlHole, HoleHeight, Put, IsPath, Height;
    UpdatedIs(t, v, d);
    var y := Updated(t, v, d);
    PutAgain(t, v, y, y);
    hide Sub;
    if y.balance == -Sign(d) {
      FillHole(t, v, y);
    } else {
      HoleIgnores(t, v, y, Height(y) + 1);
    }
  }

  lemma StepRotated<N, T>(t: Tree<N, T>, v: seq<bool>, y: Tree<N, T>, d: bool)
    requires IsPath(t, v) && Heavy(y, !d) && AvlHole(t, v, Height(y))
    ensures Child(y, !d).Node? && (Child(y, !d).balance == Sign(d) ==> Child(Child(y, !d), d).Node?)
    ensures var t' := Put(t, v, Rebalance(y, !d));
      && IsPath(t', v)
      && (if Child(y, !d).balance == 0 then Avl(t') else Shrunk(t', v))
  {
    hide Rebalance, AvlHole, HoleHeight, Put, IsPath, Height, Sub, Avl, InOrder, Nodes;
    RebalanceIsAvl(y, !d);
    var r := Rebalance(y, !d);
    PutAgain(t, v, r, r);
    if Child(y, !d).balance == 0 {
      FillHole(t, v, r);
    } else {
      HoleIgnores(t, v, r, Height(r) + 1);
    }
  }

  /** What one repair step makes of the node at v. */
  ghost function Repaired<N, T>(y: Tree<N, T>, d: bool): Tree<N, T>
    requires y.Node? && (y.balance == -2 * Sign(d) ==> Heavy(y, !d))
  {
    if y.balance == -2 * Sign(d) then RebalanceIsAvl(y, !d); Rebalance(y, !d) else y
  }

  /** Whether it ends the repair: the subtree at v has its old height. */
  predicate Ends<N, T>(y: Tree<N, T>, d: bool)
    requires y.Node? && (y.balance == -2 * Sign(d) ==> Child(y, !d).Node?)
  {
    y.balance == -Sign(d) || (y.balance == -2 * Sign(d) && Child(y, !d).balance == 0)
  }

  lemma StepRepairs<N, T>(t: Tree<N, T>, v: seq<bool>, d: bool)
    requires IsPath(t, v) && Sub(t, v).Node? && IsPath(t, v + [d]) && Shrunk(t, v + [d])
    ensures var y := Updated(t, v, d);
      && (y.balance == 0 || y.balance == -Sign(d) || y.balance == -2 * Sign(d))
      && (y.balance == -2 * Sign(d) ==> Heavy(y, !d) && Child(y, !d).Node?)
    ensures var y := Updated(t, v, d); var t' := Put(t, v, Repaired(y, d));
      && InOrder(t') == InOrder(t) && Nodes(Repaired(y, d)) == Nodes(Sub(t, v)) && IsPath(t', v)
      && (if Ends(y, d) then Avl(t') else Shrunk(t', v))
  {
    hide IsPath, Put, AvlHole, HoleHeight, Avl, Sub, Rebalance, Shrunk;
    StepUpdated(t, v, d);
    var y := Updated(t, v, d);
    if y.balance == -2 * Sign(d) {
      RebalanceIsAvl(y, !d);
      StepRotated(t, v, y, d);
    }
    hide Heavy;
    InOrderAt(t, v, Repaired(y, d));
    assert InOrder(y) == InOrder(Sub(t, v)) && Nodes(y) == Nodes(Sub(t, v));
  }

  // ----- splicing out a node

  /** The path to the least node. */
  function MinPath<N, T>(t: Tree<N, T>): (z: seq<bool>)
    requires t.Node?
    ensures IsPath(t, z) && Sub(t, z).Node? && Sub(t, z).left.Leaf?
  {
    if t.left.Leaf? then [] else [false] + MinPath(t.left)
  }

  /** The tree without its least node, balance factors as they were. */
  function DropMin<N, T>(t: Tree<N, T>): Tree<N, T>
    requires t.Node?
  {
    Put(t, MinPath(t), Sub(t, MinPath(t)).right)
  }

  lemma {:induction false} DropMinIs<N, T>(t: Tree<N, T>)
    requires t.Node?
    ensures InOrder(t) == [Sub(t, MinPath(t)).data] + InOrder(DropMin(t))
    ensures var s := Sub(t, MinPath(t));
      s.node in Nodes(t) && Nodes(t) == Nodes(DropMin(t)) + {s.node}
  {
    if !t.left.Leaf? {
      DropMinIs(t.left);
    }
  }

  lemma DropMinShrunk<N, T>(t: Tree<N, T>)
    requires t.Node? && Avl(t)
    ensures var z := MinPath(t); var h := Height(Sub(t, z).right) + 1;
      && IsPath(DropMin(t), z) && Sub(DropMin(t), z) == Sub(t, z).right && Avl(Sub(t, z).right)
      && AvlHole(DropMin(t), z, h) && HoleHeight(DropMin(t), z, h) == Height(t)
  {
    var z := MinPath(t);
    AvlSub(t, z);
    MakeHole(t, z);
    HoleIgnores(t, z, Sub(t, z).right, Height(Sub(t, z)));
    PutAgain(t, z, Sub(t, z).right, Leaf);
  }

  /** The subtree p without its root node: the root's successor takes its place, if it has one. */
  function Spliced<N, T>(p: Tree<N, T>): Tree<N, T>
    requires p.Node?
  {
    if p.right.Leaf? then p.left
    else var s := Sub(p.right, MinPath(p.right)); Node(p.left, s.node, s.data, p.balance, DropMin(p.right))
  }

  /** Where the subtree that lost a level then is. */
  function ShrunkAt<N, T>(p: Tree<N, T>): seq<bool>
    requires p.Node?
  {
    if p.right.Leaf? then [] else [true] + MinPath(p.right)
  }

  lemma SplicedInOrder<N, T>(p: Tree<N, T>)
    requires p.Node?
    ensures InOrder(p) == InOrder(p.left) + [p.data] + InOrder(p.right)
    ensures InOrder(Spliced(p)) == InOrder(p.left) + InOrder(p.right)
    ensures Nodes(p) == Nodes(Spliced(p)) + {p.node}
  {
    if p.right.Node? {
      DropMinIs(p.right);
      hide DropMin;
      var s := Sub(p.right, MinPath(p.right));
      assert InOrder(p.left) + [s.data] + InOrder(DropMin(p.right)) == InOrder(p.left) + ([s.data] + InOrder(DropMin(p.right)));
    }
  }

  lemma HoleRight<N, T>(t: Tree<N, T>, z: seq<bool>, h: nat)
    requires t.Node? && IsPath(t.right, z) && AvlHole(t.right, z, h) && Avl(t.left)
    requires -1 <= t.balance <= 1 && t.balance == HoleHeight(t.right, z, h) - Height(t.left)
    ensures IsPath(t, [true] + z) && AvlHole(t, [true] + z, h) && Sub(t, [true] + z) == Sub(t.right, z)
    ensures HoleHeight(t, [true] + z, h) == 1 + Max(HoleHeight(t.right, z, h), Height(t.left))
  {
    assert ([true] + z)[1..] == z;
  }

  lemma SplicedShrunk<N, T>(p: Tree<N, T>)
    requires p.Node? && Avl(p)
    ensures var s, u := Spliced(p), ShrunkAt(p);
      && IsPath(s, u) && Shrunk(s, u) && HoleHeight(s, u, Height(Sub(s, u)) + 1) == Height(p)
  {
    if p.right.Node? {
      SplicedBelow(p);
      hide Spliced, ShrunkAt, AvlHole, HoleHeight, Avl, Height, Sub, IsPath, Shrunk;
    }
  }

  lemma AvlNodeIs<N, T>(p: Tree<N, T>)
    requires p.Node? && Avl(p)
    ensures Avl(p.left) && Avl(p.right) && -1 <= p.balance <= 1 && p.balance == Height(p.right) - Height(p.left)
    ensures Height(p) == 1 + Max(Height(p.left), Height(p.right))
  {
  }

  lemma SplicedBelow<N, T>(p: Tree<N, T>)
    requires p.Node? && Avl(p) && p.right.Node?
    ensures var s, u := Spliced(p), ShrunkAt(p);
      && IsPath(s, u) && Shrunk(s, u) && HoleHeight(s, u, Height(Sub(s, u)) + 1) == Height(p)
  {
    hide DropMin, MinPath, AvlHole, HoleHeight, Avl, Height, Sub, IsPath;
    AvlNodeIs(p);
    DropMinShrunk(p.right);
    var z := MinPath(p.right);
    HoleRight(Spliced(p), z, Height(Sub(p.right, z).right) + 1);
  }

  /** Splicing the node at w out of an AVL tree shrinks one subtree and leaves the rest in balance. */
  lemma SpliceShrinks<N, T>(t: Tree<N, T>, w: seq<bool>)
    requires IsPath(t, w) && Sub(t, w).Node? && Avl(t)
    ensures var p := Sub(t, w); var t' := Put(t, w, Spliced(p));
      && IsPath(t', w + ShrunkAt(p)) && Shrunk(t', w + ShrunkAt(p))
      && InOrder(t) == Before(t, w) + InOrder(p.left) + [p.data] + InOrder(p.right) + After(t, w)
      && InOrder(t') == Before(t, w) + InOrder(p.left) + InOrder(p.right) + After(t, w)
  {
    hide Spliced, ShrunkAt, InOrder, AvlHole, HoleHeight, Put, Sub, IsPath, Before, After, Height, Avl;
    var p := Sub(t, w);
    var s, u := Spliced(p), ShrunkAt(p);
    AvlSub(t, w);
    MakeHole(t, w);
    SplicedShrunk(p);
    SplicedInOrder(p);
    PutAgain(t, w, s, s);
    HoleIgnores(t, w, s, Height(p));
    HoleSplit(Put(t, w, s), w, u, Height(Sub(s, u)) + 1);
    PathSplit(Put(t, w, s), w, u);
    InOrderAt(t, w, s);
    var a, b := Before(t, w), After(t, w);
    assert a + (InOrder(p.left) + [p.data] + InOrder(p.right)) + b == a + InOrder(p.left) + [p.data] + InOrder(p.right) + b;
    assert a + (InOrder(p.left) + InOrder(p.right)) + b == a + InOrder(p.left) + InOrder(p.right) + b;
  }
}
