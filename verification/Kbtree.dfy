/** The B-tree: a root node, a minimum degree and a comparison. Keys are the keys in order; every method that
    changes the tree says what becomes of them and leaves a valid tree, in which all leaves are at one depth and
    every node but the root has between t - 1 and 2t - 1 keys. */
module Kbtree {
  import opened Options
  import opened Orders
  import opened BTree
  import opened BTreeSearch
  import opened BTreeRemoval
  import opened BTreeDeleted
  import opened BTreeHeap
  import opened BTreeDelete
  import opened BTreeInsert

  /** A root may have fewer keys than other nodes, but an internal root has one. */
  function Least(h: nat): nat {
    if h == 0 then 0 else 1
  }

  /** What a search knows below the root: the part of the key sequence before the subtree is less than k, the part
      after it greater. */
  ghost predicate Narrowed<N, K>(cmp: (K, K) -> int, whole: seq<K>, a: seq<K>, s: Tree<N, K>, h: nat, b: seq<K>, k: K) {
    Formed(s, h) && whole == a + Flat(s, h) + b && AllLess(cmp, a, k) && AllGreater(cmp, b, k)
  }

  lemma NarrowedFound<N, K(!new)>(cmp: (K, K) -> int, whole: seq<K>, a: seq<K>, s: Tree<N, K>, h: nat, b: seq<K>, k: K)
    requires Order(cmp) && SortedUp(cmp, whole) && Narrowed(cmp, whole, a, s, h, b, k) && s.keys != []
    requires Locate(cmp, s.keys, k).r == 0
    ensures var i := Locate(cmp, s.keys, k).i;
      0 <= i < |s.keys| && cmp(s.keys[i], k) == 0 && s.keys[i] in whole && Has(cmp, whole, k)
  {
    hide Order, SortedUp, Flat, Formed, Has, AllLess, AllGreater, Locate;
    MiddleSorted(cmp, a, Flat(s, h), b);
    KeysSorted(cmp, s, h);
    LocateIs(cmp, s.keys, k);
    var i := Locate(cmp, s.keys, k).i;
    KeyIn(s, h, i);
    assert s.keys[i] in whole;
    HasIn(cmp, whole, s.keys[i], k);
  }

  lemma MiddleSorted<K>(cmp: (K, K) -> int, a: seq<K>, m: seq<K>, b: seq<K>)
    requires SortedUp(cmp, a + m + b)
    ensures SortedUp(cmp, m)
  {
    SortedParts(cmp, a + m, b);
    SortedParts(cmp, a, m);
  }

  lemma HasIn<K>(cmp: (K, K) -> int, s: seq<K>, x: K, k: K)
    requires x in s && cmp(x, k) == 0
    ensures Has(cmp, s, k)
  {
  }

  lemma KeyIn<N, K>(s: Tree<N, K>, h: nat, i: nat)
    requires Formed(s, h) && i < |s.keys|
    ensures s.keys[i] in Flat(s, h)
  {
    if h > 0 { FlatAtKey(s, h, i); }
  }

  /** One step down. */
  lemma NarrowedStep<N, K(!new)>(cmp: (K, K) -> int, whole: seq<K>, a: seq<K>, s: Tree<N, K>, h: nat, b: seq<K>, k: K, i: int)
    requires Order(cmp) && SortedUp(cmp, whole) && Narrowed(cmp, whole, a, s, h, b, k) && s.keys != [] && h > 0
    requires Locate(cmp, s.keys, k).r != 0 && i == Locate(cmp, s.keys, k).i + 1
    ensures 0 <= i < |s.kids| == |s.keys| + 1
    ensures Narrowed(cmp, whole, a + Before(s, h, i), s.kids[i], h - 1, After(s, h, i) + b, k)
  {
    hide Order, SortedUp, Flat, Before, After, Locate;
    MiddleSorted(cmp, a, Flat(s, h), b);
    KeysSorted(cmp, s, h);
    LocateIs(cmp, s.keys, k);
    KidFormed(s, h, i);
    hide Formed;
    SideKeys(cmp, s, h, i - 1, k);
    FlatAt(s, h, i);
    assert a + (Before(s, h, i) + Flat(s.kids[i], h - 1) + After(s, h, i)) + b == (a + Before(s, h, i)) + Flat(s.kids[i], h - 1) + (After(s, h, i) + b);
  }

  /** The end at a leaf without a hit. */
  lemma NarrowedMissing<N, K(!new)>(cmp: (K, K) -> int, whole: seq<K>, a: seq<K>, s: Tree<N, K>, b: seq<K>, k: K)
    requires Order(cmp) && SortedUp(cmp, whole) && Narrowed(cmp, whole, a, s, 0, b, k)
    requires s.keys == [] || Locate(cmp, s.keys, k).r != 0
    ensures var i := Locate(cmp, s.keys, k).i + 1;
      && whole == (a + s.keys[..i]) + (s.keys[i..] + b)
      && AllLess(cmp, a + s.keys[..i], k) && AllGreater(cmp, s.keys[i..] + b, k) && !Has(cmp, whole, k)
  {
    hide Order, SortedUp, Locate, AllLess, AllGreater, Has;
    assert Flat(s, 0) == s.keys && Formed(s, 0);
    hide Flat, Formed;
    MiddleSorted(cmp, a, s.keys, b);
    LeafSides(cmp, s.keys, k);
    var i := Locate(cmp, s.keys, k).i + 1;
    SplitMiddle(whole, a, s.keys, b, i);
    hide Narrowed;
    MissingBetween(cmp, a, s.keys[..i], s.keys[i..], b, k);
  }

  lemma SplitMiddle<K>(whole: seq<K>, a: seq<K>, m: seq<K>, b: seq<K>, i: nat)
    requires whole == a + m + b && i <= |m|
    ensures whole == (a + m[..i]) + (m[i..] + b)
  {
    assert m == m[..i] + m[i..];
  }

  /** Among lesser keys before and greater ones behind there is no hit. */
  lemma MissingBetween<K>(cmp: (K, K) -> int, a: seq<K>, l: seq<K>, u: seq<K>, b: seq<K>, k: K)
    requires AllLess(cmp, a, k) && AllLess(cmp, l, k) && AllGreater(cmp, u, k) && AllGreater(cmp, b, k)
    ensures AllLess(cmp, a + l, k) && AllGreater(cmp, u + b, k) && !Has(cmp, (a + l) + (u + b), k)
  {
    SidesAppend(cmp, a, l, k);
    SidesAppend(cmp, u, b, k);
    hide AllLess, AllGreater, Has;
    HasInside(cmp, a + l, [], u + b, k);
    NothingHas(cmp, k);
    assert (a + l) + [] + (u + b) == (a + l) + (u + b);
  }

  lemma SidesAppend<K>(cmp: (K, K) -> int, a: seq<K>, b: seq<K>, k: K)
    ensures AllLess(cmp, a, k) && AllLess(cmp, b, k) ==> AllLess(cmp, a + b, k)
    ensures AllGreater(cmp, a, k) && AllGreater(cmp, b, k) ==> AllGreater(cmp, a + b, k)
  {
  }

  lemma NothingHas<K>(cmp: (K, K) -> int, k: K)
    ensures !Has(cmp, [], k)
  {
  }

  lemma LeafSides<K(!new)>(cmp: (K, K) -> int, keys: seq<K>, k: K)
    requires Order(cmp) && SortedUp(cmp, keys) && (keys == [] || Locate(cmp, keys, k).r != 0)
    ensures var i := Locate(cmp, keys, k).i + 1; AllLess(cmp, keys[..i], k) && AllGreater(cmp, keys[i..], k)
  {
    hide Order, SortedUp, Locate;
    if keys != [] {
      LocateIs(cmp, keys, k);
      var i := Locate(cmp, keys, k).i + 1;
      assert forall j :: 0 <= j < i ==> cmp(keys[j], k) < 0;
      assert forall j :: i <= j < |keys| ==> cmp(keys[j], k) > 0;
    }
  }

  lemma RaiseFilled<N, K>(s: Tree<N, K>, T: nat, h: nat, lo: nat, lo': nat)
    requires T > 0 && Filled(s, T, h, lo) && lo' <= |s.keys|
    ensures Filled(s, T, h, lo')
  {
  }

  function LastOf<K>(s: seq<K>): Option<K> {
    if s == [] then None else Some(s[|s| - 1])
  }

  function FirstOf<K>(s: seq<K>): Option<K> {
    if s == [] then None else Some(s[0])
  }

  /** The keys next to kid i + 1, or next to that place in a leaf. */
  lemma EdgesBelow<N, K>(s: Tree<N, K>, h: nat, i: int, a: seq<K>, b: seq<K>)
    requires h > 0 && Formed(s, h) && -1 <= i < |s.keys|
    ensures LastOf(a + Before(s, h, i + 1)) == if i >= 0 then Some(s.keys[i]) else LastOf(a)
    ensures FirstOf(After(s, h, i + 1) + b) == if i + 1 < |s.keys| then Some(s.keys[i + 1]) else FirstOf(b)
  {
    NothingAfterLast(s, h);
    if i >= 0 { KeyEnds(s, h, i); }
    if i + 1 < |s.keys| { KeyEnds(s, h, i + 1); }
    hide Before, After, Formed, Flat;
    if i < 0 { assert a + [] == a; }
    if i + 1 == |s.keys| { assert [] + b == b; }
  }

  class Kbtree<K(!new)> {
    const cmp: (K, K) -> int
    const t: nat
    var root: KbNode<K>
    var nKeys: nat
    ghost var tree: HeapTree<K>
    ghost var height: nat

    ghost predicate Valid()
      reads this, Nodes(tree, height)
    {
      && t >= 2 && Order(cmp) && root == tree.node
      && Filled(tree, t, height, Least(height)) && Formed(tree, height)
      && Fits(tree, height) && Sep(tree, height)
      && SortedUp(cmp, Flat(tree, height)) && nKeys == |Flat(tree, height)|
    }

    /** The keys in order. */
    ghost function Keys(): seq<K>
      requires Formed(tree, height)
      reads this
    {
      Flat(tree, height)
    }

    constructor (cmp: (K, K) -> int, t: nat)
      requires Order(cmp) && t >= 2
      ensures Valid() && Keys() == [] && this.cmp == cmp && this.t == t
    {
      this.cmp, this.t := cmp, t;
      var r := new KbNode<K>(false, [], []);
      root, nKeys := r, 0;
      tree, height := Node(r, [], []), 0;
    }

    /** Where a search stands: at the root of a subtree outside which no key is equal to k. */
    ghost predicate At(x: KbNode<K>, k: K, s: HeapTree<K>, h: nat, a: seq<K>, b: seq<K>)
      requires Formed(tree, height)
      reads this, Nodes(s, h)
    {
      && x == s.node && Fits(s, h) && Sep(s, h) && Narrowed(cmp, Keys(), a, s, h, b, k)
      && t >= 2 && Filled(s, t, h, Least(h))
    }

    lemma AtRoot(k: K)
      requires Valid()
      ensures At(root, k, tree, height, [], [])
    {
      assert [] + Keys() + [] == Keys();
    }

    /** What can be read at x, and what is known after the search in it. */
    lemma Look(x: KbNode<K>, k: K, s: HeapTree<K>, h: nat, a: seq<K>, b: seq<K>)
      requires Order(cmp) && Formed(tree, height) && SortedUp(cmp, Keys()) && At(x, k, s, h, a, b)
      ensures x.keys == s.keys && x.isInternal == (h > 0) && SortedUp(cmp, s.keys) && Formed(s, h)
      ensures h > 0 ==> s.keys != []
      ensures var p := Locate(cmp, s.keys, k);
        && (p.i >= 0 && p.r == 0 ==> cmp(s.keys[p.i], k) == 0 && s.keys[p.i] in Keys() && Has(cmp, Keys(), k))
        && ((p.i < 0 || p.r != 0) && h == 0 ==> !Has(cmp, Keys(), k))
    {
      hide Flat, Filled, Formed, SortedUp, Order, Locate, Fits, Has, Sep;
      Local(s, h);
      MiddleSorted(cmp, a, Flat(s, h), b);
      KeysSorted(cmp, s, h);
      TopFilled(s, t, h, Least(h));
      var p := Locate(cmp, s.keys, k);
      if s.keys != [] && p.r == 0 {
        NarrowedFound(cmp, Keys(), a, s, h, b, k);
      } else if h == 0 {
        NarrowedMissing(cmp, Keys(), a, s, b, k);
      }
    }

    /** Going down to kid i. */
    lemma Down(x: KbNode<K>, k: K, s: HeapTree<K>, h: nat, a: seq<K>, b: seq<K>, i: int)
      requires Order(cmp) && Formed(tree, height) && SortedUp(cmp, Keys()) && At(x, k, s, h, a, b) && h > 0
      requires Locate(cmp, s.keys, k).r != 0 && i == Locate(cmp, s.keys, k).i + 1
      ensures 0 <= i <= |s.keys| && Formed(s, h) && i < |x.kids| && i < |s.kids|
      ensures At(x.kids[i], k, s.kids[i], h - 1, a + Before(s, h, i), After(s, h, i) + b)
    {
      hide Flat, Filled, Formed, SortedUp, Order, Locate, Fits, Has, Sep;
      TopFilled(s, t, h, Least(h));
      NarrowedStep(cmp, Keys(), a, s, h, b, k, i);
      KidLocal(s, h, i);
      KidFilled(s, t, h, Least(h), i);
      LooserFilled(s.kids[i], t, h - 1, t - 1, Least(h - 1));
    }

    /** The key equal to k, if there is one. */
    method Get(k: K) returns (r: Option<K>)
      requires Valid()
      ensures r.Some? <==> Has(cmp, Keys(), k)
      ensures r.Some? ==> cmp(r.value, k) == 0 && r.value in Keys()
    {
      hide Flat, Filled, Formed, SortedUp, Order, Locate, Fits, Has, Sep, At;
      NodesAllocated(tree, height);
      AtRoot(k);
      var x := root;
      ghost var s, h, a, b := tree, height, [], [];
      while true
        invariant Valid() && At(x, k, s, h, a, b)
        decreases h
      {
        NodesAllocated(s, h);
        Look(x, k, s, h, a, b);
        var i, c := FindInNode(cmp, x.keys, k);
        if i >= 0 && c == 0 {
          return Some(x.keys[i]);
        }
        if !x.isInternal {
          return None;
        }
        Down(x, k, s, h, a, b, i + 1);
        x := x.kids[i + 1];
        a, s, b, h := a + Before(s, h, i + 1), s.kids[i + 1], After(s, h, i + 1) + b, h - 1;
      }
    }

    /** The key equal to k, or the greatest key less and the least key greater. */
    method Interval(k: K) returns (lower: Option<K>, upper: Option<K>, ghost at: nat)
      requires Valid()
      ensures Has(cmp, Keys(), k) ==> lower.Some? && lower == upper && cmp(lower.value, k) == 0 && lower.value in Keys()
      ensures !Has(cmp, Keys(), k) ==>
        && at <= |Keys()| && AllLess(cmp, Keys()[..at], k) && AllGreater(cmp, Keys()[at..], k)
        && lower == LastOf(Keys()[..at]) && upper == FirstOf(Keys()[at..])
    {
      hide Flat, Filled, Formed, SortedUp, Order, Locate, Fits, Has, Sep, At, AllLess, AllGreater, Before, After;
      NodesAllocated(tree, height);
      AtRoot(k);
      lower, upper, at := None, None, 0;
      var x := root;
      ghost var s, h, a, b := tree, height, [], [];
      while true
        invariant Valid() && At(x, k, s, h, a, b) && lower == LastOf(a) && upper == FirstOf(b)
        decreases h
      {
        NodesAllocated(s, h);
        Look(x, k, s, h, a, b);
        var i, r := FindInNode(cmp, x.keys, k);
        if i >= 0 && r == 0 {
          return Some(x.keys[i]), Some(x.keys[i]), 0;
        }
        if i >= 0 {
          lower := Some(x.keys[i]);
        }
        if i < |x.keys| - 1 {
          upper := Some(x.keys[i + 1]);
        }
        if !x.isInternal {
          at := Ended(x, k, s, a, b, i);
          return;
        }
        Down(x, k, s, h, a, b, i + 1);
        EdgesBelow(s, h, i, a, b);
        x := x.kids[i + 1];
        a, s, b, h := a + Before(s, h, i + 1), s.kids[i + 1], After(s, h, i + 1) + b, h - 1;
      }
    }

    /** The place of a missing key, at the end of its search. */
    lemma Ended(x: KbNode<K>, k: K, s: HeapTree<K>, a: seq<K>, b: seq<K>, i: int) returns (at: nat)
      requires Order(cmp) && Formed(tree, height) && SortedUp(cmp, Keys()) && At(x, k, s, 0, a, b)
      requires i == Locate(cmp, s.keys, k).i && -1 <= i < |s.keys| && (i < 0 || Locate(cmp, s.keys, k).r != 0)
      ensures at <= |Keys()| && AllLess(cmp, Keys()[..at], k) && AllGreater(cmp, Keys()[at..], k)
      ensures LastOf(Keys()[..at]) == if i >= 0 then Some(s.keys[i]) else LastOf(a)
      ensures FirstOf(Keys()[at..]) == if i + 1 < |s.keys| then Some(s.keys[i + 1]) else FirstOf(b)
    {
      hide Flat, Filled, Formed, SortedUp, Order, Locate, Fits, Has, Sep, AllLess, AllGreater;
      NarrowedMissing(cmp, Keys(), a, s, b, k);
      at := |a + s.keys[..i + 1]|;
      assert Keys()[..at] == a + s.keys[..i + 1] && Keys()[at..] == s.keys[i + 1..] + b;
      if i < 0 { assert a + s.keys[..0] == a; }
      if i + 1 == |s.keys| { assert s.keys[i + 1..] + b == b; }
    }

    /** Inserts k, behind keys that are not greater and before keys that are not less. */
    method Put(k: K) returns (ghost at: nat)
      requires Valid()
      modifies this`root, this`nKeys, this`tree, this`height, Nodes(tree, height)
      ensures Valid() && forall n :: n in Nodes(tree, height) ==> n in old(Nodes(tree, height)) || fresh(n)
      ensures Fitting(cmp, old(Keys()), k, at) && Keys() == Inserted(old(Keys()), k, at)
    {
      hide Flat, Filled, Formed, SortedUp, Order, Fits, Sep, Fitting, Nodes;
      NodesAllocated(tree, height);
      RootLocal();
      TopFilled(tree, t, height, Least(height));
      nKeys := nKeys + 1;
      ghost var was := Keys();
      if |root.keys| == 2 * t - 1 {
        GrowRoot();
      }
      ghost var u;
      TopFilled(tree, t, height, Least(height));
      u, at := PutAux(cmp, t, root, k, tree, height, Least(height));
      InsertedSorted(cmp, was, k, at);
      InsertedLength(was, k, at);
      tree := u;
    }

    lemma RootLocal()
      requires Valid()
      ensures root.keys == tree.keys && root.isInternal == (height > 0) && root in Nodes(tree, height)
    {
      Local(tree, height);
    }

    lemma InsertedLength(s: seq<K>, k: K, at: nat)
      requires Fitting(cmp, s, k, at)
      ensures at <= |s| && |Inserted(s, k, at)| == |s| + 1
    {
    }

    /** A full root becomes the only kid of a new root, and is split. */
    method GrowRoot()
      requires t >= 2 && root == tree.node && |tree.keys| == 2 * t - 1 && Filled(tree, t, height, Least(height))
      requires Formed(tree, height) && Fits(tree, height) && Sep(tree, height)
      modifies this`root, this`tree, this`height, Nodes(tree, height)
      ensures root == tree.node && Filled(tree, t, height, 1) && height > 0 && |tree.keys| == 1
      ensures Formed(tree, height) && Fits(tree, height) && Sep(tree, height) && Flat(tree, height) == old(Flat(tree, height))
      ensures forall n :: n in Nodes(tree, height) ==> n in old(Nodes(tree, height)) || fresh(n)
    {
      hide Filled, Formed, Flat, Fits, AllFit, Sep, Nodes, AllNodes;
      NodesAllocated(tree, height);
      var s := new KbNode(true, [], [root]);
      ghost var v := Node(s, [], [tree]);
      AboveRoot(v, tree, height);
      root := s;
      ghost var z := Split(s, 0, t, v, height + 1);
      SplitIs(v, 0, t, z, height + 1, 0);
      tree, height := SplitTree(v, 0, t, z), height + 1;
      RaiseFilled(tree, t, height, 0, 1);
    }

    /** A new root above a full one. */
    lemma AboveRoot(v: HeapTree<K>, s: HeapTree<K>, h: nat)
      requires t >= 2 && v.keys == [] && v.kids == [s] && |s.keys| == 2 * t - 1
      requires Filled(s, t, h, Least(h)) && Formed(s, h) && Fits(s, h) && Sep(s, h)
      requires v.node !in Nodes(s, h) && v.node.isInternal && v.node.keys == [] && v.node.kids == [s.node]
      ensures Filled(v, t, h + 1, 0) && Formed(v, h + 1) && Fits(v, h + 1) && Sep(v, h + 1)
      ensures Flat(v, h + 1) == Flat(s, h) && Nodes(v, h + 1) == {v.node} + Nodes(s, h)
    {
      RaiseFilled(s, t, h, Least(h), t - 1);
      FlatsOne(s, h);
      NodesOne(s, h);
      FitOne(s, h);
      WeaveOne(Flat(s, h));
    }

    /** Takes out a key equal to k, which must be there. */
    method Del(k: K) returns (m: K, ghost mid: seq<K>, ghost at: nat)
      requires Valid() && Has(cmp, Keys(), k)
      modifies this`root, this`nKeys, this`tree, this`height, Nodes(tree, height)
      ensures Valid() && Nodes(tree, height) <= old(Nodes(tree, height))
      ensures cmp(m, k) == 0 && Overwritten(cmp, old(Keys()), mid, k) && Cut(mid, Keys(), m, at)
    {
      hide Flat, Filled, Formed, SortedUp, Order, Fits, Sep, Nodes, Has, Cut, Overwritten, BTreeRemoval.Del;
      NodesAllocated(tree, height);
      RootLocal();
      CanDeleteRoot(k);
      ghost var u := BTreeRemoval.Del(cmp, tree, t, height, k, Key).0;
      DelSizes(cmp, tree, t, height, k, Key);
      DelApart(cmp, tree, t, height, k, Key);
      mid, at := DelKey(cmp, tree, t, height, k);
      CutSorted(cmp, Keys(), mid, Flat(u, height), BTreeRemoval.Del(cmp, tree, t, height, k, Key).1, at, k);
      m := DelAux(cmp, t, root, k, Key, tree, height);
      nKeys := nKeys - 1;
      LooserFilled(u, t, height, |tree.keys| - 1, 0);
      FilledIsFormed(u, t, height, 0);
      tree := u;
      Collapse();
    }

    lemma CanDeleteRoot(k: K)
      requires Valid() && Has(cmp, Keys(), k)
      ensures CanDelete(cmp, tree, t, height, k, Key)
    {
      RaiseFilled(tree, t, height, Least(height), 1);
    }

    /** A root without keys gives way to its only kid. */
    method Collapse()
      requires t >= 2 && root == tree.node && Filled(tree, t, height, 0) && Formed(tree, height) && Fits(tree, height) && Sep(tree, height)
      modifies this`root, this`tree, this`height
      ensures root == tree.node && Filled(tree, t, height, Least(height)) && Formed(tree, height) && Fits(tree, height) && Sep(tree, height)
      ensures Flat(tree, height) == old(Flat(tree, height)) && Nodes(tree, height) <= old(Nodes(tree, height))
    {
      hide Filled, Formed, Flat, Fits, AllFit, Sep, Nodes, AllNodes, Before, After;
      Local(tree, height);
      TopFilled(tree, t, height, 0);
      if |root.keys| == 0 && root.isInternal {
        KidLocal(tree, height, 0);
        KidFilled(tree, t, height, 0, 0);
        LooserFilled(tree.kids[0], t, height - 1, t - 1, Least(height - 1));
        FlatAt(tree, height, 0);
        NothingAfterLast(tree, height);
        assert [] + Flat(tree.kids[0], height - 1) + [] == Flat(tree.kids[0], height - 1);
        root := root.kids[0];
        tree, height := tree.kids[0], height - 1;
      } else {
        RaiseFilled(tree, t, height, 0, Least(height));
      }
    }
  }

  lemma CutSorted<K(!new)>(cmp: (K, K) -> int, s: seq<K>, mid: seq<K>, s': seq<K>, m: K, at: nat, k: K)
    requires Order(cmp) && SortedUp(cmp, s) && Overwritten(cmp, s, mid, k) && Cut(mid, s', m, at)
    ensures SortedUp(cmp, s') && |s'| == |s| - 1
  {
    OverwrittenSorted(cmp, s, mid, k);
    hide Order, Overwritten;
    forall i, j | 0 <= i < j < |s'|
      ensures cmp(s'[i], s'[j]) <= 0
    {
      assert s'[i] == mid[if i < at then i else i + 1] && s'[j] == mid[if j < at then j else j + 1];
    }
  }
}
