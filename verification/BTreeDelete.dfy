/** Deletion in place. Each method changes the key and kid arrays of one or two nodes, and says which nodes
    the new tree has and that it is the tree the function Del gives; the lemmas around them keep apart the
    nodes of different kids. */
module BTreeDelete {
  import opened Orders
  import opened BTree
  import opened BTreeSearch
  import opened BTreeRemoval
  import opened BTreeDeleted
  import opened BTreeHeap

  // ----- nodes stay apart

  lemma LastApart<N, K>(y: Tree<N, K>, x: Tree<N, K>, k: K, h: nat)
    requires Formed(y, h) && Formed(x, h) && y.keys != []
    requires Sep(y, h) && Sep(x, h) && Nodes(y, h) !! Nodes(x, h)
    ensures var y', x' := LessLast(y), MoreFirst(x, k, LastKid(y));
      && AllSep([y', x'], h) && AllNodes([y', x'], h) <= Nodes(y, h) + Nodes(x, h)
  {
    var y', x' := LessLast(y), MoreFirst(x, k, LastKid(y));
    NodesTwo(y', x', h);
    if h > 0 {
      var n := |y.kids| - 1;
      Stretches(y.kids, h - 1, n, n + 1);
      assert y.kids[n..n + 1] == LastKid(y);
      AllNodesAppend(LastKid(y), x.kids, h - 1);
      hide AllNodes, AllSep;
    }
  }

  lemma FirstApart<N, K>(x: Tree<N, K>, y: Tree<N, K>, k: K, h: nat)
    requires Formed(y, h) && Formed(x, h) && y.keys != []
    requires Sep(y, h) && Sep(x, h) && Nodes(y, h) !! Nodes(x, h)
    ensures var x', y' := MoreLast(x, k, FirstKid(y)), LessFirst(y);
      && AllSep([x', y'], h) && AllNodes([x', y'], h) <= Nodes(y, h) + Nodes(x, h)
  {
    var x', y' := MoreLast(x, k, FirstKid(y)), LessFirst(y);
    NodesTwo(x', y', h);
    if h > 0 {
      Stretches(y.kids, h - 1, 0, 1);
      assert y.kids[0..1] == FirstKid(y);
      AllNodesAppend(x.kids, FirstKid(y), h - 1);
      hide AllNodes, AllSep;
    }
  }

  lemma JoinApart<N, K>(y: Tree<N, K>, k: K, z: Tree<N, K>, h: nat)
    requires Sep(y, h) && Sep(z, h) && Nodes(y, h) !! Nodes(z, h)
    ensures Sep(Join(y, k, z), h) && Nodes(Join(y, k, z), h) <= Nodes(y, h) + Nodes(z, h)
  {
    if h > 0 { AllNodesAppend(y.kids, z.kids, h - 1); }
  }

  // ----- moving keys between two nodes

  /** What a node says about its own fields. */
  lemma Local<K>(t: HeapTree<K>, h: nat)
    requires Fits(t, h) && Formed(t, h)
    ensures t.node.keys == t.keys && t.node.isInternal == (h > 0) && t.node.kids == Ids(t.kids)
    ensures h > 0 <==> t.kids != []
    ensures h > 0 ==> |t.kids| == |t.keys| + 1
  {
  }

  lemma FitsLeaf<K>(t: HeapTree<K>)
    requires t.kids == [] && t.node.keys == t.keys && !t.node.isInternal && t.node.kids == []
    ensures Fits(t, 0)
  {
  }

  lemma FitsInternal<K>(t: HeapTree<K>, h: nat)
    requires h > 0 && t.node.keys == t.keys && t.node.isInternal && t.node.kids == Ids(t.kids) && AllFit(t.kids, h - 1)
    ensures Fits(t, h)
  {
  }

  /** The last key of y goes up, k comes down in front of the keys of x, and the last kid of y moves over. */
  method MoveRight<K>(y: KbNode<K>, x: KbNode<K>, k: K, ghost ty: HeapTree<K>, ghost tx: HeapTree<K>, ghost h: nat) returns (l: K)
    requires Fits(ty, h) && Fits(tx, h) && Formed(ty, h) && Formed(tx, h) && y == ty.node && x == tx.node && ty.keys != []
    requires Sep(ty, h) && Sep(tx, h) && Nodes(ty, h) !! Nodes(tx, h)
    modifies y, x
    ensures l == ty.keys[|ty.keys| - 1]
    ensures Fits(LessLast(ty), h) && Fits(MoreFirst(tx, k, LastKid(ty)), h)
  {
    Local(ty, h);
    Local(tx, h);
    var n := |y.keys| - 1;
    l := y.keys[n];
    if h > 0 {
      MovedKids(ty, tx, h, n);
    }
    hide Fits, AllFit, Formed, Sep, AllSep, Nodes;
    x.keys := [k] + x.keys;
    if x.isInternal {
      x.kids := [y.kids[n + 1]] + x.kids;
    }
    y.keys := y.keys[..n];
    if y.isInternal {
      y.kids := y.kids[..n + 1];
    }
    if h > 0 {
      FitsInternal(LessLast(ty), h);
      FitsInternal(MoreFirst(tx, k, LastKid(ty)), h);
    } else {
      FitsLeaf(LessLast(ty));
      FitsLeaf(MoreFirst(tx, k, LastKid(ty)));
    }
  }

  lemma MovedKids<K>(ty: HeapTree<K>, tx: HeapTree<K>, h: nat, n: nat)
    requires h > 0 && Fits(ty, h) && Fits(tx, h) && |ty.kids| == n + 2
    requires Sep(ty, h) && Sep(tx, h) && Nodes(ty, h) !! Nodes(tx, h)
    ensures LastKid(ty) == [ty.kids[n + 1]]
    ensures AllFit(ty.kids[..n + 1], h - 1) && AllFit(LastKid(ty) + tx.kids, h - 1)
    ensures Ids(ty.kids[..n + 1]) == Ids(ty.kids)[..n + 1] && Ids(LastKid(ty) + tx.kids) == [Ids(ty.kids)[n + 1]] + Ids(tx.kids)
    ensures {ty.node, tx.node} !! AllNodes(ty.kids[..n + 1], h - 1) && {ty.node, tx.node} !! AllNodes(LastKid(ty) + tx.kids, h - 1)
  {
    hide AllFit, AllNodes, AllSep;
    FitStretches(ty.kids, h - 1, n + 1, n + 2);
    Stretches(ty.kids, h - 1, n + 1, n + 2);
    assert ty.kids[n + 1..n + 2] == LastKid(ty);
    AllFitAppend(LastKid(ty), tx.kids, h - 1);
    AllNodesAppend(LastKid(ty), tx.kids, h - 1);
  }

  /** The first key of y goes up, k comes down behind the keys of x, and the first kid of y moves over. */
  method MoveLeft<K>(x: KbNode<K>, y: KbNode<K>, k: K, ghost tx: HeapTree<K>, ghost ty: HeapTree<K>, ghost h: nat) returns (l: K)
    requires Fits(ty, h) && Fits(tx, h) && Formed(ty, h) && Formed(tx, h) && y == ty.node && x == tx.node && ty.keys != []
    requires Sep(ty, h) && Sep(tx, h) && Nodes(ty, h) !! Nodes(tx, h)
    modifies y, x
    ensures l == ty.keys[0]
    ensures Fits(LessFirst(ty), h) && Fits(MoreLast(tx, k, FirstKid(ty)), h)
  {
    Local(ty, h);
    Local(tx, h);
    l := y.keys[0];
    if h > 0 {
      MovedFirst(ty, tx, h);
    }
    hide Fits, AllFit, Formed, Sep, AllSep, Nodes;
    x.keys := x.keys + [k];
    if x.isInternal {
      x.kids := x.kids + [y.kids[0]];
    }
    y.keys := y.keys[1..];
    if y.isInternal {
      y.kids := y.kids[1..];
    }
    if h > 0 {
      FitsInternal(LessFirst(ty), h);
      FitsInternal(MoreLast(tx, k, FirstKid(ty)), h);
    } else {
      FitsLeaf(LessFirst(ty));
      FitsLeaf(MoreLast(tx, k, FirstKid(ty)));
    }
  }

  lemma MovedFirst<K>(ty: HeapTree<K>, tx: HeapTree<K>, h: nat)
    requires h > 0 && Fits(ty, h) && Fits(tx, h) && |ty.kids| >= 2
    requires Sep(ty, h) && Sep(tx, h) && Nodes(ty, h) !! Nodes(tx, h)
    ensures FirstKid(ty) == [ty.kids[0]]
    ensures AllFit(ty.kids[1..], h - 1) && AllFit(tx.kids + FirstKid(ty), h - 1)
    ensures Ids(ty.kids[1..]) == Ids(ty.kids)[1..] && Ids(tx.kids + FirstKid(ty)) == Ids(tx.kids) + [Ids(ty.kids)[0]]
    ensures {ty.node, tx.node} !! AllNodes(ty.kids[1..], h - 1) && {ty.node, tx.node} !! AllNodes(tx.kids + FirstKid(ty), h - 1)
  {
    hide AllFit, AllNodes, AllSep;
    FitStretches(ty.kids, h - 1, 0, 1);
    Stretches(ty.kids, h - 1, 0, 1);
    assert ty.kids[0..1] == FirstKid(ty);
    AllFitAppend(tx.kids, FirstKid(ty), h - 1);
    AllNodesAppend(tx.kids, FirstKid(ty), h - 1);
  }

  /** y takes k and everything z has. */
  method Absorb<K>(y: KbNode<K>, z: KbNode<K>, k: K, ghost ty: HeapTree<K>, ghost tz: HeapTree<K>, ghost h: nat)
    requires Fits(ty, h) && Fits(tz, h) && Formed(ty, h) && Formed(tz, h) && y == ty.node && z == tz.node
    requires Sep(ty, h) && Sep(tz, h) && Nodes(ty, h) !! Nodes(tz, h)
    modifies y
    ensures Fits(Join(ty, k, tz), h)
  {
    Local(ty, h);
    Local(tz, h);
    if h > 0 {
      AllFitAppend(ty.kids, tz.kids, h - 1);
      AllNodesAppend(ty.kids, tz.kids, h - 1);
    }
    assert Ids(ty.kids + tz.kids) == Ids(ty.kids) + Ids(tz.kids);
    assert y != z;
    hide Fits, AllFit, Formed, Sep, AllSep;
    y.keys := y.keys + [k];
    y.keys := y.keys + z.keys;
    if y.isInternal {
      y.kids := y.kids + z.kids;
    }
    if h > 0 {
      FitsInternal(Join(ty, k, tz), h);
    } else {
      FitsLeaf(Join(ty, k, tz));
    }
  }

  // ----- the same under their parent

  /** Two neighbouring kids under x. */
  lemma TwoKids<K>(t: HeapTree<K>, h: nat, i: nat)
    requires h > 0 && Fits(t, h) && Sep(t, h) && Formed(t, h) && i < |t.keys|
    ensures |t.kids| == |t.keys| + 1
    ensures t.node.keys == t.keys && t.node.isInternal && t.node.kids == Ids(t.kids)
    ensures var y, z := t.kids[i], t.kids[i + 1];
      && Formed(y, h - 1) && Formed(z, h - 1) && Fits(y, h - 1) && Fits(z, h - 1)
      && Sep(y, h - 1) && Sep(z, h - 1) && Nodes(y, h - 1) !! Nodes(z, h - 1)
      && AllFit(t.kids[..i], h - 1) && AllFit(t.kids[i + 2..], h - 1)
      && t.node !in Nodes(y, h - 1) && t.node !in Nodes(z, h - 1)
      && t.node !in AllNodes(t.kids[..i], h - 1) && t.node !in AllNodes(t.kids[i + 2..], h - 1)
      && Nodes(y, h - 1) + Nodes(z, h - 1) + AllNodes(t.kids[..i], h - 1) + AllNodes(t.kids[i + 2..], h - 1) <= Nodes(t, h)
      && Nodes(y, h - 1) + Nodes(z, h - 1) !! AllNodes(t.kids[..i], h - 1) + AllNodes(t.kids[i + 2..], h - 1)
  {
    KidFormed(t, h, i);
    KidFormed(t, h, i + 1);
    Open(t, h, i, i + 2);
    SepTwoKids(t, h, i);
    FitTwo(t.kids[i], t.kids[i + 1], h - 1);
  }

  lemma SameIds<N, K>(t: Tree<N, K>, i: nat, y: Tree<N, K>, z: Tree<N, K>)
    requires i + 1 < |t.kids| && y.node == t.kids[i].node && z.node == t.kids[i + 1].node
    ensures Ids(t.kids) == Ids(t.kids)[..i] + Ids([y, z]) + Ids(t.kids)[i + 2..]
  {
    var ids := Ids(t.kids);
    assert Ids([y, z]) == [ids[i], ids[i + 1]];
    assert ids == ids[..i] + [ids[i], ids[i + 1]] + ids[i + 2..];
  }

  lemma InOwnNodes<N, K>(t: Tree<N, K>, h: nat)
    ensures t.node in Nodes(t, h)
  {
  }

  lemma TakenNodes<N, K>(y: Tree<N, K>, x: Tree<N, K>, k: K)
    requires y.keys != []
    ensures LessLast(y).node == y.node && MoreFirst(x, k, LastKid(y)).node == x.node
  {
  }

  /** Kid i takes a key from kid i - 1. */
  method TakeFromLeft<K>(x: KbNode<K>, i: nat, ghost t: HeapTree<K>, ghost h: nat)
    requires h > 0 && Fits(t, h) && Sep(t, h) && Formed(t, h) && x == t.node && 0 < i <= |t.keys|
    requires |t.kids| == |t.keys| + 1 && t.kids[i - 1].keys != []
    modifies Nodes(t, h)
    ensures var y := t.kids[i - 1];
      Fits(Splice(t, i - 1, i, [y.keys[|y.keys| - 1]], [LessLast(y), MoreFirst(t.kids[i], t.keys[i - 1], LastKid(y))]), h)
  {
    hide Fits, AllFit, Formed, Sep, AllSep, Nodes, AllNodes, LastKid, LessLast, MoreFirst, Splice;
    NodesAllocated(t, h);
    TwoKids(t, h, i - 1);
    InOwnNodes(t, h);
    ghost var ty, tx := t.kids[i - 1], t.kids[i];
    ghost var y', x' := LessLast(ty), MoreFirst(tx, t.keys[i - 1], LastKid(ty));
    InOwnNodes(ty, h - 1);
    InOwnNodes(tx, h - 1);
    LastApart(ty, tx, t.keys[i - 1], h - 1);
    TakenNodes(ty, tx, t.keys[i - 1]);
    SameIds(t, i - 1, y', x');
    var y, xp := x.kids[i - 1], x.kids[i];
    var l := MoveRight(y, xp, x.keys[i - 1], ty, tx, h - 1);
    FitTwo(y', x', h - 1);
    x.keys := x.keys[i - 1 := l];
    Close(t, h, i - 1, i, [l], [y', x']);
  }

  /** Kid i takes a key from kid i + 1. */
  method TakeFromRight<K>(x: KbNode<K>, i: nat, ghost t: HeapTree<K>, ghost h: nat)
    requires h > 0 && Fits(t, h) && Sep(t, h) && Formed(t, h) && x == t.node && i < |t.keys|
    requires |t.kids| == |t.keys| + 1 && t.kids[i + 1].keys != []
    modifies Nodes(t, h)
    ensures var y := t.kids[i + 1];
      Fits(Splice(t, i, i + 1, [y.keys[0]], [MoreLast(t.kids[i], t.keys[i], FirstKid(y)), LessFirst(y)]), h)
  {
    hide Fits, AllFit, Formed, Sep, AllSep, Nodes, AllNodes, FirstKid;
    NodesAllocated(t, h);
    TwoKids(t, h, i);
    InOwnNodes(t, h);
    ghost var tx, ty := t.kids[i], t.kids[i + 1];
    ghost var x', y' := MoreLast(tx, t.keys[i], FirstKid(ty)), LessFirst(ty);
    InOwnNodes(ty, h - 1);
    InOwnNodes(tx, h - 1);
    FirstApart(tx, ty, t.keys[i], h - 1);
    SameIds(t, i, x', y');
    var xp, y := x.kids[i], x.kids[i + 1];
    var l := MoveLeft(xp, y, x.keys[i], tx, ty, h - 1);
    FitTwo(x', y', h - 1);
    x.keys := x.keys[i := l];
    Close(t, h, i, i + 1, [l], [x', y']);
  }

  /** Kids i and i + 1 become one, with k between their keys; key i and one pointer of x go. */
  method Merge<K>(x: KbNode<K>, i: nat, k: K, ghost t: HeapTree<K>, ghost h: nat)
    requires h > 0 && Fits(t, h) && Sep(t, h) && Formed(t, h) && x == t.node && i < |t.keys|
    requires |t.kids| == |t.keys| + 1
    modifies Nodes(t, h)
    ensures Fits(Splice(t, i, i + 1, [], [Join(t.kids[i], k, t.kids[i + 1])]), h)
  {
    hide Fits, AllFit, Formed, Sep, AllSep, Nodes, AllNodes;
    NodesAllocated(t, h);
    TwoKids(t, h, i);
    InOwnNodes(t, h);
    ghost var ty, tz := t.kids[i], t.kids[i + 1];
    ghost var c := Join(ty, k, tz);
    InOwnNodes(ty, h - 1);
    JoinApart(ty, k, tz, h - 1);
    var y, z := x.kids[i], x.kids[i + 1];
    Absorb(y, z, k, ty, tz, h - 1);
    FitOne(c, h - 1);
    NodesOne(c, h - 1);
    x.keys := x.keys[..i] + x.keys[i + 1..];
    x.kids := x.kids[..i + 1] + x.kids[i + 2..];
    assert Ids([c]) == [y] && Ids(t.kids)[..i + 1] == Ids(t.kids)[..i] + [y];
    assert x.keys == t.keys[..i] + [] + t.keys[i + 1..];
    Close(t, h, i, i + 1, [], [c]);
  }

  // ----- a refill in place

  /** What is read of kid i through its parent. */
  lemma KidLocal<K>(t: HeapTree<K>, h: nat, i: nat)
    requires h > 0 && Fits(t, h) && Sep(t, h) && Formed(t, h) && i <= |t.keys|
    ensures |t.kids| == |t.keys| + 1 == |t.node.kids| && t.node.keys == t.keys && t.node.isInternal
    ensures t.node.kids[i] == t.kids[i].node && t.kids[i].node.keys == t.kids[i].keys
    ensures Formed(t.kids[i], h - 1) && Fits(t.kids[i], h - 1) && Sep(t.kids[i], h - 1)
    ensures t.node !in Nodes(t.kids[i], h - 1) && Nodes(t.kids[i], h - 1) <= Nodes(t, h) && t.node in Nodes(t, h)
  {
    KidFormed(t, h, i);
    Open(t, h, i, i + 1);
    assert t.kids[i..i + 1] == [t.kids[i]];
    FitOne(t.kids[i], h - 1);
    NodesOne(t.kids[i], h - 1);
    SepKid(t, h, i);
    Local(t, h);
    KidFields(t.kids[i], h - 1);
  }

  lemma KidFields<K>(t: HeapTree<K>, h: nat)
    requires Fits(t, h)
    ensures t.node.keys == t.keys
  {
  }

  lemma RefillApart<N, K>(t: Tree<N, K>, T: nat, h: nat, i: nat)
    requires T >= 2 && h > 0 && Formed(t, h) && Filled(t, T, h, 1) && i <= |t.keys| && |t.kids| == |t.keys| + 1 && Sep(t, h)
    ensures Sep(Refill(t, T, i).tree, h) && Nodes(Refill(t, T, i).tree, h) <= Nodes(t, h)
  {
    hide Filled, Formed, Sep, AllSep, Nodes, AllNodes, Splice, Join;
    KidFormed(t, h, i);
    if i > 0 { KidFormed(t, h, i - 1); KidLower(t, T, h, i - 1); SepTwoKids(t, h, i - 1); }
    if i < |t.keys| { KidFormed(t, h, i + 1); KidLower(t, T, h, i + 1); SepTwoKids(t, h, i); }
    var x := t.kids[i];
    if |x.keys| == T - 1 {
      if i > 0 && |t.kids[i - 1].keys| >= T {
        var y := t.kids[i - 1];
        LastApart(y, x, t.keys[i - 1], h - 1);
        SepSplice(t, h, i - 1, i, [y.keys[|y.keys| - 1]], [LessLast(y), MoreFirst(x, t.keys[i - 1], LastKid(y))]);
      } else if i < |t.keys| && |t.kids[i + 1].keys| >= T {
        var y := t.kids[i + 1];
        FirstApart(x, y, t.keys[i], h - 1);
        SepSplice(t, h, i, i + 1, [y.keys[0]], [MoreLast(x, t.keys[i], FirstKid(y)), LessFirst(y)]);
      } else if i > 0 {
        MergeApart(t, h, i - 1, t.keys[i - 1]);
      } else if i < |t.keys| {
        MergeApart(t, h, i, t.keys[i]);
      }
    }
  }

  lemma MergeApart<N, K>(t: Tree<N, K>, h: nat, i: nat, k: K)
    requires h > 0 && Sep(t, h) && i < |t.keys| && |t.kids| == |t.keys| + 1
    ensures var c := Join(t.kids[i], k, t.kids[i + 1]);
      var u := Splice(t, i, i + 1, [], [c]);
      Sep(c, h - 1) && Sep(u, h) && Nodes(u, h) <= Nodes(t, h)
  {
    hide Sep, AllSep, Nodes, AllNodes, Splice, Join;
    SepTwoKids(t, h, i);
    var c := Join(t.kids[i], k, t.kids[i + 1]);
    JoinApart(t.kids[i], k, t.kids[i + 1], h - 1);
    NodesOne(c, h - 1);
    SepSplice(t, h, i, i + 1, [], [c]);
  }

  /** Sees to it that kid i of x has a key to spare, and returns the node that is then to be gone on with. */
  method RefillKid<K>(x: KbNode<K>, i: nat, T: nat, ghost t: HeapTree<K>, ghost h: nat) returns (xp: KbNode<K>)
    requires T >= 2 && h > 0 && Fits(t, h) && Sep(t, h) && Formed(t, h) && Filled(t, T, h, 1) && x == t.node
    requires i <= |t.keys| && |t.kids| == |t.keys| + 1
    modifies Nodes(t, h)
    ensures var r := Refill(t, T, i);
      Fits(r.tree, h) && 0 <= r.at < |r.tree.kids| && xp == r.tree.kids[r.at].node
  {
    hide Filled, Formed, Fits, AllFit, Sep, AllSep, Nodes, AllNodes, Splice, Join;
    KidLocal(t, h, i);
    if i > 0 { KidLocal(t, h, i - 1); KidLower(t, T, h, i - 1); }
    if i < |t.keys| { KidLocal(t, h, i + 1); KidLower(t, T, h, i + 1); }
    RefillSizes(t, T, h, i);
    xp := x.kids[i];
    if |xp.keys| == T - 1 {
      if i > 0 && |x.kids[i - 1].keys| >= T {
        TakeFromLeft(x, i, t, h);
      } else if i < |x.keys| && |x.kids[i + 1].keys| >= T {
        TakeFromRight(x, i, t, h);
      } else if i > 0 && |x.kids[i - 1].keys| == T - 1 {
        var y := x.kids[i - 1];
        Merge(x, i - 1, x.keys[i - 1], t, h);
        xp := y;
      } else if i < |x.keys| && |x.kids[i + 1].keys| == T - 1 {
        Merge(x, i, x.keys[i], t, h);
      }
    }
    RefillNode(t, T, i);
  }

  /** The node of the kid to go on with. */
  lemma RefillNode<N, K>(t: Tree<N, K>, T: nat, i: nat)
    requires T > 0 && i <= |t.keys| && |t.kids| == |t.keys| + 1
    ensures var r := Refill(t, T, i);
      && 0 <= r.at < |r.tree.kids|
      && (r.at == i ==> r.tree.kids[r.at].node == t.kids[i].node)
      && (r.at != i ==> i > 0 && r.at == i - 1 && r.tree.kids[r.at].node == t.kids[i - 1].node)
  {
  }

  // ----- deletion

  lemma KidApart<N, K>(u: Tree<N, K>, h: nat, at: nat, c: Tree<N, K>)
    requires h > 0 && Sep(u, h) && at < |u.kids| == |u.keys| + 1 && Sep(c, h - 1) && Nodes(c, h - 1) <= Nodes(u.kids[at], h - 1)
    ensures Sep(u.(kids := u.kids[at := c]), h) && Nodes(u.(kids := u.kids[at := c]), h) <= Nodes(u, h)
  {
    hide Sep, AllSep, Nodes, AllNodes, Splice;
    SpliceOne(u, at, c);
    NodesOne(c, h - 1);
    NodesOne(u.kids[at], h - 1);
    assert u.kids[at..at + 1] == [u.kids[at]];
    SepSplice(u, h, at, at, [], [c]);
  }

  lemma TwoApart<N, K>(t: Tree<N, K>, h: nat, i: nat, y: Tree<N, K>, k: K, z: Tree<N, K>)
    requires h > 0 && Sep(t, h) && i < |t.keys| && |t.kids| == |t.keys| + 1
    requires Sep(y, h - 1) && Nodes(y, h - 1) <= Nodes(t.kids[i], h - 1)
    requires Sep(z, h - 1) && Nodes(z, h - 1) <= Nodes(t.kids[i + 1], h - 1)
    ensures Sep(Splice(t, i, i + 1, [k], [y, z]), h) && Nodes(Splice(t, i, i + 1, [k], [y, z]), h) <= Nodes(t, h)
  {
    hide Sep, AllSep, Nodes, AllNodes, Splice;
    SepTwoKids(t, h, i);
    NodesTwo(y, z, h - 1);
    SepSplice(t, h, i, i + 1, [k], [y, z]);
  }

  lemma OneApart<N, K>(t: Tree<N, K>, h: nat, i: nat, k: K, c: Tree<N, K>)
    requires h > 0 && Sep(t, h) && i < |t.keys| && |t.kids| == |t.keys| + 1
    requires Sep(c, h - 1) && Nodes(c, h - 1) <= Nodes(Join(t.kids[i], k, t.kids[i + 1]), h - 1)
    ensures Sep(Splice(t, i, i + 1, [], [c]), h) && Nodes(Splice(t, i, i + 1, [], [c]), h) <= Nodes(t, h)
  {
    hide Sep, AllSep, Nodes, AllNodes, Splice, Join;
    SepTwoKids(t, h, i);
    JoinApart(t.kids[i], k, t.kids[i + 1], h - 1);
    NodesOne(c, h - 1);
    SepSplice(t, h, i, i + 1, [], [c]);
  }

  lemma LeafApart<N, K>(t: Tree<N, K>, i: int)
    requires 0 <= i < |t.keys|
    ensures Sep(DelAt(t, i).0, 0) && Nodes(DelAt(t, i).0, 0) == Nodes(t, 0)
  {
  }

  /** Deletion brings in no node and puts none at two places. */
  lemma {:induction false} DelApart<N, K(!new)>(cmp: (K, K) -> int, t: Tree<N, K>, T: nat, h: nat, k: K, mode: Mode)
    requires CanDelete(cmp, t, T, h, k, mode) && Sep(t, h)
    ensures var u := Del(cmp, t, T, h, k, mode).0; Sep(u, h) && Nodes(u, h) <= Nodes(t, h)
    decreases h
  {
    hide Flat, Filled, Formed, SortedUp, Has, Order, Refill, Locate, CanDelete, Before, After, Overwritten, AllSep, AllNodes, Sep, Nodes, Splice;
    CanIs(cmp, t, T, h, k, mode);
    var p := Turn(cmp, t.keys, h, k, mode);
    if h == 0 {
      if mode.Key? { LeafHit(cmp, t, T, k); }
      LeafApart(t, if mode.First? then p.i + 1 else p.i);
    } else {
      if p.r == 0 {
        HitIs(cmp, t, T, h, k, mode);
        DelApartHit(cmp, t, T, h, k, p.i);
      } else {
        BelowCan(cmp, t, T, h, k, mode);
        RefillApart(t, T, h, p.i + 1);
        var r := Refill(t, T, p.i + 1);
        var c := r.tree.kids[r.at];
        SepKid(r.tree, h, r.at);
        RefillSizes(t, T, h, p.i + 1);
        DelApart(cmp, c, T, h - 1, k, mode);
        KidApart(r.tree, h, r.at, Del(cmp, c, T, h - 1, k, mode).0);
      }
    }
  }

  lemma {:induction false} DelApartHit<N, K(!new)>(cmp: (K, K) -> int, t: Tree<N, K>, T: nat, h: nat, k: K, i: nat)
    requires CanDelete(cmp, t, T, h, k, Key) && h > 0 && Sep(t, h) && Locate(cmp, t.keys, k) == Place(i, 0)
    ensures var u := Del(cmp, t, T, h, k, Key).0; Sep(u, h) && Nodes(u, h) <= Nodes(t, h)
    decreases h, 0
  {
    hide Flat, Filled, Formed, SortedUp, Has, Order, Refill, Locate, CanDelete, Before, After, Overwritten, AllSep, AllNodes, Sep, Nodes, Splice, Join;
    CanIs(cmp, t, T, h, k, Key);
    HitIs(cmp, t, T, h, k, Key);
    SidesCan(cmp, t, T, h, k, i);
    KidLower(t, T, h, i);
    KidLower(t, T, h, i + 1);
    SepTwoKids(t, h, i);
    var y, z := t.kids[i], t.kids[i + 1];
    if |y.keys| >= T {
      DelApart(cmp, y, T, h - 1, k, Last);
      var d := Del(cmp, y, T, h - 1, k, Last);
      TwoApart(t, h, i, d.0, d.1, z);
    } else if |z.keys| >= T {
      DelApart(cmp, z, T, h - 1, k, First);
      var d := Del(cmp, z, T, h - 1, k, First);
      TwoApart(t, h, i, y, d.1, d.0);
    } else {
      MergedCan(cmp, t, T, h, k, i);
      var c := Join(y, k, z);
      JoinApart(y, k, z, h - 1);
      DelApart(cmp, c, T, h - 1, k, Key);
      OneApart(t, h, i, k, Del(cmp, c, T, h - 1, k, Key).0);
    }
  }

  lemma OrderOf<N, K(!new)>(cmp: (K, K) -> int, t: Tree<N, K>, T: nat, h: nat, k: K)
    requires CanDelete(cmp, t, T, h, k, Key)
    ensures Order(cmp) && SortedUp(cmp, t.keys)
  {
    KeysSorted(cmp, t, h);
  }

  /** Takes key i out of a leaf. */
  method TakeKey<K>(x: KbNode<K>, i: int, ghost t: HeapTree<K>) returns (m: K)
    requires Fits(t, 0) && Formed(t, 0) && x == t.node && 0 <= i < |t.keys|
    modifies x
    ensures m == DelAt(t, i).1 && Fits(DelAt(t, i).0, 0)
  {
    m := x.keys[i];
    x.keys := x.keys[..i] + x.keys[i + 1..];
  }

  /** A kid and its siblings, for work inside the kid. */
  lemma Enter<K>(t: HeapTree<K>, h: nat, i: nat)
    requires h > 0 && Fits(t, h) && Sep(t, h) && i < |t.kids|
    ensures t.node.keys == t.keys && t.node.isInternal && t.node.kids == Ids(t.kids)
    ensures Fits(t.kids[i], h - 1) && Sep(t.kids[i], h - 1)
    ensures AllFit(t.kids[..i], h - 1) && AllFit(t.kids[i + 1..], h - 1)
    ensures var a, m, b := AllNodes(t.kids[..i], h - 1), Nodes(t.kids[i], h - 1), AllNodes(t.kids[i + 1..], h - 1);
      Nodes(t, h) == {t.node} + a + m + b && t.node !in a && t.node !in m && t.node !in b && a !! m && b !! m
  {
    Open(t, h, i, i + 1);
    assert t.kids[i..i + 1] == [t.kids[i]];
    SepKid(t, h, i);
    FitOne(t.kids[i], h - 1);
    NodesOne(t.kids[i], h - 1);
  }

  /** Leaving a kid that has become c. */
  lemma Leave<K>(t: HeapTree<K>, h: nat, i: nat, c: HeapTree<K>)
    requires h > 0 && i < |t.kids| == |t.keys| + 1 && c.node == t.kids[i].node && Fits(c, h - 1)
    requires t.node.keys == t.keys && t.node.isInternal && t.node.kids == Ids(t.kids)
    requires AllFit(t.kids[..i], h - 1) && AllFit(t.kids[i + 1..], h - 1)
    ensures Fits(t.(kids := t.kids[i := c]), h)
  {
    FitOne(c, h - 1);
    SpliceOne(t, i, c);
    assert Ids([c]) == [t.kids[i].node];
    assert Ids(t.kids) == Ids(t.kids)[..i] + Ids([c]) + Ids(t.kids)[i + 1..];
    assert t.keys == t.keys[..i] + [] + t.keys[i..];
    Close(t, h, i, i, [], [c]);
  }

  /** Deletes below x: a key equal to k, the last key or the first. */
  method DelAux<K(!new)>(cmp: (K, K) -> int, T: nat, x: KbNode<K>, k: K, mode: Mode, ghost t: HeapTree<K>, ghost h: nat) returns (m: K)
    requires CanDelete(cmp, t, T, h, k, mode) && Fits(t, h) && Sep(t, h) && x == t.node
    modifies Nodes(t, h)
    ensures m == Del(cmp, t, T, h, k, mode).1 && Fits(Del(cmp, t, T, h, k, mode).0, h)
    decreases h
  {
    hide Flat, Filled, AllFilled, Formed, SortedUp, Has, Order, Refill, Locate, CanDelete, Before, After, Overwritten, AllSep, AllNodes, Sep, Nodes, Splice, Join, Fits, AllFit;
    CanIs(cmp, t, T, h, k, mode);
    Local(t, h);
    InOwnNodes(t, h);
    NodesAllocated(t, h);
    var i, r := 0, 0;
    if mode.Key? {
      OrderOf(cmp, t, T, h, k);
      i, r := FindInNode(cmp, x.keys, k);
    } else {
      r := if !x.isInternal then 0 else if mode.Last? then 1 else -1;
      i := if mode.Last? then |x.keys| - 1 else -1;
    }
    if !x.isInternal {
      if mode.Key? { LeafHit(cmp, t, T, k); }
      if mode.First? {
        i := i + 1;
      }
      m := TakeKey(x, i, t);
      return;
    }
    if r == 0 {
      HitIs(cmp, t, T, h, k, mode);
      m := DelHit(cmp, T, x, k, i, t, h);
    } else {
      m := DelBelow(cmp, T, x, k, mode, i, t, h);
    }
  }

  /** The case of a hit at key i of an internal node. */
  method DelHit<K(!new)>(cmp: (K, K) -> int, T: nat, x: KbNode<K>, k: K, i: int, ghost t: HeapTree<K>, ghost h: nat) returns (m: K)
    requires CanDelete(cmp, t, T, h, k, Key) && Fits(t, h) && Sep(t, h) && x == t.node
    requires h > 0 && i >= 0 && Locate(cmp, t.keys, k) == Place(i, 0)
    modifies Nodes(t, h)
    ensures m == Del(cmp, t, T, h, k, Key).1 && Fits(Del(cmp, t, T, h, k, Key).0, h)
    decreases h, 2
  {
    hide Flat, Filled, AllFilled, Formed, SortedUp, Has, Order, Locate, CanDelete, Before, After, Overwritten, AllSep, AllNodes, Sep, Nodes, Splice, Join, Fits, AllFit;
    CanIs(cmp, t, T, h, k, Key);
    HitIs(cmp, t, T, h, k, Key);
    SidesCan(cmp, t, T, h, k, i);
    KidLocal(t, h, i);
    KidLocal(t, h, i + 1);
    if |x.kids[i].keys| >= T {
      m := x.keys[i];
      ReplaceByPrevious(cmp, T, x, k, i, t, h);
    } else if |x.kids[i + 1].keys| >= T {
      m := x.keys[i];
      ReplaceByNext(cmp, T, x, k, i, t, h);
    } else {
      KidLower(t, T, h, i);
      KidLower(t, T, h, i + 1);
      var y := x.kids[i];
      MergedCan(cmp, t, T, h, k, i);
      ghost var c := Join(t.kids[i], k, t.kids[i + 1]);
      m := MergeAndDelete(cmp, T, x, y, k, i, t, h - 1, c, Del(cmp, c, T, h - 1, k, Key));
    }
  }

  /** Key i gives way to the last key below kid i. */
  method ReplaceByPrevious<K(!new)>(cmp: (K, K) -> int, T: nat, x: KbNode<K>, k: K, i: int, ghost t: HeapTree<K>, ghost h: nat)
    requires h > 0 && 0 <= i < |t.keys| && i + 1 < |t.kids| && CanDelete(cmp, t.kids[i], T, h - 1, k, Last)
    requires Fits(t, h) && Sep(t, h) && Formed(t, h) && x == t.node
    modifies Nodes(t, h)
    ensures var d := Del(cmp, t.kids[i], T, h - 1, k, Last); Fits(Splice(t, i, i + 1, [d.1], [d.0, t.kids[i + 1]]), h)
    decreases h, 0
  {
    hide Flat, Filled, AllFilled, Formed, SortedUp, Has, Order, Locate, CanDelete, Before, After, Overwritten, AllSep, AllNodes, Sep, Nodes, Splice, Join, Fits, AllFit, Del;
    NodesAllocated(t, h);
    TwoKids(t, h, i);
    InOwnNodes(t, h);
    ghost var ty, tz := t.kids[i], t.kids[i + 1];
    ghost var d := Del(cmp, ty, T, h - 1, k, Last);
    DelApart(cmp, ty, T, h - 1, k, Last);
    DelSizes(cmp, ty, T, h - 1, k, Last);
    var p := DelAux(cmp, T, x.kids[i], k, Last, ty, h - 1);
    SameIds(t, i, d.0, tz);
    x.keys := x.keys[i := p];
    FitTwo(d.0, tz, h - 1);
    Close(t, h, i, i + 1, [p], [d.0, tz]);
  }

  /** Key i gives way to the first key below kid i + 1. */
  method ReplaceByNext<K(!new)>(cmp: (K, K) -> int, T: nat, x: KbNode<K>, k: K, i: int, ghost t: HeapTree<K>, ghost h: nat)
    requires h > 0 && 0 <= i < |t.keys| && i + 1 < |t.kids| && CanDelete(cmp, t.kids[i + 1], T, h - 1, k, First)
    requires Fits(t, h) && Sep(t, h) && Formed(t, h) && x == t.node
    modifies Nodes(t, h)
    ensures var d := Del(cmp, t.kids[i + 1], T, h - 1, k, First); Fits(Splice(t, i, i + 1, [d.1], [t.kids[i], d.0]), h)
    decreases h, 0
  {
    hide Flat, Filled, AllFilled, Formed, SortedUp, Has, Order, Locate, CanDelete, Before, After, Overwritten, AllSep, AllNodes, Sep, Nodes, Splice, Join, Fits, AllFit, Del;
    NodesAllocated(t, h);
    TwoKids(t, h, i);
    InOwnNodes(t, h);
    ghost var ty, tz := t.kids[i], t.kids[i + 1];
    ghost var d := Del(cmp, tz, T, h - 1, k, First);
    DelApart(cmp, tz, T, h - 1, k, First);
    DelSizes(cmp, tz, T, h - 1, k, First);
    var s := DelAux(cmp, T, x.kids[i + 1], k, First, tz, h - 1);
    SameIds(t, i, ty, d.0);
    x.keys := x.keys[i := s];
    FitTwo(ty, d.0, h - 1);
    Close(t, h, i, i + 1, [s], [ty, d.0]);
  }

  /** Two minimal kids are merged around k into c, and the deletion goes on there. */
  method MergeAndDelete<K(!new)>(cmp: (K, K) -> int, T: nat, x: KbNode<K>, y: KbNode<K>, k: K, i: int,
                                 ghost t: HeapTree<K>, ghost g: nat, ghost c: HeapTree<K>, ghost d: (HeapTree<K>, K)) returns (m: K)
    requires 0 <= i < |t.keys| && |t.kids| == |t.keys| + 1 && c == Join(t.kids[i], k, t.kids[i + 1])
    requires Fits(t, g + 1) && Sep(t, g + 1) && Formed(t, g + 1) && x == t.node && y == t.kids[i].node
    requires CanDelete(cmp, c, T, g, k, Key) && d == Del(cmp, c, T, g, k, Key)
    modifies Nodes(t, g + 1)
    ensures m == d.1 && Fits(Splice(t, i, i + 1, [], [d.0]), g + 1)
    decreases g + 1, 1
  {
    hide Flat, Filled, AllFilled, Formed, SortedUp, Has, Order, CanDelete, AllSep, AllNodes, Sep, Nodes, Fits, AllFit, Del, Splice;
    NodesAllocated(t, g + 1);
    ghost var u := Splice(t, i, i + 1, [], [c]);
    SpliceTwice(t, i, c, d.0);
    MergeApart(t, g + 1, i, k);
    Merge(x, i, k, t, g + 1);
    m := DelInKid(cmp, T, y, k, Key, u, g, i, c, d);
  }

  /** Deletes in kid at of u. */
  method DelInKid<K(!new)>(cmp: (K, K) -> int, T: nat, xp: KbNode<K>, k: K, mode: Mode,
                           ghost u: HeapTree<K>, ghost g: nat, ghost at: nat, ghost c: HeapTree<K>, ghost d: (HeapTree<K>, K)) returns (m: K)
    requires at < |u.kids| == |u.keys| + 1 && c == u.kids[at] && xp == c.node
    requires Fits(u, g + 1) && Sep(u, g + 1) && CanDelete(cmp, c, T, g, k, mode) && d == Del(cmp, c, T, g, k, mode)
    modifies Nodes(u, g + 1)
    ensures m == d.1 && Fits(u.(kids := u.kids[at := d.0]), g + 1)
    decreases g + 1, 0
  {
    hide Flat, Filled, AllFilled, Formed, SortedUp, Has, Order, CanDelete, AllSep, AllNodes, Sep, Nodes, Fits, AllFit, Del;
    NodesAllocated(u, g + 1);
    Enter(u, g + 1, at);
    m := DelAux(cmp, T, xp, k, mode, c, g);
    DelSizes(cmp, c, T, g, k, mode);
    Leave(u, g + 1, at, d.0);
  }

  lemma SpliceTwice<N, K>(t: Tree<N, K>, i: nat, c: Tree<N, K>, d: Tree<N, K>)
    requires i < |t.keys| && |t.kids| == |t.keys| + 1
    ensures var u := Splice(t, i, i + 1, [], [c]);
      && |u.kids| == |u.keys| + 1 && i <= |u.keys| && u.kids[i] == c
      && u.(kids := u.kids[i := d]) == Splice(t, i, i + 1, [], [d])
  {
  }

  /** The case of no hit: on below, through a kid that has a key to spare. */
  method DelBelow<K(!new)>(cmp: (K, K) -> int, T: nat, x: KbNode<K>, k: K, mode: Mode, i: int, ghost t: HeapTree<K>, ghost h: nat) returns (m: K)
    requires CanDelete(cmp, t, T, h, k, mode) && Fits(t, h) && Sep(t, h) && x == t.node
    requires h > 0 && Turn(cmp, t.keys, h, k, mode).r != 0 && i == Turn(cmp, t.keys, h, k, mode).i
    modifies Nodes(t, h)
    ensures m == Del(cmp, t, T, h, k, mode).1 && Fits(Del(cmp, t, T, h, k, mode).0, h)
    decreases h, 1
  {
    hide Flat, Filled, AllFilled, Formed, SortedUp, Has, Order, Refill, Locate, CanDelete, Before, After, Overwritten, AllSep, AllNodes, Sep, Nodes, Splice, Join, Fits, AllFit, Turn;
    CanIs(cmp, t, T, h, k, mode);
    BelowCan(cmp, t, T, h, k, mode);
    RefillSizes(t, T, h, i + 1);
    RefillApart(t, T, h, i + 1);
    RefillFlat(t, T, h, i + 1);
    var xp := RefillKid(x, i + 1, T, t, h);
    ghost var q := Refill(t, T, i + 1);
    ghost var c := q.tree.kids[q.at];
    m := DelInKid(cmp, T, xp, k, mode, q.tree, h - 1, q.at, c, Del(cmp, c, T, h - 1, k, mode));
  }
}
