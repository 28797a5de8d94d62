/** B-tree nodes on the heap, and when they form a given tree: Fits says what the arrays of every node hold,
    Sep that no node occurs twice. Nodes keep their key and kid arrays in sequences of the length that is
    in use. */
module BTreeHeap {
  import opened BTree

  /** The arrays of keys and pointers, as far as they are in use. */
  class KbNode<K> {
    var isInternal: bool
    var keys: seq<K>
    var kids: seq<KbNode<K>>

    constructor (isInternal: bool, keys: seq<K>, kids: seq<KbNode<K>>)
      ensures this.isInternal == isInternal && this.keys == keys && this.kids == kids
    {
      this.isInternal, this.keys, this.kids := isInternal, keys, kids;
    }
  }

  type HeapTree<K> = Tree<KbNode<K>, K>

  // ----- which nodes

  ghost function Nodes<N, K>(t: Tree<N, K>, h: nat): set<N>
    decreases h, 0
  {
    {t.node} + if h == 0 then {} else AllNodes(t.kids, h - 1)
  }

  ghost function AllNodes<N, K>(s: seq<Tree<N, K>>, h: nat): set<N>
    decreases h, 1 + |s|
  {
    if s == [] then {} else Nodes(s[0], h) + AllNodes(s[1..], h)
  }

  /** No node is at two places. */
  ghost predicate Sep<N, K>(t: Tree<N, K>, h: nat)
    decreases h, 0
  {
    h == 0 || (t.node !in AllNodes(t.kids, h - 1) && AllSep(t.kids, h - 1))
  }

  ghost predicate AllSep<N, K>(s: seq<Tree<N, K>>, h: nat)
    decreases h, 1 + |s|
  {
    s == [] || (Sep(s[0], h) && Nodes(s[0], h) !! AllNodes(s[1..], h) && AllSep(s[1..], h))
  }

  lemma {:induction false} AllNodesAppend<N, K>(a: seq<Tree<N, K>>, b: seq<Tree<N, K>>, h: nat)
    ensures AllNodes(a + b, h) == AllNodes(a, h) + AllNodes(b, h)
    ensures AllSep(a + b, h) <==> AllSep(a, h) && AllSep(b, h) && AllNodes(a, h) !! AllNodes(b, h)
    decreases |a|
  {
    if a == [] {
      assert a + b == b;
    } else {
      assert (a + b)[1..] == a[1..] + b;
      AllNodesAppend(a[1..], b, h);
    }
  }

  lemma NodesOne<N, K>(c: Tree<N, K>, h: nat)
    ensures AllNodes([c], h) == Nodes(c, h) && (AllSep([c], h) <==> Sep(c, h))
  {
    assert [c][1..] == [];
  }

  lemma NodesTwo<N, K>(y: Tree<N, K>, z: Tree<N, K>, h: nat)
    ensures AllNodes([y, z], h) == Nodes(y, h) + Nodes(z, h)
    ensures AllSep([y, z], h) <==> Sep(y, h) && Sep(z, h) && Nodes(y, h) !! Nodes(z, h)
  {
    assert [y, z][1..] == [z];
    NodesOne(z, h);
  }

  lemma InThree<X>(s: seq<X>, i: nat, j: nat)
    requires i <= j <= |s|
    ensures s == s[..i] + s[i..] && s[i..] == s[i..j] + s[j..]
  {
  }

  /** The kids in three stretches. */
  lemma Stretches<N, K>(s: seq<Tree<N, K>>, h: nat, i: nat, j: nat)
    requires i <= j <= |s|
    ensures AllNodes(s, h) == AllNodes(s[..i], h) + AllNodes(s[i..j], h) + AllNodes(s[j..], h)
    ensures AllSep(s, h) ==>
      && AllSep(s[..i], h) && AllSep(s[i..j], h) && AllSep(s[j..], h)
      && AllNodes(s[..i], h) !! AllNodes(s[i..j], h) && AllNodes(s[..i], h) !! AllNodes(s[j..], h) && AllNodes(s[i..j], h) !! AllNodes(s[j..], h)
  {
    hide AllNodes, AllSep;
    InThree(s, i, j);
    AllNodesAppend(s[..i], s[i..], h);
    AllNodesAppend(s[i..j], s[j..], h);
  }

  /** Replacing a stretch of kids by kids made of the same nodes. */
  lemma SepSplice<N, K>(t: Tree<N, K>, h: nat, i: nat, j: nat, keys: seq<K>, kids: seq<Tree<N, K>>)
    requires h > 0 && Sep(t, h) && i <= j < |t.kids| == |t.keys| + 1
    requires AllSep(kids, h - 1) && AllNodes(kids, h - 1) <= AllNodes(t.kids[i..j + 1], h - 1)
    ensures Sep(Splice(t, i, j, keys, kids), h) && Nodes(Splice(t, i, j, keys, kids), h) <= Nodes(t, h)
  {
    hide AllNodes, AllSep;
    Stretches(t.kids, h - 1, i, j + 1);
    AllNodesAppend(t.kids[..i], kids, h - 1);
    AllNodesAppend(t.kids[..i] + kids, t.kids[j + 1..], h - 1);
  }

  lemma SepKid<N, K>(t: Tree<N, K>, h: nat, i: nat)
    requires h > 0 && Sep(t, h) && i < |t.kids|
    ensures Sep(t.kids[i], h - 1) && Nodes(t.kids[i], h - 1) <= AllNodes(t.kids, h - 1)
    ensures t.node !in Nodes(t.kids[i], h - 1)
  {
    assert t.kids[i..i + 1] == [t.kids[i]];
    hide AllNodes, AllSep, Nodes;
    Stretches(t.kids, h - 1, i, i + 1);
    NodesOne(t.kids[i], h - 1);
  }

  lemma SepTwoKids<N, K>(t: Tree<N, K>, h: nat, i: nat)
    requires h > 0 && Sep(t, h) && i + 1 < |t.kids|
    ensures t.kids[i..i + 2] == [t.kids[i], t.kids[i + 1]]
    ensures AllNodes(t.kids[i..i + 2], h - 1) == Nodes(t.kids[i], h - 1) + Nodes(t.kids[i + 1], h - 1)
    ensures Sep(t.kids[i], h - 1) && Sep(t.kids[i + 1], h - 1) && Nodes(t.kids[i], h - 1) !! Nodes(t.kids[i + 1], h - 1)
  {
    assert t.kids[i..i + 2] == [t.kids[i], t.kids[i + 1]];
    hide AllNodes, AllSep, Nodes;
    Stretches(t.kids, h - 1, i, i + 2);
    NodesTwo(t.kids[i], t.kids[i + 1], h - 1);
  }

  // ----- what the heap says

  function Ids<N, K>(s: seq<Tree<N, K>>): (ids: seq<N>)
    ensures |ids| == |s|
  {
    seq(|s|, i requires 0 <= i < |s| => s[i].node)
  }

  /** The fields of all nodes of t are as t says. */
  ghost predicate Fits<K>(t: HeapTree<K>, h: nat)
    reads Nodes(t, h)
    decreases h, 0
  {
    && t.node.keys == t.keys && t.node.isInternal == (h > 0) && t.node.kids == Ids(t.kids)
    && (h == 0 || AllFit(t.kids, h - 1))
  }

  ghost predicate AllFit<K>(s: seq<HeapTree<K>>, h: nat)
    reads AllNodes(s, h)
    decreases h, 1 + |s|
  {
    s == [] || (Fits(s[0], h) && AllFit(s[1..], h))
  }

  lemma {:induction false} AllFitAppend<K>(a: seq<HeapTree<K>>, b: seq<HeapTree<K>>, h: nat)
    ensures AllFit(a + b, h) <==> AllFit(a, h) && AllFit(b, h)
    decreases |a|
  {
    if a == [] {
      assert a + b == b;
    } else {
      assert (a + b)[1..] == a[1..] + b;
      AllFitAppend(a[1..], b, h);
    }
  }

  lemma FitOne<K>(c: HeapTree<K>, h: nat)
    ensures AllFit([c], h) <==> Fits(c, h)
  {
    assert [c][1..] == [];
  }

  lemma FitTwo<K>(y: HeapTree<K>, z: HeapTree<K>, h: nat)
    ensures AllFit([y, z], h) <==> Fits(y, h) && Fits(z, h)
  {
    assert [y, z][1..] == [z];
    FitOne(z, h);
  }

  lemma FitStretches<K>(s: seq<HeapTree<K>>, h: nat, i: nat, j: nat)
    requires i <= j <= |s|
    ensures AllFit(s, h) <==> AllFit(s[..i], h) && AllFit(s[i..j], h) && AllFit(s[j..], h)
  {
    hide AllFit;
    InThree(s, i, j);
    AllFitAppend(s[..i], s[i..], h);
    AllFitAppend(s[i..j], s[j..], h);
  }

  lemma {:induction false} NodesAllocated<K>(t: HeapTree<K>, h: nat)
    ensures forall n :: n in Nodes(t, h) ==> allocated(n)
    decreases h, 0
  {
    if h > 0 { AllNodesAllocated(t.kids, h - 1); }
  }

  lemma {:induction false} AllNodesAllocated<K>(s: seq<HeapTree<K>>, h: nat)
    ensures forall n :: n in AllNodes(s, h) ==> allocated(n)
    decreases h, 1 + |s|
  {
    if s != [] {
      NodesAllocated(s[0], h);
      AllNodesAllocated(s[1..], h);
    }
  }

  /** A node and its kids, taken apart around a stretch. */
  lemma Open<K>(t: HeapTree<K>, h: nat, i: nat, j: nat)
    requires h > 0 && Fits(t, h) && Sep(t, h) && i <= j <= |t.kids|
    ensures t.node.keys == t.keys && t.node.isInternal && t.node.kids == Ids(t.kids)
    ensures AllFit(t.kids[..i], h - 1) && AllFit(t.kids[i..j], h - 1) && AllFit(t.kids[j..], h - 1)
    ensures var a, m, b := AllNodes(t.kids[..i], h - 1), AllNodes(t.kids[i..j], h - 1), AllNodes(t.kids[j..], h - 1);
      && Nodes(t, h) == {t.node} + a + m + b && t.node !in a && t.node !in m && t.node !in b && a !! m && a !! b && m !! b
  {
    FitStretches(t.kids, h - 1, i, j);
    Stretches(t.kids, h - 1, i, j);
  }

  lemma IdsSplice<N, K>(t: Tree<N, K>, i: nat, j: nat, keys: seq<K>, kids: seq<Tree<N, K>>)
    requires i <= j < |t.kids| == |t.keys| + 1
    ensures Ids(Splice(t, i, j, keys, kids).kids) == Ids(t.kids)[..i] + Ids(kids) + Ids(t.kids)[j + 1..]
  {
  }

  /** A node put together again with another stretch of kids. */
  lemma Close<K>(t: HeapTree<K>, h: nat, i: nat, j: nat, keys: seq<K>, kids: seq<HeapTree<K>>)
    requires h > 0 && i <= j < |t.kids| == |t.keys| + 1
    requires t.node.isInternal && t.node.keys == t.keys[..i] + keys + t.keys[j..]
    requires t.node.kids == Ids(t.kids)[..i] + Ids(kids) + Ids(t.kids)[j + 1..]
    requires AllFit(t.kids[..i], h - 1) && AllFit(kids, h - 1) && AllFit(t.kids[j + 1..], h - 1)
    ensures Fits(Splice(t, i, j, keys, kids), h)
  {
    IdsSplice(t, i, j, keys, kids);
    AllFitAppend(t.kids[..i], kids, h - 1);
    AllFitAppend(t.kids[..i] + kids, t.kids[j + 1..], h - 1);
  }
}
