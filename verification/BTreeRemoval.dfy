/** Deletion from a B-tree as a function of the tree: which key comes out and what tree is left. Turn says
    which of the cases applies at a node, Refill what becomes of a kid with too few keys to go down into,
    and CanDelete which trees and keys deletion is meant for. */
module BTreeRemoval {
  import opened Orders
  import opened BTree
  import opened BTreeSearch

  /** What to delete: a key equal to the one given, the last key, or the first. */
  datatype Mode = Key | Last | First

  // ----- giving a kid one key more than the minimum

  function LastKid<N, K>(y: Tree<N, K>): seq<Tree<N, K>> {
    if y.kids == [] then [] else [y.kids[|y.kids| - 1]]
  }

  function FirstKid<N, K>(y: Tree<N, K>): seq<Tree<N, K>> {
    if y.kids == [] then [] else [y.kids[0]]
  }

  /** y without its last key and kid, and x with a key and that kid before its own. */
  function LessLast<N, K>(y: Tree<N, K>): Tree<N, K>
    requires y.keys != []
  {
    Node(y.node, y.keys[..|y.keys| - 1], if y.kids == [] then [] else y.kids[..|y.kids| - 1])
  }

  function MoreFirst<N, K>(x: Tree<N, K>, k: K, kid: seq<Tree<N, K>>): Tree<N, K> {
    Node(x.node, [k] + x.keys, kid + x.kids)
  }

  function LessFirst<N, K>(y: Tree<N, K>): Tree<N, K>
    requires y.keys != []
  {
    Node(y.node, y.keys[1..], if y.kids == [] then [] else y.kids[1..])
  }

  function MoreLast<N, K>(x: Tree<N, K>, k: K, kid: seq<Tree<N, K>>): Tree<N, K> {
    Node(x.node, x.keys + [k], x.kids + kid)
  }

  /** A tree and the place of the kid to go on with. */
  datatype Refilled<N, K> = Refilled(tree: Tree<N, K>, at: int)

  /** Kid i with at least T keys: as it is, or with one from a sibling, or joined with a sibling. */
  function Refill<N, K>(t: Tree<N, K>, T: nat, i: nat): Refilled<N, K>
    requires T > 0 && i <= |t.keys| && |t.kids| == |t.keys| + 1
  {
    var x := t.kids[i];
    if |x.keys| != T - 1 then Refilled(t, i)
    else if i > 0 && |t.kids[i - 1].keys| >= T then
      var y := t.kids[i - 1];
      Refilled(Splice(t, i - 1, i, [y.keys[|y.keys| - 1]], [LessLast(y), MoreFirst(x, t.keys[i - 1], LastKid(y))]), i)
    else if i < |t.keys| && |t.kids[i + 1].keys| >= T then
      var y := t.kids[i + 1];
      Refilled(Splice(t, i, i + 1, [y.keys[0]], [MoreLast(x, t.keys[i], FirstKid(y)), LessFirst(y)]), i)
    else if i > 0 && |t.kids[i - 1].keys| == T - 1 then
      Refilled(Splice(t, i - 1, i, [], [Join(t.kids[i - 1], t.keys[i - 1], x)]), i - 1)
    else if i < |t.keys| && |t.kids[i + 1].keys| == T - 1 then
      Refilled(Splice(t, i, i + 1, [], [Join(x, t.keys[i], t.kids[i + 1])]), i)
    else Refilled(t, i)
  }

  /** s contains f as a stretch. */
  ghost predicate Contains<K>(s: seq<K>, f: seq<K>) {
    exists i, j :: 0 <= i <= j <= |s| && s[i..j] == f
  }

  lemma StretchOf<K>(a: seq<K>, f: seq<K>, b: seq<K>)
    ensures Contains(a + f + b, f)
  {
    assert (a + f + b)[|a|..|a| + |f|] == f;
  }

  lemma HasInStretch<K>(cmp: (K, K) -> int, s: seq<K>, f: seq<K>, k: K)
    requires Contains(s, f) && Has(cmp, f, k)
    ensures Has(cmp, s, k)
  {
    var a, b :| 0 <= a <= b <= |s| && s[a..b] == f;
    var i :| 0 <= i < |f| && cmp(f[i], k) == 0;
    assert s[a + i] == s[a..b][i];
  }

  lemma PiecesFormed<N, K>(y: Tree<N, K>, n: N, h: nat)
    requires Formed(y, h) && y.keys != []
    ensures Formed(LessLast(y), h) && Formed(Node(n, [], LastKid(y)), h)
    ensures Formed(LessFirst(y), h) && Formed(Node(n, [], FirstKid(y)), h)
  {
  }

  lemma Regroup<K>(a: seq<K>, l: K, b: seq<K>, k: K, c: seq<K>)
    ensures a + [l] + (b + [k] + c) == (a + [l] + b) + [k] + c
    ensures Contains(b + [k] + c, c) && Contains(a + [l] + b, a)
  {
    StretchOf(b + [k], c, []);
    assert (b + [k]) + c + [] == b + [k] + c;
    StretchOf([], a, [l] + b);
    assert [] + a + ([l] + b) == a + [l] + b;
  }

  lemma LastPiece<N, K>(y: Tree<N, K>, n: N, k: K, x: Tree<N, K>)
    requires y.keys != []
    ensures Join(LessLast(y), y.keys[|y.keys| - 1], Node(n, [], LastKid(y))) == y
    ensures Join(Node(x.node, [], LastKid(y)), k, x) == MoreFirst(x, k, LastKid(y))
  {
    assert y.keys == y.keys[..|y.keys| - 1] + [y.keys[|y.keys| - 1]] + [];
    assert [] + [k] + x.keys == [k] + x.keys;
  }

  lemma FirstPiece<N, K>(y: Tree<N, K>, k: K, x: Tree<N, K>)
    requires y.keys != []
    ensures Join(Node(y.node, [], FirstKid(y)), y.keys[0], LessFirst(y)) == y
    ensures Join(x, k, Node(y.node, [], FirstKid(y))) == MoreLast(x, k, FirstKid(y))
  {
    assert y.keys == [] + [y.keys[0]] + y.keys[1..];
    assert x.keys + [k] + [] == x.keys + [k];
  }

  /** A key lent by the left sibling keeps the key sequence. */
  lemma LendRight<N, K>(y: Tree<N, K>, k: K, x: Tree<N, K>, h: nat)
    requires Formed(y, h) && Formed(x, h) && y.keys != []
    ensures var y', x' := LessLast(y), MoreFirst(x, k, LastKid(y));
      && Formed(y', h) && Formed(x', h)
      && Flat(y', h) + [y.keys[|y.keys| - 1]] + Flat(x', h) == Flat(y, h) + [k] + Flat(x, h)
      && Contains(Flat(x', h), Flat(x, h))
  {
    hide Flat, Formed, LessLast, MoreFirst, LastKid, Join, Contains;
    var y', e, l := LessLast(y), Node(x.node, [], LastKid(y)), y.keys[|y.keys| - 1];
    PiecesFormed(y, x.node, h);
    LastPiece(y, x.node, k, x);
    FlatJoin(y', l, e, h);
    FlatJoin(e, k, x, h);
    Regroup(Flat(y', h), l, Flat(e, h), k, Flat(x, h));
  }

  /** A key lent by the right sibling keeps it too. */
  lemma LendLeft<N, K>(x: Tree<N, K>, k: K, y: Tree<N, K>, h: nat)
    requires Formed(y, h) && Formed(x, h) && y.keys != []
    ensures var x', y' := MoreLast(x, k, FirstKid(y)), LessFirst(y);
      && Formed(y', h) && Formed(x', h)
      && Flat(x', h) + [y.keys[0]] + Flat(y', h) == Flat(x, h) + [k] + Flat(y, h)
      && Contains(Flat(x', h), Flat(x, h))
  {
    hide Flat, Formed, LessFirst, MoreLast, FirstKid, Join, Contains;
    var y', e, l := LessFirst(y), Node(y.node, [], FirstKid(y)), y.keys[0];
    PiecesFormed(y, y.node, h);
    FirstPiece(y, k, x);
    FlatJoin(e, l, y', h);
    FlatJoin(x, k, e, h);
    Regroup(Flat(x, h), k, Flat(e, h), l, Flat(y', h));
  }

  // What a refill guarantees, case by case.

  /** u has the key sequence f and about n keys at the top, sizes are in range, and its kid at has a key to
      spare and contains the stretch g. */
  ghost predicate Good<N, K>(u: Tree<N, K>, T: nat, h: nat, at: int, n: nat, f: seq<K>, g: seq<K>)
    requires T > 0 && h > 0
  {
    hide Formed, Filled, Flat, Contains;
    && Formed(u, h) && Filled(u, T, h, 0) && n - 1 <= |u.keys| <= n
    && 0 <= at < |u.kids| == |u.keys| + 1 && |u.kids[at].keys| >= T
    && Flat(u, h) == f
    && Formed(u.kids[at], h - 1) && Contains(Flat(u.kids[at], h - 1), g)
  }

  /** u is t made ready for going on at its kid at, in place of kid i of t. */
  ghost predicate Ready<N, K>(t: Tree<N, K>, T: nat, h: nat, i: nat, u: Tree<N, K>, at: int)
    requires T > 0 && h > 0
  {
    hide Formed, Flat, Good;
    && Formed(t, h) && i < |t.kids| && Formed(t.kids[i], h - 1)
    && u.node == t.node && Good(u, T, h, at, |t.keys|, Flat(t, h), Flat(t.kids[i], h - 1))
  }

  /** Sizes after a splice. */
  lemma FilledSplice<N, K>(t: Tree<N, K>, T: nat, h: nat, i: nat, j: nat, keys: seq<K>, kids: seq<Tree<N, K>>, lo: nat, lo': nat)
    requires T > 0 && h > 0 && Filled(t, T, h, lo) && i <= j <= |t.keys| && |kids| == |keys| + 1 && AllFilled(kids, T, h - 1)
    requires lo' <= |t.keys| - (j - i) + |keys| <= 2 * T - 1
    ensures Filled(Splice(t, i, j, keys, kids), T, h, lo')
  {
  }

  lemma FilledTwo<N, K>(y: Tree<N, K>, z: Tree<N, K>, T: nat, h: nat)
    requires T > 0 && Filled(y, T, h, T - 1) && Filled(z, T, h, T - 1)
    ensures AllFilled([y, z], T, h) && AllFilled([y], T, h)
  {
  }

  lemma FilledMoved<N, K>(y: Tree<N, K>, x: Tree<N, K>, k: K, T: nat, h: nat)
    requires T > 0 && Filled(y, T, h, T) && Filled(x, T, h, T - 1) && |x.keys| == T - 1
    ensures y.keys != []
    ensures Filled(LessLast(y), T, h, T - 1) && Filled(MoreFirst(x, k, LastKid(y)), T, h, T - 1)
    ensures Filled(LessFirst(y), T, h, T - 1) && Filled(MoreLast(x, k, FirstKid(y)), T, h, T - 1)
    ensures |MoreFirst(x, k, LastKid(y)).keys| == T == |MoreLast(x, k, FirstKid(y)).keys|
  {
  }

  lemma FilledJoin<N, K>(y: Tree<N, K>, k: K, z: Tree<N, K>, T: nat, h: nat)
    requires T > 0 && Filled(y, T, h, T - 1) && Filled(z, T, h, T - 1) && |y.keys| == T - 1 == |z.keys|
    ensures Filled(Join(y, k, z), T, h, T - 1) && |Join(y, k, z).keys| >= T
  {
  }

  lemma KidFilled<N, K>(t: Tree<N, K>, T: nat, h: nat, lo: nat, i: nat)
    requires T > 0 && h > 0 && Filled(t, T, h, lo) && i <= |t.keys|
    ensures |t.kids| == |t.keys| + 1 && Filled(t.kids[i], T, h - 1, T - 1)
  {
  }

  lemma ReadySame<N, K>(t: Tree<N, K>, T: nat, h: nat, i: nat)
    requires T >= 2 && h > 0 && Formed(t, h) && Filled(t, T, h, 1) && i <= |t.keys| && |t.kids[i].keys| != T - 1
    ensures Ready(t, T, h, i, t, i)
  {
    KidFormed(t, h, i);
    var f := Flat(t.kids[i], h - 1);
    StretchOf([], f, []);
    assert [] + f + [] == f;
  }

  lemma ReadyLentRight<N, K>(t: Tree<N, K>, T: nat, h: nat, i: nat)
    requires T >= 2 && h > 0 && Formed(t, h) && Filled(t, T, h, 1) && 0 < i <= |t.keys| && |t.kids| == |t.keys| + 1
    requires |t.kids[i].keys| == T - 1 && |t.kids[i - 1].keys| >= T
    ensures Ready(t, T, h, i, Refill(t, T, i).tree, i)
  {
    hide Filled, AllFilled, Formed, Flat, Before, After, LessLast, MoreFirst, Contains;
    TopFilled(t, T, h, 1);
    var x, y, k := t.kids[i], t.kids[i - 1], t.keys[i - 1];
    KidFilled(t, T, h, 1, i);
    KidFilled(t, T, h, 1, i - 1);
    KidFormed(t, h, i);
    KidFormed(t, h, i - 1);
    var y', l, x' := LessLast(y), y.keys[|y.keys| - 1], MoreFirst(x, k, LastKid(y));
    TighterFilled(y, T, h - 1, T);
    FilledMoved(y, x, k, T, h - 1);
    FilledTwo(y', x', T, h - 1);
    FilledSplice(t, T, h, i - 1, i, [l], [y', x'], 1, 0);
    LendRight(y, k, x, h - 1);
    FlatAtKey(t, h, i - 1);
    FlatToTwo(t, h, i - 1, i, y', l, x');
  }

  lemma ReadyLentLeft<N, K>(t: Tree<N, K>, T: nat, h: nat, i: nat)
    requires T >= 2 && h > 0 && Formed(t, h) && Filled(t, T, h, 1) && i < |t.keys| && |t.kids| == |t.keys| + 1
    requires |t.kids[i].keys| == T - 1 && |t.kids[i + 1].keys| >= T && (i > 0 ==> |t.kids[i - 1].keys| < T)
    ensures Ready(t, T, h, i, Refill(t, T, i).tree, i)
  {
    hide Filled, AllFilled, Formed, Flat, Before, After, LessFirst, MoreLast, Contains;
    TopFilled(t, T, h, 1);
    var x, y, k := t.kids[i], t.kids[i + 1], t.keys[i];
    KidFilled(t, T, h, 1, i);
    KidFilled(t, T, h, 1, i + 1);
    KidFormed(t, h, i);
    KidFormed(t, h, i + 1);
    var y', l, x' := LessFirst(y), y.keys[0], MoreLast(x, k, FirstKid(y));
    TighterFilled(y, T, h - 1, T);
    FilledMoved(y, x, k, T, h - 1);
    FilledTwo(x', y', T, h - 1);
    FilledSplice(t, T, h, i, i + 1, [l], [x', y'], 1, 0);
    LendLeft(x, k, y, h - 1);
    FlatAtKey(t, h, i);
    FlatToTwo(t, h, i, i + 1, x', l, y');
  }

  /** Kids i and i + 1 joined around the key between them; either of them may be the one to go on with. */
  lemma ReadyJoined<N, K>(t: Tree<N, K>, T: nat, h: nat, i: nat, kid: nat)
    requires T >= 2 && h > 0 && Formed(t, h) && Filled(t, T, h, 1) && i < |t.keys| && |t.kids| == |t.keys| + 1
    requires |t.kids[i].keys| == T - 1 == |t.kids[i + 1].keys| && (kid == i || kid == i + 1)
    ensures Ready(t, T, h, kid, Splice(t, i, i + 1, [], [Join(t.kids[i], t.keys[i], t.kids[i + 1])]), i)
  {
    hide Filled, AllFilled, Formed, Flat, Before, After, Contains, Join;
    TopFilled(t, T, h, 1);
    var y, z, k := t.kids[i], t.kids[i + 1], t.keys[i];
    KidFilled(t, T, h, 1, i);
    KidFilled(t, T, h, 1, i + 1);
    KidFormed(t, h, i);
    KidFormed(t, h, i + 1);
    var c := Join(y, k, z);
    FilledJoin(y, k, z, T, h - 1);
    FilledTwo(c, c, T, h - 1);
    FilledSplice(t, T, h, i, i + 1, [], [c], 1, 0);
    FlatJoin(y, k, z, h - 1);
    FlatAtKey(t, h, i);
    FlatToOne(t, h, i, i + 1, c);
    StretchOf([], Flat(y, h - 1), [k] + Flat(z, h - 1));
    StretchOf(Flat(y, h - 1) + [k], Flat(z, h - 1), []);
    assert [] + Flat(y, h - 1) + ([k] + Flat(z, h - 1)) == Flat(c, h - 1);
    assert Flat(y, h - 1) + [k] + Flat(z, h - 1) + [] == Flat(c, h - 1);
  }

  lemma TopFilled<N, K>(t: Tree<N, K>, T: nat, h: nat, lo: nat)
    requires T > 0 && Filled(t, T, h, lo)
    ensures lo <= |t.keys| <= 2 * T - 1
  {
  }

  /** A refill makes a tree ready. */
  lemma RefillIs<N, K>(t: Tree<N, K>, T: nat, h: nat, i: nat)
    requires T >= 2 && h > 0 && Formed(t, h) && Filled(t, T, h, 1) && i <= |t.keys| && |t.kids| == |t.keys| + 1
    ensures Ready(t, T, h, i, Refill(t, T, i).tree, Refill(t, T, i).at)
  {
    hide Filled, AllFilled, Formed, Flat, Good, Join, Splice;
    TopFilled(t, T, h, 1);
    KidFilled(t, T, h, 1, i);
    if |t.kids[i].keys| != T - 1 {
      ReadySame(t, T, h, i);
    } else if i > 0 && |t.kids[i - 1].keys| >= T {
      ReadyLentRight(t, T, h, i);
    } else if i < |t.keys| && |t.kids[i + 1].keys| >= T {
      ReadyLentLeft(t, T, h, i);
    } else if i > 0 {
      KidLower(t, T, h, i - 1);
      ReadyJoined(t, T, h, i - 1, i);
    } else {
      KidLower(t, T, h, i + 1);
      ReadyJoined(t, T, h, i, i);
    }
  }

  /** The sizes after a refill. */
  lemma RefillSizes<N, K>(t: Tree<N, K>, T: nat, h: nat, i: nat)
    requires T >= 2 && h > 0 && Formed(t, h) && Filled(t, T, h, 1) && i <= |t.keys| && |t.kids| == |t.keys| + 1
    ensures var r := Refill(t, T, i); var u := r.tree;
      && u.node == t.node && Filled(u, T, h, 0) && |t.keys| - 1 <= |u.keys| && |u.kids| == |u.keys| + 1
      && 0 <= r.at < |u.kids| && |u.kids[r.at].keys| >= T
  {
    hide Filled, Formed, Flat, Refill, Contains;
    RefillIs(t, T, h, i);
  }

  function KeyCounts<N, K>(kids: seq<Tree<N, K>>): (c: seq<nat>)
    ensures |c| == |kids| && forall j :: 0 <= j < |kids| ==> c[j] == |kids[j].keys|
  {
    seq(|kids|, j requires 0 <= j < |kids| => |kids[j].keys|)
  }

  /** Where the keys of a refill come from: the left sibling lends one if it can, or else the right one; if neither can,
      the kid is joined with the left sibling, or with the right one at the left end. */
  lemma RefillCounts<N, K>(t: Tree<N, K>, T: nat, i: nat)
    requires T >= 2 && i <= |t.keys| && |t.keys| >= 1 && |t.kids| == |t.keys| + 1
    requires forall j :: 0 <= j < |t.kids| ==> |t.kids[j].keys| >= T - 1
    ensures var c, d, r := KeyCounts(t.kids), KeyCounts(Refill(t, T, i).tree.kids), Refill(t, T, i);
      if c[i] >= T then r == Refilled(t, i)
      else if i > 0 && c[i - 1] >= T then d == c[i - 1 := c[i - 1] - 1][i := T] && r.at == i
      else if i < |t.keys| && c[i + 1] >= T then d == c[i := T][i + 1 := c[i + 1] - 1] && r.at == i
      else if i > 0 then d == c[..i - 1] + [2 * T - 1] + c[i + 1..] && r.at == i - 1
      else d == [2 * T - 1] + c[2..] && r.at == 0
  {
    hide Splice, KeyCounts, LessLast, LessFirst, MoreFirst, MoreLast, Join, LastKid, FirstKid;
    var x := t.kids[i];
    if |x.keys| < T {
      if i > 0 && |t.kids[i - 1].keys| >= T {
        LeftLends(t, i, x, t.kids[i - 1]);
      } else if i < |t.keys| && |t.kids[i + 1].keys| >= T {
        RightLends(t, i, x, t.kids[i + 1]);
      } else if i > 0 {
        PairJoins(t, i - 1, t.kids[i - 1], x);
      } else {
        PairJoins(t, 0, x, t.kids[1]);
      }
    }
  }

  lemma LeftLends<N, K>(t: Tree<N, K>, i: nat, x: Tree<N, K>, y: Tree<N, K>)
    requires 0 < i <= |t.keys| && |t.kids| == |t.keys| + 1 && x == t.kids[i] && y == t.kids[i - 1] && y.keys != []
    ensures var u := Splice(t, i - 1, i, [y.keys[|y.keys| - 1]], [LessLast(y), MoreFirst(x, t.keys[i - 1], LastKid(y))]);
      KeyCounts(u.kids) == KeyCounts(t.kids)[i - 1 := |y.keys| - 1][i := |x.keys| + 1]
  {
    hide *;
    SpliceCounts(t, i - 1, i, [y.keys[|y.keys| - 1]], [LessLast(y), MoreFirst(x, t.keys[i - 1], LastKid(y))]);
    LentCounts(y, x, t.keys[i - 1]);
    TwoCounts(KeyCounts(t.kids), i - 1, |y.keys| - 1, |x.keys| + 1);
  }

  lemma RightLends<N, K>(t: Tree<N, K>, i: nat, x: Tree<N, K>, y: Tree<N, K>)
    requires i < |t.keys| && |t.kids| == |t.keys| + 1 && x == t.kids[i] && y == t.kids[i + 1] && y.keys != []
    ensures var u := Splice(t, i, i + 1, [y.keys[0]], [MoreLast(x, t.keys[i], FirstKid(y)), LessFirst(y)]);
      KeyCounts(u.kids) == KeyCounts(t.kids)[i := |x.keys| + 1][i + 1 := |y.keys| - 1]
  {
    hide *;
    SpliceCounts(t, i, i + 1, [y.keys[0]], [MoreLast(x, t.keys[i], FirstKid(y)), LessFirst(y)]);
    LentCounts(y, x, t.keys[i]);
    TwoCounts(KeyCounts(t.kids), i, |x.keys| + 1, |y.keys| - 1);
  }

  lemma PairJoins<N, K>(t: Tree<N, K>, i: nat, y: Tree<N, K>, z: Tree<N, K>)
    requires i < |t.keys| && |t.kids| == |t.keys| + 1 && y == t.kids[i] && z == t.kids[i + 1]
    ensures var c := KeyCounts(t.kids);
      KeyCounts(Splice(t, i, i + 1, [], [Join(y, t.keys[i], z)]).kids) == c[..i] + [|y.keys| + 1 + |z.keys|] + c[i + 2..]
    ensures KeyCounts(t.kids)[..0] + [|y.keys| + 1 + |z.keys|] == [|y.keys| + 1 + |z.keys|]
  {
    hide *;
    SpliceCounts(t, i, i + 1, [], [Join(y, t.keys[i], z)]);
    JoinCounts(y, t.keys[i], z);
  }

  lemma LentCounts<N, K>(y: Tree<N, K>, x: Tree<N, K>, k: K)
    requires y.keys != []
    ensures KeyCounts([LessLast(y), MoreFirst(x, k, LastKid(y))]) == [|y.keys| - 1, |x.keys| + 1]
    ensures KeyCounts([MoreLast(x, k, FirstKid(y)), LessFirst(y)]) == [|x.keys| + 1, |y.keys| - 1]
  {
  }

  lemma JoinCounts<N, K>(y: Tree<N, K>, k: K, z: Tree<N, K>)
    ensures KeyCounts([Join(y, k, z)]) == [|y.keys| + 1 + |z.keys|]
  {
  }

  lemma TwoCounts(c: seq<nat>, i: nat, a: nat, b: nat)
    requires i + 1 < |c|
    ensures c[..i] + [a, b] + c[i + 2..] == c[i := a][i + 1 := b]
  {
  }

  lemma SpliceCounts<N, K>(t: Tree<N, K>, i: nat, j: nat, keys: seq<K>, kids: seq<Tree<N, K>>)
    requires i <= j < |t.kids| == |t.keys| + 1
    ensures KeyCounts(Splice(t, i, j, keys, kids).kids) == KeyCounts(t.kids)[..i] + KeyCounts(kids) + KeyCounts(t.kids)[j + 1..]
  {
  }

  /** The keys after a refill. */
  lemma RefillFlat<N, K>(t: Tree<N, K>, T: nat, h: nat, i: nat)
    requires T >= 2 && h > 0 && Formed(t, h) && Filled(t, T, h, 1) && i <= |t.keys| && |t.kids| == |t.keys| + 1
    ensures var r := Refill(t, T, i); Formed(r.tree, h) && Flat(r.tree, h) == Flat(t, h) && 0 <= r.at <= |r.tree.keys|
  {
    hide Filled, Formed, Flat, Refill, Contains;
    RefillIs(t, T, h, i);
  }

  lemma KidLower<N, K>(t: Tree<N, K>, T: nat, h: nat, i: nat)
    requires T > 0 && h > 0 && Filled(t, T, h, 1) && i <= |t.keys|
    ensures i < |t.kids| && |t.kids[i].keys| >= T - 1
  {
    assert Filled(t.kids[i], T, h - 1, T - 1);
  }

  lemma TighterFilled<N, K>(t: Tree<N, K>, T: nat, h: nat, lo: nat)
    requires T > 0 && Filled(t, T, h, T - 1) && |t.keys| >= lo
    ensures Filled(t, T, h, lo)
  {
  }

  // ----- deletion

  /** What deletion asks of a tree: a key to spare, and in mode Key a key equal to the one given. */
  ghost predicate CanDelete<N, K(!new)>(cmp: (K, K) -> int, t: Tree<N, K>, T: nat, h: nat, k: K, mode: Mode) {
    && T >= 2 && Formed(t, h) && Filled(t, T, h, 1)
    && (mode.Key? ==> Order(cmp) && SortedUp(cmp, Flat(t, h)) && Has(cmp, Flat(t, h), k))
  }

  /** Where deletion turns in one node. */
  function Turn<K>(cmp: (K, K) -> int, keys: seq<K>, h: nat, k: K, mode: Mode): (p: Place)
    ensures -1 <= p.i < |keys|
  {
    match mode
    case Key => Locate(cmp, keys, k)
    case Last => Place(|keys| - 1, if h == 0 then 0 else 1)
    case First => Place(-1, if h == 0 then 0 else -1)
  }

  /** Facts deletion needs on its way: in a leaf the key is there; otherwise it is below. */
  lemma LeafHit<N, K(!new)>(cmp: (K, K) -> int, t: Tree<N, K>, T: nat, k: K)
    requires CanDelete(cmp, t, T, 0, k, Key)
    ensures Locate(cmp, t.keys, k).r == 0 && Locate(cmp, t.keys, k).i >= 0
  {
    LocateIs(cmp, t.keys, k);
    var j :| 0 <= j < |t.keys| && cmp(t.keys[j], k) == 0;
    var p := Locate(cmp, t.keys, k);
    assert p.r == 0 || j < p.i || j == p.i || j > p.i;
  }

  lemma BelowCan<N, K(!new)>(cmp: (K, K) -> int, t: Tree<N, K>, T: nat, h: nat, k: K, mode: Mode)
    requires CanDelete(cmp, t, T, h, k, mode) && h > 0 && Turn(cmp, t.keys, h, k, mode).r != 0
    ensures |t.kids| == |t.keys| + 1
    ensures var r := Refill(t, T, Turn(cmp, t.keys, h, k, mode).i + 1);
      0 <= r.at < |r.tree.kids| && CanDelete(cmp, r.tree.kids[r.at], T, h - 1, k, mode)
  {
    hide Filled, AllFilled, Formed, Flat, Before, After, Refill, SortedUp, AllLess, AllGreater;
    var i := Turn(cmp, t.keys, h, k, mode).i;
    SizesOf(t, T, h);
    RefillIs(t, T, h, i + 1);
    var r := Refill(t, T, i + 1);
    KidFilled(r.tree, T, h, 0, r.at);
    TighterFilled(r.tree.kids[r.at], T, h - 1, 1);
    if mode.Key? {
      KeysSorted(cmp, t, h);
      LocateIs(cmp, t.keys, k);
      SideKeys(cmp, t, h, i, k);
      FlatAt(t, h, i + 1);
      HasInside(cmp, Before(t, h, i + 1), Flat(t.kids[i + 1], h - 1), After(t, h, i + 1), k);
      HasInStretch(cmp, Flat(r.tree.kids[r.at], h - 1), Flat(t.kids[i + 1], h - 1), k);
      FlatAt(r.tree, h, r.at);
      SortedParts(cmp, Before(r.tree, h, r.at) + Flat(r.tree.kids[r.at], h - 1), After(r.tree, h, r.at));
      SortedParts(cmp, Before(r.tree, h, r.at), Flat(r.tree.kids[r.at], h - 1));
    }
  }

  lemma SizesOf<N, K>(t: Tree<N, K>, T: nat, h: nat)
    requires T > 0 && Filled(t, T, h, 1)
    ensures t.keys != [] && (h > 0 ==> |t.kids| == |t.keys| + 1)
  {
  }

  /** The kids on both sides of a hit. */
  lemma SidesCan<N, K(!new)>(cmp: (K, K) -> int, t: Tree<N, K>, T: nat, h: nat, k: K, i: nat)
    requires CanDelete(cmp, t, T, h, k, Key) && h > 0 && i < |t.keys|
    ensures i + 1 < |t.kids|
    ensures CanDelete(cmp, t.kids[i], T, h - 1, k, Last) && CanDelete(cmp, t.kids[i + 1], T, h - 1, k, First)
  {
    hide AllFilled, Flat, SortedUp, Has;
    KidFormed(t, h, i);
    KidFormed(t, h, i + 1);
    KidFilled(t, T, h, 1, i);
    KidFilled(t, T, h, 1, i + 1);
    hide Formed, Filled;
    KidLower(t, T, h, i);
    KidLower(t, T, h, i + 1);
    TighterFilled(t.kids[i], T, h - 1, 1);
    TighterFilled(t.kids[i + 1], T, h - 1, 1);
  }

  /** new is old, except that keys equal to k may have been replaced by k itself. */
  ghost predicate Overwritten<K>(cmp: (K, K) -> int, old_: seq<K>, new_: seq<K>, k: K) {
    |old_| == |new_| && forall i :: 0 <= i < |old_| ==> new_[i] == old_[i] || (cmp(old_[i], k) == 0 && new_[i] == k)
  }

  lemma OverwrittenSorted<K(!new)>(cmp: (K, K) -> int, a: seq<K>, b: seq<K>, k: K)
    requires Order(cmp) && SortedUp(cmp, a) && Overwritten(cmp, a, b, k)
    ensures SortedUp(cmp, b)
  {
    forall i, j | 0 <= i < j < |b|
      ensures cmp(b[i], b[j]) <= 0
    {
      assert cmp(a[i], a[j]) <= 0;
      assert cmp(b[i], a[i]) <= 0 && cmp(a[j], b[j]) <= 0;
      assert cmp(b[i], a[j]) <= 0;
    }
  }

  lemma OverwrittenKey<K>(cmp: (K, K) -> int, a: seq<K>, x: K, b: seq<K>, k: K)
    requires cmp(x, k) == 0
    ensures Overwritten(cmp, a + [x] + b, a + [k] + b, k)
  {
  }

  /** Kids i and i + 1 can be joined around k, and deletion go on in what they become. */
  ghost predicate Mergeable<N, K(!new)>(cmp: (K, K) -> int, t: Tree<N, K>, T: nat, h: nat, k: K, i: nat) {
    hide Filled, AllFilled, Flat, Before, After, SortedUp, Overwritten, Join, CanDelete;
    && T > 0 && h > 0 && Formed(t, h) && i < |t.keys| && |t.kids| == |t.keys| + 1
    && var c := Join(t.kids[i], k, t.kids[i + 1]);
       && Formed(c, h - 1) && CanDelete(cmp, c, T, h - 1, k, Key) && Filled(c, T, h - 1, T - 1) && |c.keys| >= T
       && Overwritten(cmp, Flat(t, h), Before(t, h, i) + Flat(c, h - 1) + After(t, h, i + 1), k)
  }

  /** A hit between two minimal kids: they are joined around the key searched for, which is then in the joined kid. */
  lemma MergedCan<N, K(!new)>(cmp: (K, K) -> int, t: Tree<N, K>, T: nat, h: nat, k: K, i: nat)
    requires CanDelete(cmp, t, T, h, k, Key) && h > 0 && i < |t.keys| && cmp(t.keys[i], k) == 0
    requires |t.kids| == |t.keys| + 1 && |t.kids[i].keys| == T - 1 == |t.kids[i + 1].keys|
    ensures Mergeable(cmp, t, T, h, k, i)
  {
    hide Filled, AllFilled, Formed, Flat, Before, After, SortedUp, Overwritten, Join;
    var y, z := t.kids[i], t.kids[i + 1];
    var c := Join(y, k, z);
    KidFormed(t, h, i);
    KidFormed(t, h, i + 1);
    KidFilled(t, T, h, 1, i);
    KidFilled(t, T, h, 1, i + 1);
    FilledJoin(y, k, z, T, h - 1);
    TighterFilled(c, T, h - 1, 1);
    FlatJoin(y, k, z, h - 1);
    FlatAtKey(t, h, i);
    MergedOrder(cmp, Before(t, h, i), Flat(y, h - 1), t.keys[i], Flat(z, h - 1), After(t, h, i + 1), k);
  }

  lemma MergedOrder<K(!new)>(cmp: (K, K) -> int, a: seq<K>, fy: seq<K>, x: K, fz: seq<K>, b: seq<K>, k: K)
    requires Order(cmp) && SortedUp(cmp, a + (fy + [x] + fz) + b) && cmp(x, k) == 0
    ensures SortedUp(cmp, fy + [k] + fz) && Has(cmp, fy + [k] + fz, k)
    ensures Overwritten(cmp, a + (fy + [x] + fz) + b, a + (fy + [k] + fz) + b, k)
  {
    hide SortedUp, Overwritten, Order;
    OverwrittenKey(cmp, a + fy, x, fz + b, k);
    assert a + fy + [x] + (fz + b) == a + (fy + [x] + fz) + b;
    assert a + fy + [k] + (fz + b) == a + (fy + [k] + fz) + b;
    OverwrittenSorted(cmp, a + (fy + [x] + fz) + b, a + (fy + [k] + fz) + b, k);
    SortedParts(cmp, a + (fy + [k] + fz), b);
    SortedParts(cmp, a, fy + [k] + fz);
    EqualToItself(cmp, k);
    assert (fy + [k] + fz)[|fy|] == k;
  }

  lemma EqualToItself<K(!new)>(cmp: (K, K) -> int, k: K)
    requires Order(cmp)
    ensures cmp(k, k) == 0
  {
  }

  /** The tree that deletion leaves and the key it returns. */
  ghost function Del<N, K(!new)>(cmp: (K, K) -> int, t: Tree<N, K>, T: nat, h: nat, k: K, mode: Mode): (Tree<N, K>, K)
    requires CanDelete(cmp, t, T, h, k, mode)
    decreases h
  {
    hide Flat, Filled, AllFilled, Formed, SortedUp, Has, Order, Refill, Locate, CanDelete, Before, After, Overwritten;
    CanIs(cmp, t, T, h, k, mode);
    var p := Turn(cmp, t.keys, h, k, mode);
    if h == 0 then
      if mode.Key? then LeafHit(cmp, t, T, k); DelAt(t, p.i)
      else DelAt(t, if mode.First? then p.i + 1 else p.i)
    else if p.r == 0 then
      HitIs(cmp, t, T, h, k, mode);
      SidesCan(cmp, t, T, h, k, p.i);
      var y, z := t.kids[p.i], t.kids[p.i + 1];
      if |y.keys| >= T then
        var d := Del(cmp, y, T, h - 1, k, Last);
        (Splice(t, p.i, p.i + 1, [d.1], [d.0, z]), t.keys[p.i])
      else if |z.keys| >= T then
        var d := Del(cmp, z, T, h - 1, k, First);
        (Splice(t, p.i, p.i + 1, [d.1], [y, d.0]), t.keys[p.i])
      else
        KidLower(t, T, h, p.i);
        KidLower(t, T, h, p.i + 1);
        MergedCan(cmp, t, T, h, k, p.i);
        var d := Del(cmp, Join(y, k, z), T, h - 1, k, mode);
        (Splice(t, p.i, p.i + 1, [], [d.0]), d.1)
    else
      BelowCan(cmp, t, T, h, k, mode);
      var r := Refill(t, T, p.i + 1);
      var d := Del(cmp, r.tree.kids[r.at], T, h - 1, k, mode);
      (r.tree.(kids := r.tree.kids[r.at := d.0]), d.1)
  }

  lemma CanIs<N, K(!new)>(cmp: (K, K) -> int, t: Tree<N, K>, T: nat, h: nat, k: K, mode: Mode)
    requires CanDelete(cmp, t, T, h, k, mode)
    ensures T >= 2 && Formed(t, h) && Filled(t, T, h, 1) && t.keys != [] && (h > 0 ==> |t.kids| == |t.keys| + 1)
    ensures mode.Key? ==> Order(cmp)
  {
  }

  /** A leaf without key i, and that key. */
  function DelAt<N, K>(t: Tree<N, K>, i: int): (Tree<N, K>, K)
    requires 0 <= i < |t.keys|
  {
    (t.(keys := t.keys[..i] + t.keys[i + 1..]), t.keys[i])
  }

  lemma HitIs<N, K(!new)>(cmp: (K, K) -> int, t: Tree<N, K>, T: nat, h: nat, k: K, mode: Mode)
    requires CanDelete(cmp, t, T, h, k, mode) && h > 0 && Turn(cmp, t.keys, h, k, mode).r == 0
    ensures mode.Key? && var p := Locate(cmp, t.keys, k); 0 <= p.i < |t.keys| && cmp(t.keys[p.i], k) == 0
  {
    SizesOf(t, T, h);
    KeysSorted(cmp, t, h);
    LocateIs(cmp, t.keys, k);
  }
}
