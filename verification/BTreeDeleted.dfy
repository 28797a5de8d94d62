/** What deletion does: the tree it leaves is a B-tree with exactly one key less. */
module BTreeDeleted {
  import opened Orders
  import opened BTree
  import opened BTreeSearch
  import opened BTreeRemoval

  // ----- sizes

  /** At the end of a step: kid at replaced by what deletion left of it. */
  lemma FilledKid<N, K>(u: Tree<N, K>, T: nat, h: nat, at: nat, c: Tree<N, K>, lo: nat)
    requires T > 0 && h > 0 && Filled(u, T, h, 0) && at < |u.kids| && Filled(c, T, h - 1, T - 1) && lo <= |u.keys|
    ensures Filled(u.(kids := u.kids[at := c]), T, h, lo)
  {
  }

  lemma LooserFilled<N, K>(t: Tree<N, K>, T: nat, h: nat, lo: nat, lo': nat)
    requires T > 0 && Filled(t, T, h, lo) && lo' <= lo
    ensures Filled(t, T, h, lo')
  {
  }

  /** Deletion leaves a B-tree: all leaves at one depth, every node below in range, here at most one key less. */
  lemma {:induction false} DelSizes<N, K(!new)>(cmp: (K, K) -> int, t: Tree<N, K>, T: nat, h: nat, k: K, mode: Mode)
    requires CanDelete(cmp, t, T, h, k, mode)
    ensures var u := Del(cmp, t, T, h, k, mode).0;
      u.node == t.node && |t.keys| > 0 && Filled(u, T, h, |t.keys| - 1)
    decreases h
  {
    hide Flat, Filled, AllFilled, Formed, SortedUp, Has, Order, Refill, Locate, CanDelete, Before, After, Overwritten;
    CanIs(cmp, t, T, h, k, mode);
    var p := Turn(cmp, t.keys, h, k, mode);
    if h == 0 {
      if mode.Key? { LeafHit(cmp, t, T, k); }
      LeafSizes(t, T, if mode.First? then p.i + 1 else p.i);
    } else if p.r == 0 {
      HitIs(cmp, t, T, h, k, mode);
      DelSizesHit(cmp, t, T, h, k, p.i);
    } else {
      DelSizesBelow(cmp, t, T, h, k, mode);
    }
  }

  /** Where there is no hit, deletion goes on in a kid with keys to spare. */
  ghost predicate GoesBelow<N, K(!new)>(cmp: (K, K) -> int, t: Tree<N, K>, T: nat, h: nat, k: K, mode: Mode)
    requires CanDelete(cmp, t, T, h, k, mode) && h > 0 && Turn(cmp, t.keys, h, k, mode).r != 0
  {
    hide Flat, Filled, AllFilled, Formed, SortedUp, Has, Order, Refill, Locate, CanDelete, Before, After, Overwritten, Turn;
    CanIs(cmp, t, T, h, k, mode);
    BelowCan(cmp, t, T, h, k, mode);
    var r := Refill(t, T, Turn(cmp, t.keys, h, k, mode).i + 1);
    var d := Del(cmp, r.tree.kids[r.at], T, h - 1, k, mode);
    Del(cmp, t, T, h, k, mode) == (r.tree.(kids := r.tree.kids[r.at := d.0]), d.1)
  }

  lemma DelBelowIs<N, K(!new)>(cmp: (K, K) -> int, t: Tree<N, K>, T: nat, h: nat, k: K, mode: Mode)
    requires CanDelete(cmp, t, T, h, k, mode) && h > 0 && Turn(cmp, t.keys, h, k, mode).r != 0
    ensures GoesBelow(cmp, t, T, h, k, mode)
  {
    hide Flat, Filled, AllFilled, Formed, SortedUp, Has, Order, Refill, Locate, CanDelete, Before, After, Overwritten, Turn;
  }

  /** The sizes after a step into a refilled kid, d being what deletion left of it. */
  lemma BelowFilled<N, K>(t: Tree<N, K>, T: nat, h: nat, r: Refilled<N, K>, d: Tree<N, K>)
    requires T > 0 && h > 0 && |t.keys| > 0 && Filled(r.tree, T, h, 0) && |t.keys| - 1 <= |r.tree.keys|
    requires 0 <= r.at < |r.tree.kids| && |r.tree.kids[r.at].keys| >= T
    requires Filled(d, T, h - 1, |r.tree.kids[r.at].keys| - 1)
    ensures Filled(r.tree.(kids := r.tree.kids[r.at := d]), T, h, |t.keys| - 1)
  {
    hide *;
    LooserFilled(d, T, h - 1, |r.tree.kids[r.at].keys| - 1, T - 1);
    FilledKid(r.tree, T, h, r.at, d, |t.keys| - 1);
  }

  lemma {:induction false} DelSizesBelow<N, K(!new)>(cmp: (K, K) -> int, t: Tree<N, K>, T: nat, h: nat, k: K, mode: Mode)
    requires CanDelete(cmp, t, T, h, k, mode) && h > 0 && Turn(cmp, t.keys, h, k, mode).r != 0
    ensures var u := Del(cmp, t, T, h, k, mode).0;
      u.node == t.node && |t.keys| > 0 && Filled(u, T, h, |t.keys| - 1)
    decreases h, 0
  {
    hide Flat, Filled, AllFilled, Formed, SortedUp, Has, Order, Refill, Locate, CanDelete, Before, After, Overwritten, Turn, Del;
    CanIs(cmp, t, T, h, k, mode);
    var p := Turn(cmp, t.keys, h, k, mode);
    BelowCan(cmp, t, T, h, k, mode);
    RefillSizes(t, T, h, p.i + 1);
    var r := Refill(t, T, p.i + 1);
    DelBelowIs(cmp, t, T, h, k, mode);
    DelSizes(cmp, r.tree.kids[r.at], T, h - 1, k, mode);
    BelowFilled(t, T, h, r, Del(cmp, r.tree.kids[r.at], T, h - 1, k, mode).0);
  }

  lemma LeafSizes<N, K>(t: Tree<N, K>, T: nat, i: int)
    requires T > 0 && Filled(t, T, 0, 1) && 0 <= i < |t.keys|
    ensures Filled(DelAt(t, i).0, T, 0, |t.keys| - 1)
  {
  }

  /** The sizes after a hit whose neighbours are y and z, or the single kid y. */
  lemma SplicedFilled<N, K>(t: Tree<N, K>, T: nat, h: nat, i: nat, m: K, y: Tree<N, K>, z: Tree<N, K>, lo: nat, hi: nat)
    requires T > 0 && h > 0 && Filled(t, T, h, 1) && i < |t.keys|
    requires lo >= T - 1 && hi >= T - 1 && Filled(y, T, h - 1, lo) && Filled(z, T, h - 1, hi)
    ensures Filled(Splice(t, i, i + 1, [m], [y, z]), T, h, |t.keys| - 1)
    ensures Filled(Splice(t, i, i + 1, [], [y]), T, h, |t.keys| - 1)
  {
    hide *;
    TopFilled(t, T, h, 1);
    LooserFilled(y, T, h - 1, lo, T - 1);
    LooserFilled(z, T, h - 1, hi, T - 1);
    FilledTwo(y, z, T, h - 1);
    FilledSplice(t, T, h, i, i + 1, [m], [y, z], 1, |t.keys| - 1);
    FilledSplice(t, T, h, i, i + 1, [], [y], 1, |t.keys| - 1);
  }

  /** The case of a hit in an internal node. */
  lemma {:induction false} DelSizesHit<N, K(!new)>(cmp: (K, K) -> int, t: Tree<N, K>, T: nat, h: nat, k: K, i: nat)
    requires CanDelete(cmp, t, T, h, k, Key) && h > 0 && Locate(cmp, t.keys, k) == Place(i, 0)
    ensures var u := Del(cmp, t, T, h, k, Key).0;
      u.node == t.node && |t.keys| > 0 && Filled(u, T, h, |t.keys| - 1)
    decreases h, 0
  {
    hide Flat, Filled, AllFilled, Formed, SortedUp, Has, Order, Refill, Locate, CanDelete, Before, After, Overwritten;
    CanIs(cmp, t, T, h, k, Key);
    HitIs(cmp, t, T, h, k, Key);
    SidesCan(cmp, t, T, h, k, i);
    KidFilled(t, T, h, 1, i);
    KidFilled(t, T, h, 1, i + 1);
    KidLower(t, T, h, i);
    KidLower(t, T, h, i + 1);
    var y, z := t.kids[i], t.kids[i + 1];
    if |y.keys| >= T {
      var d := Del(cmp, y, T, h - 1, k, Last);
      DelSizes(cmp, y, T, h - 1, k, Last);
      SplicedFilled(t, T, h, i, d.1, d.0, z, |y.keys| - 1, T - 1);
    } else if |z.keys| >= T {
      var d := Del(cmp, z, T, h - 1, k, First);
      DelSizes(cmp, z, T, h - 1, k, First);
      SplicedFilled(t, T, h, i, d.1, y, d.0, T - 1, |z.keys| - 1);
    } else {
      MergedCan(cmp, t, T, h, k, i);
      var c := Join(y, k, z);
      var d := Del(cmp, c, T, h - 1, k, Key);
      DelSizes(cmp, c, T, h - 1, k, Key);
      SplicedFilled(t, T, h, i, k, d.0, d.0, |c.keys| - 1, |c.keys| - 1);
    }
  }

  // ----- keys

  /** new is old without the key at place at, which is m. */
  ghost predicate Cut<K>(before: seq<K>, after: seq<K>, m: K, at: nat) {
    at < |before| && before[at] == m && after == before[..at] + before[at + 1..]
  }

  lemma CutInside<K>(a: seq<K>, before: seq<K>, after: seq<K>, b: seq<K>, m: K, at: nat)
    requires Cut(before, after, m, at)
    ensures Cut(a + before + b, a + after + b, m, |a| + at)
  {
    var s := a + before + b;
    assert s[..|a| + at] == a + before[..at];
    assert s[|a| + at + 1..] == before[at + 1..] + b;
  }

  lemma CutAround<K>(a: seq<K>, m: K, b: seq<K>)
    ensures Cut(a + [m] + b, a + b, m, |a|)
  {
    assert (a + [m] + b)[..|a|] == a && (a + [m] + b)[|a| + 1..] == b;
  }

  /** The key sequence after the last step: kid at of u replaced. */
  lemma FlatKid<N, K>(u: Tree<N, K>, T: nat, h: nat, at: nat, c: Tree<N, K>)
    requires T > 0 && h > 0 && Formed(u, h) && at <= |u.keys| && Formed(c, h - 1)
    ensures at < |u.kids| && Formed(u.(kids := u.kids[at := c]), h)
    ensures Flat(u.(kids := u.kids[at := c]), h) == Before(u, h, at) + Flat(c, h - 1) + After(u, h, at)
  {
    SpliceOne(u, at, c);
    FlatToOne(u, h, at, at, c);
  }

  lemma SpliceOne<N, K>(u: Tree<N, K>, at: nat, c: Tree<N, K>)
    requires at < |u.kids| == |u.keys| + 1
    ensures u.(kids := u.kids[at := c]) == Splice(u, at, at, [], [c])
  {
    assert u.keys == u.keys[..at] + [] + u.keys[at..];
    assert u.kids[at := c] == u.kids[..at] + [c] + u.kids[at + 1..];
  }

  lemma DelFormed<N, K(!new)>(cmp: (K, K) -> int, t: Tree<N, K>, T: nat, h: nat, k: K, mode: Mode)
    requires CanDelete(cmp, t, T, h, k, mode)
    ensures Formed(Del(cmp, t, T, h, k, mode).0, h)
  {
    hide Filled, Formed, CanDelete;
    CanIs(cmp, t, T, h, k, mode);
    DelSizes(cmp, t, T, h, k, mode);
    FilledIsFormed(Del(cmp, t, T, h, k, mode).0, T, h, |t.keys| - 1);
  }

  lemma NothingAfterLast<N, K>(u: Tree<N, K>, h: nat)
    requires h > 0 && Formed(u, h)
    ensures After(u, h, |u.keys|) == [] && Before(u, h, 0) == []
  {
  }

  /** In mode Last the last key comes out, in mode First the first one. */
  lemma {:induction false} DelEnd<N, K(!new)>(cmp: (K, K) -> int, t: Tree<N, K>, T: nat, h: nat, k: K, mode: Mode)
    requires CanDelete(cmp, t, T, h, k, mode) && !mode.Key?
    ensures Formed(t, h)
    ensures var d := Del(cmp, t, T, h, k, mode);
      && Formed(d.0, h)
      && Flat(t, h) == if mode.Last? then Flat(d.0, h) + [d.1] else [d.1] + Flat(d.0, h)
    decreases h
  {
    hide Flat, Filled, AllFilled, Formed, Refill, CanDelete, Before, After, Ready, Good;
    CanIs(cmp, t, T, h, k, mode);
    DelFormed(cmp, t, T, h, k, mode);
    var p := Turn(cmp, t.keys, h, k, mode);
    if h == 0 {
      LeafFlat(t, T, if mode.Last? then |t.keys| - 1 else 0);
    } else {
      DelEndBelow(cmp, t, T, h, k, mode);
    }
  }

  lemma LeafFlat<N, K>(t: Tree<N, K>, T: nat, i: int)
    requires T > 0 && Filled(t, T, 0, 1) && 0 <= i < |t.keys|
    ensures Formed(t, 0) && Formed(DelAt(t, i).0, 0)
    ensures Flat(t, 0) == t.keys[..i] + [t.keys[i]] + t.keys[i + 1..] && Flat(DelAt(t, i).0, 0) == t.keys[..i] + t.keys[i + 1..]
  {
  }

  /** The kid to go on with, at the end of the tree, is the one at the same end after a refill. */
  lemma RefillAtEnd<N, K>(t: Tree<N, K>, T: nat, h: nat, i: nat)
    requires T >= 2 && h > 0 && Formed(t, h) && Filled(t, T, h, 1) && i <= |t.keys| && |t.kids| == |t.keys| + 1
    ensures var r := Refill(t, T, i);
      && (i == |t.keys| ==> r.at == |r.tree.keys|)
      && (i == 0 ==> r.at == 0)
  {
    RefillSizes(t, T, h, i);
    KidLower(t, T, h, i);
    if i > 0 { KidLower(t, T, h, i - 1); }
    if i < |t.keys| { KidLower(t, T, h, i + 1); }
    hide Filled, Formed;
  }

  lemma {:induction false} DelEndBelow<N, K(!new)>(cmp: (K, K) -> int, t: Tree<N, K>, T: nat, h: nat, k: K, mode: Mode)
    requires CanDelete(cmp, t, T, h, k, mode) && !mode.Key? && h > 0
    ensures Formed(t, h)
    ensures var d := Del(cmp, t, T, h, k, mode);
      && Formed(d.0, h)
      && Flat(t, h) == if mode.Last? then Flat(d.0, h) + [d.1] else [d.1] + Flat(d.0, h)
    decreases h, 0
  {
    hide Flat, Filled, AllFilled, Formed, Refill, CanDelete, Before, After;
    CanIs(cmp, t, T, h, k, mode);
    var i := if mode.Last? then |t.keys| else 0;
    BelowCan(cmp, t, T, h, k, mode);
    RefillFlat(t, T, h, i);
    RefillAtEnd(t, T, h, i);
    var r := Refill(t, T, i);
    var c := r.tree.kids[r.at];
    var d := Del(cmp, c, T, h - 1, k, mode);
    DelEnd(cmp, c, T, h - 1, k, mode);
    FlatAt(r.tree, h, r.at);
    FlatKid(r.tree, T, h, r.at, d.0);
    NothingAfterLast(r.tree, h);
    var a, b, f := Before(r.tree, h, r.at), After(r.tree, h, r.at), Flat(d.0, h - 1);
    if mode.Last? {
      assert a + (f + [d.1]) + [] == (a + f + []) + [d.1];
    } else {
      assert [] + ([d.1] + f) + b == [d.1] + ([] + f + b);
    }
  }

  lemma OverwrittenSelf<K>(cmp: (K, K) -> int, s: seq<K>, k: K)
    ensures Overwritten(cmp, s, s, k)
  {
  }

  lemma OverwrittenInside<K(!new)>(cmp: (K, K) -> int, whole: seq<K>, a: seq<K>, m: seq<K>, m': seq<K>, b: seq<K>, k: K)
    requires Order(cmp) && Overwritten(cmp, whole, a + m + b, k) && Overwritten(cmp, m, m', k)
    ensures Overwritten(cmp, whole, a + m' + b, k)
  {
    EqualToItself(cmp, k);
    var s, s' := a + m + b, a + m' + b;
    forall i | 0 <= i < |s'|
      ensures s'[i] == whole[i] || (cmp(whole[i], k) == 0 && s'[i] == k)
    {
      assert s[i] == whole[i] || (cmp(whole[i], k) == 0 && s[i] == k);
      if |a| <= i < |a| + |m| {
        assert s[i] == m[i - |a|] && s'[i] == m'[i - |a|];
      } else {
        assert s'[i] == s[i];
      }
    }
  }

  /** In mode Key exactly one key comes out, one that compares equal to k. Where it was found between two minimal
      kids, the key searched for had taken its place before. */
  lemma {:induction false} DelKey<N, K(!new)>(cmp: (K, K) -> int, t: Tree<N, K>, T: nat, h: nat, k: K) returns (mid: seq<K>, at: nat)
    requires CanDelete(cmp, t, T, h, k, Key)
    ensures Formed(t, h) && Formed(Del(cmp, t, T, h, k, Key).0, h)
    ensures Overwritten(cmp, Flat(t, h), mid, k)
    ensures Cut(mid, Flat(Del(cmp, t, T, h, k, Key).0, h), Del(cmp, t, T, h, k, Key).1, at) && cmp(Del(cmp, t, T, h, k, Key).1, k) == 0
    decreases h
  {
    hide Flat, Filled, AllFilled, Formed, Refill, CanDelete, Before, After, SortedUp, Order, Has, Overwritten, Cut, Locate;
    CanIs(cmp, t, T, h, k, Key);
    var p := Locate(cmp, t.keys, k);
    if h == 0 {
      mid, at := DelKeyLeaf(cmp, t, T, k);
    } else if p.r == 0 {
      HitIs(cmp, t, T, h, k, Key);
      SidesCan(cmp, t, T, h, k, p.i);
      KidLower(t, T, h, p.i);
      KidLower(t, T, h, p.i + 1);
      if |t.kids[p.i].keys| >= T || |t.kids[p.i + 1].keys| >= T {
        mid := Flat(t, h);
        at := DelKeyHit(cmp, t, T, h, k, p.i);
        OverwrittenSelf(cmp, mid, k);
      } else {
        mid, at := DelKeyMerged(cmp, t, T, h, k, p.i);
      }
    } else {
      mid, at := DelKeyBelow(cmp, t, T, h, k);
    }
  }

  lemma DelKeyLeaf<N, K(!new)>(cmp: (K, K) -> int, t: Tree<N, K>, T: nat, k: K) returns (mid: seq<K>, at: nat)
    requires CanDelete(cmp, t, T, 0, k, Key)
    ensures Formed(t, 0) && Formed(Del(cmp, t, T, 0, k, Key).0, 0)
    ensures Overwritten(cmp, Flat(t, 0), mid, k)
    ensures Cut(mid, Flat(Del(cmp, t, T, 0, k, Key).0, 0), Del(cmp, t, T, 0, k, Key).1, at) && cmp(Del(cmp, t, T, 0, k, Key).1, k) == 0
  {
    SizesOf(t, T, 0);
    LeafHit(cmp, t, T, k);
    LocateIs(cmp, t.keys, k);
    var i := Locate(cmp, t.keys, k).i;
    LeafFlat(t, T, i);
    mid, at := Flat(t, 0), i;
    hide Formed, Filled, Locate, SortedUp;
    OverwrittenSelf(cmp, mid, k);
    CutAround(t.keys[..i], t.keys[i], t.keys[i + 1..]);
  }

  /** A hit replaced by its neighbour in order: as if the hit itself had been cut out. */
  lemma DelKeyHit<N, K(!new)>(cmp: (K, K) -> int, t: Tree<N, K>, T: nat, h: nat, k: K, i: nat) returns (at: nat)
    requires CanDelete(cmp, t, T, h, k, Key) && h > 0 && Locate(cmp, t.keys, k) == Place(i, 0)
    requires i + 1 < |t.kids| && (|t.kids[i].keys| >= T || |t.kids[i + 1].keys| >= T)
    ensures Formed(t, h) && Formed(Del(cmp, t, T, h, k, Key).0, h)
    ensures Cut(Flat(t, h), Flat(Del(cmp, t, T, h, k, Key).0, h), Del(cmp, t, T, h, k, Key).1, at) && cmp(Del(cmp, t, T, h, k, Key).1, k) == 0
  {
    hide Flat, Filled, AllFilled, Formed, Refill, CanDelete, Before, After, SortedUp, Order, Has, Overwritten, Cut, Locate;
    CanIs(cmp, t, T, h, k, Key);
    HitIs(cmp, t, T, h, k, Key);
    SidesCan(cmp, t, T, h, k, i);
    var y, z, x := t.kids[i], t.kids[i + 1], t.keys[i];
    KidFormed(t, h, i);
    KidFormed(t, h, i + 1);
    FlatAtKey(t, h, i);
    var a, b, fy, fz := Before(t, h, i), After(t, h, i + 1), Flat(y, h - 1), Flat(z, h - 1);
    at := |a + fy|;
    if |y.keys| >= T {
      var d := Del(cmp, y, T, h - 1, k, Last);
      DelEnd(cmp, y, T, h - 1, k, Last);
      FlatToTwo(t, h, i, i + 1, d.0, d.1, z);
      CutBehind(a, Flat(d.0, h - 1), d.1, x, fz, b);
    } else {
      var d := Del(cmp, z, T, h - 1, k, First);
      DelEnd(cmp, z, T, h - 1, k, First);
      FlatToTwo(t, h, i, i + 1, y, d.1, d.0);
      CutBefore(a, fy, x, d.1, Flat(d.0, h - 1), b);
    }
  }

  /** The last key before x takes its place. */
  lemma CutBehind<K>(a: seq<K>, l: seq<K>, m: K, x: K, r: seq<K>, b: seq<K>)
    ensures Cut(a + ((l + [m]) + [x] + r) + b, a + (l + [m] + r) + b, x, |a + (l + [m])|)
  {
    CutAround(a + (l + [m]), x, r + b);
    assert a + ((l + [m]) + [x] + r) + b == (a + (l + [m])) + [x] + (r + b);
    assert a + (l + [m] + r) + b == (a + (l + [m])) + (r + b);
  }

  /** The first key behind x takes its place. */
  lemma CutBefore<K>(a: seq<K>, l: seq<K>, x: K, m: K, r: seq<K>, b: seq<K>)
    ensures Cut(a + (l + [x] + ([m] + r)) + b, a + (l + [m] + r) + b, x, |a + l|)
  {
    CutAround(a + l, x, ([m] + r) + b);
    assert a + (l + [x] + ([m] + r)) + b == (a + l) + [x] + (([m] + r) + b);
    assert a + (l + [m] + r) + b == (a + l) + (([m] + r) + b);
  }

  lemma {:induction false} DelKeyMerged<N, K(!new)>(cmp: (K, K) -> int, t: Tree<N, K>, T: nat, h: nat, k: K, i: nat) returns (mid: seq<K>, at: nat)
    requires CanDelete(cmp, t, T, h, k, Key) && h > 0 && Locate(cmp, t.keys, k) == Place(i, 0)
    requires i + 1 < |t.kids| && |t.kids[i].keys| == T - 1 == |t.kids[i + 1].keys|
    ensures Formed(t, h) && Formed(Del(cmp, t, T, h, k, Key).0, h)
    ensures Overwritten(cmp, Flat(t, h), mid, k)
    ensures Cut(mid, Flat(Del(cmp, t, T, h, k, Key).0, h), Del(cmp, t, T, h, k, Key).1, at) && cmp(Del(cmp, t, T, h, k, Key).1, k) == 0
    decreases h, 0
  {
    hide Flat, Filled, AllFilled, Formed, Refill, CanDelete, Before, After, SortedUp, Order, Has, Overwritten, Cut, Locate, Join;
    CanIs(cmp, t, T, h, k, Key);
    HitIs(cmp, t, T, h, k, Key);
    MergedCan(cmp, t, T, h, k, i);
    SidesCan(cmp, t, T, h, k, i);
    var c := Join(t.kids[i], k, t.kids[i + 1]);
    var d := Del(cmp, c, T, h - 1, k, Key);
    var mid', at' := DelKey(cmp, c, T, h - 1, k);
    FlatToOne(t, h, i, i + 1, d.0);
    var a, b := Before(t, h, i), After(t, h, i + 1);
    mid, at := a + mid' + b, |a| + at';
    OverwrittenInside(cmp, Flat(t, h), a, Flat(c, h - 1), mid', b, k);
    CutInside(a, mid', Flat(d.0, h - 1), b, d.1, at');
  }

  lemma {:induction false} DelKeyBelow<N, K(!new)>(cmp: (K, K) -> int, t: Tree<N, K>, T: nat, h: nat, k: K) returns (mid: seq<K>, at: nat)
    requires CanDelete(cmp, t, T, h, k, Key) && h > 0 && Locate(cmp, t.keys, k).r != 0
    ensures Formed(t, h) && Formed(Del(cmp, t, T, h, k, Key).0, h)
    ensures Overwritten(cmp, Flat(t, h), mid, k)
    ensures Cut(mid, Flat(Del(cmp, t, T, h, k, Key).0, h), Del(cmp, t, T, h, k, Key).1, at) && cmp(Del(cmp, t, T, h, k, Key).1, k) == 0
    decreases h, 0
  {
    hide Flat, Filled, AllFilled, Formed, Refill, CanDelete, Before, After, SortedUp, Order, Has, Overwritten, Cut, Locate;
    CanIs(cmp, t, T, h, k, Key);
    BelowCan(cmp, t, T, h, k, Key);
    var i := Locate(cmp, t.keys, k).i + 1;
    RefillFlat(t, T, h, i);
    var r := Refill(t, T, i);
    var c := r.tree.kids[r.at];
    var d := Del(cmp, c, T, h - 1, k, Key);
    var mid', at' := DelKey(cmp, c, T, h - 1, k);
    FlatAt(r.tree, h, r.at);
    FlatKid(r.tree, T, h, r.at, d.0);
    var a, b := Before(r.tree, h, r.at), After(r.tree, h, r.at);
    mid, at := a + mid' + b, |a| + at';
    OverwrittenSelf(cmp, Flat(t, h), k);
    OverwrittenInside(cmp, Flat(t, h), a, Flat(c, h - 1), mid', b, k);
    CutInside(a, mid', Flat(d.0, h - 1), b, d.1, at');
  }

  // ----- when deletion removes a stored key and nothing else

  /** Deletion takes one key out and leaves the others as they were. */
  ghost predicate CutsOne<N, K(!new)>(cmp: (K, K) -> int, t: Tree<N, K>, T: nat, h: nat, k: K)
    requires CanDelete(cmp, t, T, h, k, Key)
  {
    var d := Del(cmp, t, T, h, k, Key);
    Formed(d.0, h) && exists at :: Cut(Flat(t, h), Flat(d.0, h), d.1, at)
  }

  /** It does so on every tree, exactly when the comparison calls no two different keys equal. */
  lemma CutsOneExactly<K(!new)>(cmp: (K, K) -> int, T: nat)
    requires Order(cmp) && T >= 2
    ensures (forall a: K, b: K :: cmp(a, b) == 0 ==> a == b)
      <==> (forall t: Tree<int, K>, h: nat, k: K :: CanDelete(cmp, t, T, h, k, Key) ==> CutsOne(cmp, t, T, h, k))
  {
    if forall a: K, b: K :: cmp(a, b) == 0 ==> a == b {
      forall t: Tree<int, K>, h: nat, k: K | CanDelete(cmp, t, T, h, k, Key)
        ensures CutsOne(cmp, t, T, h, k)
      {
        var mid, at := DelKey(cmp, t, T, h, k);
        assert mid == Flat(t, h);
      }
    } else {
      var a: K, b: K :| cmp(a, b) == 0 && a != b;
      LosesOne(cmp, T, a, b);
    }
  }

  /** n copies of a key. */
  function Copies<K>(a: K, n: nat): seq<K> {
    seq(n, i => a)
  }

  function TwoLeaves<K>(a: K, T: nat): Tree<int, K>
    requires T > 0
  {
    Node(0, [a], [Node(1, Copies(a, T - 1), []), Node(2, Copies(a, T - 1), [])])
  }

  /** With two keys that compare equal but differ, the smallest tree with a hit between minimal kids: one of them
      is overwritten by the other. */
  lemma LosesOne<K(!new)>(cmp: (K, K) -> int, T: nat, a: K, b: K)
    requires Order(cmp) && T >= 2 && cmp(a, b) == 0 && a != b
    ensures var t := TwoLeaves(a, T);
      CanDelete(cmp, t, T, 1, b, Key) && !CutsOne(cmp, t, T, 1, b)
  {
    hide Flat, Filled, AllFilled, Formed, CanDelete, Order, Cut, Del, TwoLeaves;
    TwoLeavesIs(cmp, T, a, b);
    OtherStays(cmp, T, a, b);
    var t := TwoLeaves(a, T);
    CanIs(cmp, t, T, 1, b, Key);
    var d := Del(cmp, t, T, 1, b, Key);
    forall at | Cut(Flat(t, 1), Flat(d.0, 1), d.1, at)
      ensures b in Flat(t, 1)
    {
      CutIn(Flat(t, 1), Flat(d.0, 1), d.1, at, b);
    }
  }

  lemma OtherStays<K(!new)>(cmp: (K, K) -> int, T: nat, a: K, b: K)
    requires Order(cmp) && T >= 2 && cmp(a, b) == 0
    requires CanDelete(cmp, TwoLeaves(a, T), T, 1, b, Key) && Locate(cmp, TwoLeaves(a, T).keys, b) == Place(0, 0)
    ensures var u := Del(cmp, TwoLeaves(a, T), T, 1, b, Key).0;
      Formed(u, 1) && b in Flat(u, 1)
  {
    hide Flat, Filled, AllFilled, Formed, Refill, CanDelete, Before, After, SortedUp, Order, Has, Overwritten, Cut, Locate, Join;
    var t := TwoLeaves(a, T);
    var c := Join(t.kids[0], b, t.kids[1]);
    HitIs(cmp, t, T, 1, b, Key);
    MergedCan(cmp, t, T, 1, b, 0);
    SidesCan(cmp, t, T, 1, b, 0);
    LeafKeeps(cmp, T, a, b);
    var d := Del(cmp, c, T, 0, b, Key);
    assert Del(cmp, t, T, 1, b, Key).0 == Splice(t, 0, 1, [], [d.0]);
    CanIs(cmp, t, T, 1, b, Key);
    FlatToOne(t, 1, 0, 1, d.0);
  }

  lemma CutIn<K>(s: seq<K>, s': seq<K>, m: K, at: nat, x: K)
    requires Cut(s, s', m, at) && x in s'
    ensures x in s
  {
  }

  /** The joined leaf: the first of the equal keys goes, b stays. */
  lemma LeafKeeps<K(!new)>(cmp: (K, K) -> int, T: nat, a: K, b: K)
    requires Order(cmp) && T >= 2 && cmp(a, b) == 0 && CanDelete(cmp, Join(TwoLeaves(a, T).kids[0], b, TwoLeaves(a, T).kids[1]), T, 0, b, Key)
    ensures var d := Del(cmp, Join(TwoLeaves(a, T).kids[0], b, TwoLeaves(a, T).kids[1]), T, 0, b, Key).0;
      Formed(d, 0) && b in Flat(d, 0)
  {
    var c := Join(TwoLeaves(a, T).kids[0], b, TwoLeaves(a, T).kids[1]);
    assert c.keys[0] == a && c.keys[T - 1] == b;
    assert Locate(cmp, c.keys, b) == Place(0, 0);
    assert c.keys[1..][T - 2] == b;
  }

  lemma TwoLeavesIs<K(!new)>(cmp: (K, K) -> int, T: nat, a: K, b: K)
    requires Order(cmp) && T >= 2 && cmp(a, b) == 0
    ensures var t := TwoLeaves(a, T);
      && CanDelete(cmp, t, T, 1, b, Key) && Locate(cmp, t.keys, b) == Place(0, 0)
      && (forall x :: x in Flat(t, 1) ==> x == a)
  {
    var t := TwoLeaves(a, T);
    var y, z := t.kids[0], t.kids[1];
    assert Filled(y, T, 0, T - 1) && Filled(z, T, 0, T - 1);
    assert Filled(t, T, 1, 1);
    FilledIsFormed(t, T, 1, 1);
    FlatAtKey(t, 1, 0);
    assert Before(t, 1, 0) == [] && After(t, 1, 1) == [];
    assert Flat(t, 1) == y.keys + [a] + z.keys;
    EqualToItself(cmp, a);
    assert Flat(t, 1)[0] == a;
  }
}
