/** Sizes of B-tree nodes, sorted trees, and where a search in a node leads. Filled says that every node below
    the top has between T - 1 and 2T - 1 keys; Locate is what __kb_getp_aux finds in the keys of one node; a
    key is equal to another when the comparison is 0, so equal keys may occur any number of times. */
module BTreeSearch {
  import opened Orders
  import opened BTree

  // ----- sizes; T is the minimum degree

  /** Between lo and 2T - 1 keys here, between T - 1 and 2T - 1 in every node below, all leaves at one depth. */
  ghost predicate Filled<N, K>(t: Tree<N, K>, T: nat, h: nat, lo: nat)
    decreases h, 0
  {
    && lo <= |t.keys| <= 2 * T - 1
    && if h == 0 then t.kids == [] else |t.kids| == |t.keys| + 1 && AllFilled(t.kids, T, h - 1)
  }

  ghost predicate AllFilled<N, K>(s: seq<Tree<N, K>>, T: nat, h: nat)
    requires T > 0
    decreases h, 1
  {
    forall i :: 0 <= i < |s| ==> Filled(s[i], T, h, T - 1)
  }

  lemma {:induction false} FilledIsFormed<N, K>(t: Tree<N, K>, T: nat, h: nat, lo: nat)
    requires T > 0 && Filled(t, T, h, lo)
    ensures Formed(t, h)
    decreases h, 0
  {
    if h > 0 { AllFilledIsFormed(t.kids, T, h - 1); }
  }

  lemma {:induction false} AllFilledIsFormed<N, K>(s: seq<Tree<N, K>>, T: nat, h: nat)
    requires T > 0 && AllFilled(s, T, h)
    ensures AllFormed(s, h)
    decreases h, 1
  {
    forall i | 0 <= i < |s|
      ensures Formed(s[i], h)
    {
      FilledIsFormed(s[i], T, h, T - 1);
    }
  }

  // ----- order

  ghost predicate SortedUp<K>(cmp: (K, K) -> int, s: seq<K>) {
    forall i, j :: 0 <= i < j < |s| ==> cmp(s[i], s[j]) <= 0
  }

  ghost predicate Has<K>(cmp: (K, K) -> int, s: seq<K>, k: K) {
    exists i :: 0 <= i < |s| && cmp(s[i], k) == 0
  }

  /** The number of keys less than k, in a sorted sequence. */
  function Rank<K>(cmp: (K, K) -> int, keys: seq<K>, k: K): (b: nat)
    ensures b <= |keys|
  {
    if keys == [] || cmp(keys[0], k) >= 0 then 0 else 1 + Rank(cmp, keys[1..], k)
  }

  lemma {:induction false} RankSplits<K(!new)>(cmp: (K, K) -> int, keys: seq<K>, k: K)
    requires Order(cmp) && SortedUp(cmp, keys)
    ensures var b := Rank(cmp, keys, k);
      && (forall i :: 0 <= i < b ==> cmp(keys[i], k) < 0)
      && (forall i :: b <= i < |keys| ==> cmp(keys[i], k) >= 0)
    decreases |keys|
  {
    if keys != [] {
      if cmp(keys[0], k) >= 0 {
        forall i | 0 <= i < |keys|
          ensures cmp(keys[i], k) >= 0
        {
          if i > 0 { assert cmp(keys[0], keys[i]) <= 0; }
        }
      } else {
        RankSplits(cmp, keys[1..], k);
        var b := Rank(cmp, keys, k);
        forall i | 0 <= i < |keys|
          ensures i < b ==> cmp(keys[i], k) < 0
          ensures b <= i ==> cmp(keys[i], k) >= 0
        {
          if i > 0 { assert keys[i] == keys[1..][i - 1]; }
        }
      }
    }
  }

  /** What a search in one node answers: i is the last key not after the one searched for, r how that compares
      with it (0 is a hit). */
  datatype Place = Place(i: int, r: int)

  function Locate<K>(cmp: (K, K) -> int, keys: seq<K>, k: K): (p: Place)
    ensures -1 <= p.i < |keys| && (keys != [] && p.r == 0 ==> p.i >= 0)
  {
    var b := Rank(cmp, keys, k);
    if keys == [] then Place(-1, 0)
    else if b == |keys| then Place(|keys| - 1, 1)
    else if cmp(k, keys[b]) < 0 then Place(b - 1, cmp(k, keys[b]))
    else Place(b, cmp(k, keys[b]))
  }

  /** On sorted keys: what lies up to i is less, except that i itself may be a hit; what lies after i is not less,
      and greater when there is no hit. */
  lemma LocateIs<K(!new)>(cmp: (K, K) -> int, keys: seq<K>, k: K)
    requires Order(cmp) && SortedUp(cmp, keys) && keys != []
    ensures var p := Locate(cmp, keys, k);
      && (p.r == 0 ==> p.i >= 0 && cmp(keys[p.i], k) == 0)
      && (forall j :: 0 <= j < p.i ==> cmp(keys[j], k) < 0)
      && (p.r != 0 && p.i >= 0 ==> cmp(keys[p.i], k) < 0)
      && (forall j :: p.i < j < |keys| ==> cmp(keys[j], k) >= 0 && (p.r != 0 ==> cmp(keys[j], k) > 0))
  {
    RankSplits(cmp, keys, k);
    var b := Rank(cmp, keys, k);
    if b < |keys| {
      assert cmp(keys[b], k) >= 0;
      forall j | b < j < |keys|
        ensures cmp(keys[b], k) > 0 ==> cmp(keys[j], k) > 0
      {
        assert cmp(keys[b], keys[j]) <= 0;
      }
    }
  }

  /** The binary search in a node's keys. */
  method FindInNode<K(!new)>(cmp: (K, K) -> int, keys: seq<K>, k: K) returns (i: int, r: int)
    requires Order(cmp) && SortedUp(cmp, keys)
    ensures Place(i, r) == Locate(cmp, keys, k)
  {
    var begin, end := 0, |keys|;
    if |keys| == 0 {
      return -1, 0;
    }
    RankSplits(cmp, keys, k);
    hide Order, SortedUp, Rank;
    while begin < end
      invariant 0 <= begin <= Rank(cmp, keys, k) <= end <= |keys|
    {
      var mid := (begin + end) / 2;
      if cmp(keys[mid], k) < 0 {
        begin := mid + 1;
      } else {
        end := mid;
      }
    }
    if begin == |keys| {
      return |keys| - 1, 1;
    }
    r := cmp(k, keys[begin]);
    i := if r < 0 then begin - 1 else begin;
  }

  // ----- what order says about the parts of a tree

  lemma SortedParts<K>(cmp: (K, K) -> int, a: seq<K>, b: seq<K>)
    requires SortedUp(cmp, a + b)
    ensures SortedUp(cmp, a) && SortedUp(cmp, b)
    ensures forall i, j :: 0 <= i < |a| && 0 <= j < |b| ==> cmp(a[i], b[j]) <= 0
  {
    var s := a + b;
    forall i, j | 0 <= i < j < |b|
      ensures cmp(b[i], b[j]) <= 0
    {
      assert s[|a| + i] == b[i] && s[|a| + j] == b[j];
    }
    forall i, j | 0 <= i < j < |a|
      ensures cmp(a[i], a[j]) <= 0
    {
      assert s[i] == a[i] && s[j] == a[j];
    }
    forall i, j | 0 <= i < |a| && 0 <= j < |b|
      ensures cmp(a[i], b[j]) <= 0
    {
      assert s[i] == a[i] && s[|a| + j] == b[j];
    }
  }

  /** Everything in s is less than k, or not less; greater, or not greater. */
  ghost predicate AllLess<K>(cmp: (K, K) -> int, s: seq<K>, k: K) {
    forall i :: 0 <= i < |s| ==> cmp(s[i], k) < 0
  }

  ghost predicate AllGreater<K>(cmp: (K, K) -> int, s: seq<K>, k: K) {
    forall i :: 0 <= i < |s| ==> cmp(s[i], k) > 0
  }

  /** The keys of a node of a sorted tree are sorted. */
  lemma {:induction false} KeysSorted<N, K>(cmp: (K, K) -> int, t: Tree<N, K>, h: nat)
    requires Formed(t, h) && SortedUp(cmp, Flat(t, h))
    ensures SortedUp(cmp, t.keys)
  {
    if h > 0 {
      hide Formed, Flat, Flats, Weave, SortedUp;
      WeaveSorted(cmp, Flats(t.kids, h - 1), t.keys);
    }
  }

  lemma {:induction false} WeaveSorted<K>(cmp: (K, K) -> int, parts: seq<seq<K>>, keys: seq<K>)
    requires |parts| == |keys| + 1 && SortedUp(cmp, Weave(parts, keys))
    ensures SortedUp(cmp, keys) && forall i :: 0 <= i < |keys| ==> keys[i] in Weave(parts, keys)
    decreases |keys|
  {
    if keys != [] {
      WeaveFirst(parts, keys);
      var rest := Weave(parts[1..], keys[1..]);
      SortedParts(cmp, parts[0] + [keys[0]], rest);
      WeaveSorted(cmp, parts[1..], keys[1..]);
      hide Weave;
      forall i, j | 0 <= i < j < |keys|
        ensures cmp(keys[i], keys[j]) <= 0
      {
        assert keys[j] == keys[1..][j - 1] && keys[j] in rest;
        if i == 0 {
          var l :| 0 <= l < |rest| && rest[l] == keys[j];
          assert (parts[0] + [keys[0]])[|parts[0]|] == keys[0];
        } else {
          assert keys[i] == keys[1..][i - 1];
        }
      }
      forall i | 0 <= i < |keys|
        ensures keys[i] in Weave(parts, keys)
      {
        if i > 0 { assert keys[i] == keys[1..][i - 1]; }
      }
    }
  }

  ghost predicate NoneGreater<K>(cmp: (K, K) -> int, s: seq<K>, k: K) {
    forall i :: 0 <= i < |s| ==> cmp(s[i], k) <= 0
  }

  ghost predicate NoneLess<K>(cmp: (K, K) -> int, s: seq<K>, k: K) {
    forall i :: 0 <= i < |s| ==> cmp(s[i], k) >= 0
  }

  lemma BelowLast<K(!new)>(cmp: (K, K) -> int, s: seq<K>, x: K, k: K)
    requires Order(cmp) && SortedUp(cmp, s + [x])
    ensures cmp(x, k) <= 0 ==> NoneGreater(cmp, s + [x], k)
    ensures cmp(x, k) < 0 ==> AllLess(cmp, s + [x], k)
  {
    assert (s + [x])[|s|] == x;
  }

  lemma AboveFirst<K(!new)>(cmp: (K, K) -> int, x: K, s: seq<K>, k: K)
    requires Order(cmp) && SortedUp(cmp, [x] + s)
    ensures cmp(x, k) >= 0 ==> NoneLess(cmp, [x] + s, k)
    ensures cmp(x, k) > 0 ==> AllGreater(cmp, [x] + s, k)
  {
    assert ([x] + s)[0] == x;
  }

  /** The kid after key i is where k belongs, if key i is not greater and the next key not less. */
  lemma SideKeys<N, K(!new)>(cmp: (K, K) -> int, t: Tree<N, K>, h: nat, i: int, k: K)
    requires Order(cmp) && h > 0 && Formed(t, h) && SortedUp(cmp, Flat(t, h)) && -1 <= i < |t.keys|
    ensures i + 1 < |t.kids| && Formed(t.kids[i + 1], h - 1)
    ensures i < 0 || cmp(t.keys[i], k) <= 0 ==> NoneGreater(cmp, Before(t, h, i + 1), k)
    ensures i < 0 || cmp(t.keys[i], k) < 0 ==> AllLess(cmp, Before(t, h, i + 1), k)
    ensures i + 1 == |t.keys| || cmp(t.keys[i + 1], k) >= 0 ==> NoneLess(cmp, After(t, h, i + 1), k)
    ensures i + 1 == |t.keys| || cmp(t.keys[i + 1], k) > 0 ==> AllGreater(cmp, After(t, h, i + 1), k)
    ensures SortedUp(cmp, Flat(t.kids[i + 1], h - 1))
  {
    hide Flat, Formed, Weave, Pairs, PairsAfter, SortedUp, NoneGreater, AllLess, NoneLess, AllGreater, Before, After;
    KidFormed(t, h, i + 1);
    if i >= 0 { KidFormed(t, h, i); }
    if i + 1 < |t.keys| { KidFormed(t, h, i + 2); }
    var b, f, a := Before(t, h, i + 1), Flat(t.kids[i + 1], h - 1), After(t, h, i + 1);
    FlatAt(t, h, i + 1);
    SortedParts(cmp, b + f, a);
    SortedParts(cmp, b, f);
    if i >= 0 {
      KeyEnds(t, h, i);
      BelowLast(cmp, Before(t, h, i) + Flat(t.kids[i], h - 1), t.keys[i], k);
    } else {
      NothingBefore(cmp, t, h, k);
    }
    if i + 1 < |t.keys| {
      KeyEnds(t, h, i + 1);
      assert a == [t.keys[i + 1]] + (Flat(t.kids[i + 2], h - 1) + After(t, h, i + 2));
      AboveFirst(cmp, t.keys[i + 1], Flat(t.kids[i + 2], h - 1) + After(t, h, i + 2), k);
    } else {
      NothingAfter(cmp, t, h, k);
    }
  }

  lemma NothingBefore<N, K>(cmp: (K, K) -> int, t: Tree<N, K>, h: nat, k: K)
    requires h > 0 && Formed(t, h)
    ensures Before(t, h, 0) == [] && AllLess(cmp, [], k) && NoneGreater(cmp, [], k)
  {
  }

  lemma NothingAfter<N, K>(cmp: (K, K) -> int, t: Tree<N, K>, h: nat, k: K)
    requires h > 0 && Formed(t, h)
    ensures After(t, h, |t.keys|) == [] && AllGreater(cmp, [], k) && NoneLess(cmp, [], k)
  {
  }

  /** A key that is somewhere in the tree, and neither before nor after a kid, is in that kid. */
  lemma HasInside<K>(cmp: (K, K) -> int, a: seq<K>, m: seq<K>, b: seq<K>, k: K)
    requires AllLess(cmp, a, k) && AllGreater(cmp, b, k)
    ensures Has(cmp, a + m + b, k) <==> Has(cmp, m, k)
  {
    if !Has(cmp, m, k) {
      forall i | 0 <= i < |a + m + b|
        ensures cmp((a + m + b)[i], k) != 0
      {
        if i < |a| {
          assert (a + m + b)[i] == a[i];
        } else if i < |a| + |m| {
          assert (a + m + b)[i] == m[i - |a|];
        } else {
          assert (a + m + b)[i] == b[i - |a| - |m|];
        }
      }
    }
    if Has(cmp, m, k) {
      var i :| 0 <= i < |m| && cmp(m[i], k) == 0;
      assert (a + m + b)[|a| + i] == m[i];
    }
  }
}
