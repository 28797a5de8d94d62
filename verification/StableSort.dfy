/** What a stable sort is: sequences sorted under a strict weak order, and merging. */
module StableSort {

  /** lt orders items up to items that are neither less nor greater. */
  ghost predicate WeakOrder<T(!new)>(lt: (T, T) -> bool) {
    && (forall x :: !lt(x, x))
    && (forall x, y, z :: lt(x, y) && lt(y, z) ==> lt(x, z))
    && (forall x, y, z :: !lt(x, y) && !lt(y, z) ==> !lt(x, z))
  }

  /** x put in front of the first item that is not less. */
  function InsertFront<T>(lt: (T, T) -> bool, x: T, s: seq<T>): seq<T> {
    if s == [] || !lt(s[0], x) then [x] + s else [s[0]] + InsertFront(lt, x, s[1..])
  }

  /** The stable sort, as insertion of one item after the other. */
  function Sort<T>(lt: (T, T) -> bool, s: seq<T>): seq<T> {
    if s == [] then [] else InsertFront(lt, s[0], Sort(lt, s[1..]))
  }

  /** Two runs merged; of equal items, those of the first run come first. */
  function Merge<T>(lt: (T, T) -> bool, a: seq<T>, b: seq<T>): seq<T> {
    if a == [] then b
    else if b == [] then a
    else if lt(b[0], a[0]) then [b[0]] + Merge(lt, a, b[1..])
    else [a[0]] + Merge(lt, a[1..], b)
  }

  // ----- what the sort is

  ghost predicate Sorted<T>(lt: (T, T) -> bool, s: seq<T>) {
    forall i, j :: 0 <= i < j < |s| ==> !lt(s[j], s[i])
  }

  /** Neither is less. */
  predicate Same<T>(lt: (T, T) -> bool, x: T, y: T) {
    !lt(x, y) && !lt(y, x)
  }

  /** The items of s that are the same as x, in the order in which they stand. */
  function AllSame<T>(lt: (T, T) -> bool, s: seq<T>, x: T): seq<T> {
    if s == [] then [] else (if Same(lt, s[0], x) then [s[0]] else []) + AllSame(lt, s[1..], x)
  }

  lemma {:induction false} InsertFrontItems<T>(lt: (T, T) -> bool, x: T, s: seq<T>)
    ensures multiset(InsertFront(lt, x, s)) == multiset(s) + multiset{x}
    decreases |s|
  {
    if s != [] && lt(s[0], x) {
      InsertFrontItems(lt, x, s[1..]);
      assert s == [s[0]] + s[1..];
    }
  }

  /** y comes after x. */
  lemma SortedCons<T(!new)>(lt: (T, T) -> bool, x: T, s: seq<T>)
    requires Sorted(lt, s) && forall y :: y in s ==> !lt(y, x)
    ensures Sorted(lt, [x] + s)
  {
    var r := [x] + s;
    forall i, j | 0 <= i < j < |r|
      ensures !lt(r[j], r[i])
    {
      assert r[j] == s[j - 1] && r[j] in s;
    }
  }

  lemma {:induction false} InsertFrontSorted<T(!new)>(lt: (T, T) -> bool, x: T, s: seq<T>)
    requires WeakOrder(lt) && Sorted(lt, s)
    ensures Sorted(lt, InsertFront(lt, x, s))
    decreases |s|
  {
    if s == [] {
    } else if !lt(s[0], x) {
      forall y | y in s
        ensures !lt(y, x)
      {
        var i :| 0 <= i < |s| && s[i] == y;
        assert i == 0 || !lt(s[i], s[0]);
      }
      SortedCons(lt, x, s);
    } else {
      InsertFrontSorted(lt, x, s[1..]);
      InsertFrontItems(lt, x, s[1..]);
      var t := InsertFront(lt, x, s[1..]);
      forall y | y in t
        ensures !lt(y, s[0])
      {
        assert y in multiset(t);
        if y != x {
          assert y in s[1..];
          var i :| 0 <= i < |s[1..]| && s[1..][i] == y;
          assert !lt(s[i + 1], s[0]);
        }
      }
      SortedCons(lt, s[0], t);
    }
  }

  /** The result is sorted and has the same items. */
  lemma {:induction false} SortSorts<T(!new)>(lt: (T, T) -> bool, s: seq<T>)
    requires WeakOrder(lt)
    ensures Sorted(lt, Sort(lt, s)) && multiset(Sort(lt, s)) == multiset(s) && |Sort(lt, s)| == |s|
  {
    if s != [] {
      SortSorts(lt, s[1..]);
      InsertFrontItems(lt, s[0], Sort(lt, s[1..]));
      InsertFrontSorted(lt, s[0], Sort(lt, s[1..]));
      assert s == [s[0]] + s[1..];
      assert |multiset(Sort(lt, s))| == |Sort(lt, s)| && |multiset(s)| == |s|;
    }
  }

  lemma {:induction false} InsertFrontSame<T(!new)>(lt: (T, T) -> bool, x: T, s: seq<T>, y: T)
    requires WeakOrder(lt)
    ensures AllSame(lt, InsertFront(lt, x, s), y) == AllSame(lt, [x] + s, y)
    decreases |s|
  {
    if s != [] && lt(s[0], x) {
      InsertFrontSame(lt, x, s[1..], y);
      assert ([x] + s)[1..] == s && ([x] + s[1..])[1..] == s[1..];
      var r := [s[0]] + InsertFront(lt, x, s[1..]);
      assert r[1..] == InsertFront(lt, x, s[1..]);
    }
  }

  /** Items that are the same keep their order. */
  lemma {:induction false} SortIsStable<T(!new)>(lt: (T, T) -> bool, s: seq<T>, y: T)
    requires WeakOrder(lt)
    ensures AllSame(lt, Sort(lt, s), y) == AllSame(lt, s, y)
  {
    if s != [] {
      SortIsStable(lt, s[1..], y);
      InsertFrontSame(lt, s[0], Sort(lt, s[1..]), y);
      assert ([s[0]] + Sort(lt, s[1..]))[1..] == Sort(lt, s[1..]);
    }
  }

  // ----- merging sorts

  lemma {:induction false} MergeInsert<T(!new)>(lt: (T, T) -> bool, x: T, u: seq<T>, v: seq<T>)
    requires WeakOrder(lt)
    ensures InsertFront(lt, x, Merge(lt, u, v)) == Merge(lt, InsertFront(lt, x, u), v)
    decreases |u| + |v|
  {
    if v == [] {
    } else if u == [] {
      assert [x][1..] == [];
      if lt(v[0], x) { MergeInsert(lt, x, u, v[1..]); }
    } else if lt(v[0], u[0]) {
      MergeInsert(lt, x, u, v[1..]);
      assert ([v[0]] + Merge(lt, u, v[1..]))[1..] == Merge(lt, u, v[1..]);
      assert ([x] + u)[1..] == u;
    } else {
      MergeInsert(lt, x, u[1..], v);
      assert ([u[0]] + Merge(lt, u[1..], v))[1..] == Merge(lt, u[1..], v);
      assert ([u[0]] + InsertFront(lt, x, u[1..]))[1..] == InsertFront(lt, x, u[1..]);
      assert ([x] + u)[1..] == u;
    }
  }

  /** Merging the sorted halves sorts the whole. */
  lemma {:induction false} MergeSorts<T(!new)>(lt: (T, T) -> bool, a: seq<T>, b: seq<T>)
    requires WeakOrder(lt)
    ensures Merge(lt, Sort(lt, a), Sort(lt, b)) == Sort(lt, a + b)
    decreases |a|
  {
    if a == [] {
      assert a + b == b;
    } else {
      assert (a + b)[1..] == a[1..] + b;
      MergeSorts(lt, a[1..], b);
      MergeInsert(lt, a[0], Sort(lt, a[1..]), Sort(lt, b));
    }
  }
}
