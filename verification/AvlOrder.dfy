/** Order in AVL trees under a comparison function: sorted in-order sequences and search paths. */
module AvlOrder {
  import opened Orders
  import opened AvlTree

  ghost predicate Sorted<T>(cmp: (T, T) -> int, s: seq<T>) {
    forall i, j :: 0 <= i < j < |s| ==> cmp(s[i], s[j]) < 0
  }

  /** item belongs after everything in s, or before everything in s. */
  ghost predicate AllLess<T>(cmp: (T, T) -> int, s: seq<T>, item: T) {
    forall i :: 0 <= i < |s| ==> cmp(item, s[i]) > 0
  }

  ghost predicate AllGreater<T>(cmp: (T, T) -> int, s: seq<T>, item: T) {
    forall i :: 0 <= i < |s| ==> cmp(item, s[i]) < 0
  }

  /** The subtree at w is where a search for item goes. */
  ghost predicate Leads<N, T>(cmp: (T, T) -> int, t: Tree<N, T>, w: seq<bool>, item: T)
    requires IsPath(t, w)
  {
    AllLess(cmp, Before(t, w), item) && AllGreater(cmp, After(t, w), item)
  }

  lemma {:induction false} BeforeStep<N, T>(t: Tree<N, T>, w: seq<bool>, d: bool)
    requires IsPath(t, w) && Sub(t, w).Node?
    ensures IsPath(t, w + [d]) && Sub(t, w + [d]) == Child(Sub(t, w), d)
    ensures var s := Sub(t, w);
      && Before(t, w + [d]) == (if d then Before(t, w) + (InOrder(s.left) + [s.data]) else Before(t, w))
      && After(t, w + [d]) == (if d then After(t, w) else [s.data] + InOrder(s.right) + After(t, w))
    decreases |w|
  {
    if w == [] {
      assert w + [d] == [d] && [d][1..] == [];
    } else {
      assert (w + [d])[1..] == w[1..] + [d];
      BeforeStep(Child(t, w[0]), w[1..], d);
    }
  }

  /** One step of a search. */
  lemma LeadsStep<N, T(!new)>(cmp: (T, T) -> int, t: Tree<N, T>, w: seq<bool>, item: T)
    requires Order(cmp) && Sorted(cmp, InOrder(t)) && IsPath(t, w) && Leads(cmp, t, w, item)
    requires Sub(t, w).Node? && cmp(item, Sub(t, w).data) != 0
    ensures var d := cmp(item, Sub(t, w).data) > 0;
      IsPath(t, w + [d]) && Sub(t, w + [d]) == Child(Sub(t, w), d) && Leads(cmp, t, w + [d], item)
  {
    var s := Sub(t, w);
    BeforeStep(t, w, cmp(item, s.data) > 0);
    InOrderSub(t, w);
    MiddleSorted(cmp, Before(t, w), InOrder(s), After(t, w));
    SideOf(cmp, InOrder(s.left), s.data, InOrder(s.right), item);
  }

  lemma MiddleSorted<T>(cmp: (T, T) -> int, a: seq<T>, b: seq<T>, c: seq<T>)
    requires Sorted(cmp, a + b + c)
    ensures Sorted(cmp, b)
  {
    forall i, j | 0 <= i < j < |b|
      ensures cmp(b[i], b[j]) < 0
    {
      assert (a + b + c)[|a| + i] == b[i] && (a + b + c)[|a| + j] == b[j];
    }
  }

  lemma SideOf<T(!new)>(cmp: (T, T) -> int, l: seq<T>, x: T, r: seq<T>, item: T)
    requires Order(cmp) && Sorted(cmp, l + [x] + r)
    ensures cmp(item, x) > 0 ==> AllLess(cmp, l + [x], item)
    ensures cmp(item, x) < 0 ==> AllGreater(cmp, [x] + r, item)
  {
    var s := l + [x] + r;
    assert s[|l|] == x;
    forall i | 0 <= i < |l|
      ensures cmp(item, x) > 0 ==> cmp(item, l[i]) > 0
    {
      assert cmp(s[i], s[|l|]) < 0;
    }
    forall i | 0 <= i < |r|
      ensures cmp(item, x) < 0 ==> cmp(item, r[i]) < 0
    {
      assert cmp(s[|l|], s[|l| + 1 + i]) < 0;
    }
  }

  /** A search that ends at a leaf has found the place of a missing item. */
  lemma InsertSorted<T(!new)>(cmp: (T, T) -> int, a: seq<T>, b: seq<T>, item: T)
    requires Order(cmp) && Sorted(cmp, a + b) && AllLess(cmp, a, item) && AllGreater(cmp, b, item)
    ensures Sorted(cmp, a + [item] + b)
    ensures forall i :: 0 <= i < |a + b| ==> cmp(item, (a + b)[i]) != 0
  {
    var s, t := a + b, a + [item] + b;
    forall i, j | 0 <= i < j < |t|
      ensures cmp(t[i], t[j]) < 0
    {
      assert j < |a| ==> t[i] == s[i] && t[j] == s[j];
      assert i < |a| < j ==> t[i] == s[i] && t[j] == s[j - 1];
      assert |a| < i ==> t[i] == s[i - 1] && t[j] == s[j - 1];
      assert i == |a| ==> t[j] == b[j - |a| - 1];
      assert j == |a| ==> t[i] == a[i];
    }
  }

  lemma RemoveSorted<T>(cmp: (T, T) -> int, a: seq<T>, x: T, b: seq<T>)
    requires Sorted(cmp, a + [x] + b)
    ensures Sorted(cmp, a + b)
  {
    var s, t := a + [x] + b, a + b;
    forall i, j | 0 <= i < j < |t|
      ensures cmp(t[i], t[j]) < 0
    {
      assert t[i] == s[if i < |a| then i else i + 1] && t[j] == s[if j < |a| then j else j + 1];
    }
  }

  // ----- the last unbalanced node on a search path

  /** m is the place of the last unbalanced node on the path w, or 0 when there is none. */
  ghost predicate LastUnbalanced<N, T>(t: Tree<N, T>, w: seq<bool>, m: nat)
    requires IsPath(t, w)
  {
    && m <= |w|
    && (forall i {:trigger w[..i]} :: m < i < |w| ==> IsPath(t, w[..i]) && Sub(t, w[..i]).Node? && Sub(t, w[..i]).balance == 0)
    && (m > 0 ==> m < |w| && IsPath(t, w[..m]) && Sub(t, w[..m]).Node? && Sub(t, w[..m]).balance != 0)
  }

  lemma LastUnbalancedStep<N, T>(t: Tree<N, T>, w: seq<bool>, m: nat, d: bool)
    requires IsPath(t, w) && LastUnbalanced(t, w, m) && Sub(t, w).Node?
    ensures IsPath(t, w + [d])
    ensures LastUnbalanced(t, w + [d], if Sub(t, w).balance != 0 then |w| else m)
  {
    PathSplit(t, w, [d]);
    var u := w + [d];
    assert u[..|w|] == w;
    forall i | 0 <= i < |w|
      ensures u[..i] == w[..i]
    {
    }
  }

  /** Below it all nodes on the path are balanced. */
  lemma ZerosBelow<N, T>(t: Tree<N, T>, w: seq<bool>, m: nat)
    requires IsPath(t, w) && LastUnbalanced(t, w, m) && m < |w|
    ensures IsPath(t, w[..m + 1]) && IsPath(Sub(t, w[..m + 1]), w[m + 1..])
    ensures ZerosAlong(Sub(t, w[..m + 1]), w[m + 1..])
  {
    assert w == w[..m + 1] + w[m + 1..];
    PathSplit(t, w[..m + 1], w[m + 1..]);
    ZerosFrom(t, w, m, m + 1);
  }

  lemma {:induction false} ZerosFrom<N, T>(t: Tree<N, T>, w: seq<bool>, m: nat, k: nat)
    requires IsPath(t, w) && LastUnbalanced(t, w, m) && m < k <= |w|
    ensures IsPath(t, w[..k]) && IsPath(Sub(t, w[..k]), w[k..]) && ZerosAlong(Sub(t, w[..k]), w[k..])
    decreases |w| - k
  {
    assert w == w[..k] + w[k..];
    PathSplit(t, w[..k], w[k..]);
    if k < |w| {
      ZerosFrom(t, w, m, k + 1);
      assert w[..k + 1] == w[..k] + [w[k]];
      PathSplit(t, w[..k], [w[k]]);
      assert [w[k]][1..] == [] && w[k..][1..] == w[k + 1..];
    }
  }
}
