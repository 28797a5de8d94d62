/** How many items a table needs before a path in it can outgrow the path arrays of insertion and deletion. */
module AvlBounds {
  import opened Orders
  import opened AvlTree
  import opened AvlOrder
  import opened AvlDelete
  import opened AvlTable

  /** The fewest items an AVL tree of height h can have: a Fibonacci number less one. */
  function MinItems(h: nat): nat {
    if h < 2 then h else 1 + MinItems(h - 1) + MinItems(h - 2)
  }

  lemma {:induction false} MinItemsGrows(h: nat, k: nat)
    requires h <= k
    ensures MinItems(h) <= MinItems(k)
    decreases k - h
  {
    if h < k {
      MinItemsGrows(h, k - 1);
      if k > 1 { assert MinItems(k - 2) >= 0; }
    }
  }

  lemma {:induction false} FewestItems<N, T>(t: Tree<N, T>)
    requires Avl(t)
    ensures MinItems(Height(t)) <= |InOrder(t)|
  {
    if t.Node? {
      FewestItems(t.left);
      FewestItems(t.right);
      var h := Height(t);
      if h > 1 {
        var lo := if Height(t.left) < Height(t.right) then Height(t.left) else Height(t.right);
        MinItemsGrows(h - 2, lo);
      }
    }
  }

  lemma MinItemsValues()
    ensures MinItems(32) == 5702886 && MinItems(33) == 9227464
  {
    EightOn(0, 0, 1, 54, 88);
    EightOn(8, 54, 88, 2583, 4180);
    EightOn(16, 2583, 4180, 121392, 196417);
    EightOn(24, 121392, 196417, 5702886, 9227464);
  }

  lemma EightOn(h: nat, a: nat, b: nat, a': nat, b': nat)
    requires MinItems(h) == a && MinItems(h + 1) == b
    requires a' == 13 * a + 21 * b + 33 && b' == 21 * a + 34 * b + 54
    ensures MinItems(h + 8) == a' && MinItems(h + 9) == b'
  {
    assert MinItems(h + 2) == a + b + 1 && MinItems(h + 3) == a + 2 * b + 2;
    assert MinItems(h + 4) == 2 * a + 3 * b + 4 && MinItems(h + 5) == 3 * a + 5 * b + 7;
    assert MinItems(h + 6) == 5 * a + 8 * b + 12 && MinItems(h + 7) == 8 * a + 13 * b + 20;
  }

  /** With fewer than 9,227,464 items the height is at most 32, with fewer than 5,702,886 at most 31. */
  lemma FewItemsAreShallow<N, T>(t: Tree<N, T>)
    requires Avl(t)
    ensures |InOrder(t)| < 9227464 ==> Height(t) <= 32
    ensures |InOrder(t)| < 5702886 ==> Height(t) <= 31
  {
    MinItemsValues();
    FewestItems(t);
    if Height(t) > 32 { MinItemsGrows(33, Height(t)); }
    if Height(t) > 31 { MinItemsGrows(32, Height(t)); }
  }

  // ----- deletion

  /** The search ends at an item equal to the given one. */
  predicate Reaches<N, T>(cmp: (T, T) -> int, t: Tree<N, T>, item: T) {
    t.Node? && (cmp(item, t.data) == 0 || Reaches(cmp, Child(t, cmp(item, t.data) > 0), item))
  }

  lemma {:induction false} MinPathFits<N, T>(t: Tree<N, T>)
    requires t.Node?
    ensures |MinPath(t)| < Height(t)
  {
    if t.left.Node? { MinPathFits(t.left); }
  }

  /** A search that finds its item leaves room for one entry more than one that does not. */
  lemma {:induction false} EntriesFit<N, T>(cmp: (T, T) -> int, t: Tree<N, T>, item: T)
    ensures Entries(cmp, t, item) <= Height(t)
    ensures Reaches(cmp, t, item) ==> 1 + Entries(cmp, t, item) <= Height(t)
  {
    if t.Node? {
      if cmp(item, t.data) == 0 {
        if t.right.Node? { MinPathFits(t.right); }
      } else {
        EntriesFit(cmp, Child(t, cmp(item, t.data) > 0), item);
      }
    }
  }

  lemma {:induction false} ReachesWhatItHas<N, T(!new)>(cmp: (T, T) -> int, t: Tree<N, T>, x: seq<bool>, item: T)
    requires Order(cmp) && Sorted(cmp, InOrder(t)) && IsPath(t, x) && Leads(cmp, t, x, item)
    ensures Reaches(cmp, Sub(t, x), item) <==> Has(cmp, InOrder(t), item)
    decreases Sub(t, x)
  {
    var s := Sub(t, x);
    if s.Leaf? {
      NotThere(cmp, t, x, item);
    } else if cmp(item, s.data) == 0 {
      HasAt(cmp, t, x, item);
    } else {
      LeadsStep(cmp, t, x, item);
      ReachesWhatItHas(cmp, t, x + [cmp(item, s.data) > 0], item);
    }
  }

  /** Enough for deletion: fewer than 5,702,886 items, or fewer than 9,227,464 of which one is equal. */
  lemma FewItemsFit<N, T(!new)>(cmp: (T, T) -> int, t: Tree<N, T>, item: T)
    requires Order(cmp) && Sorted(cmp, InOrder(t)) && Avl(t)
    requires |InOrder(t)| < 5702886 || (|InOrder(t)| < 9227464 && Has(cmp, InOrder(t), item))
    ensures 1 + Entries(cmp, t, item) <= MAX_HEIGHT
  {
    FewItemsAreShallow(t);
    ReachesWhatItHas(cmp, t, [], item);
    EntriesFit(cmp, t, item);
  }

  // ----- the bounds are exact

  /** The most items an AVL tree of height h can have. */
  function MaxItems(h: nat): nat {
    if h == 0 then 0 else 2 * MaxItems(h - 1) + 1
  }

  lemma {:induction false} FewAndMany(h: nat)
    ensures MinItems(h) <= MaxItems(h)
    ensures h > 0 ==> MinItems(h) <= MaxItems(h - 1) + 1
  {
    if h == 1 {
      assert MaxItems(0) == 0;
    } else if h > 1 {
      FewAndMany(h - 1);
      FewAndMany(h - 2);
    }
  }

  /** The height of the right subtree of a tree of height h with n items, the left one being of height h - 1. */
  function RightHeight(h: nat, n: nat): nat
    requires h >= 2
  {
    if n <= MaxItems(h - 1) + MaxItems(h - 2) + 1 then h - 2 else h - 1
  }

  /** How many of the items go to the left subtree: as many as it can take, if enough are left for the right one. */
  function LeftItems(h: nat, n: nat): (l: int)
    requires h >= 2
  {
    var rest := n - 1 - MinItems(RightHeight(h, n));
    if rest <= MaxItems(h - 1) then rest else MaxItems(h - 1)
  }

  lemma PartsFit(h: nat, n: nat)
    requires h >= 2 && MinItems(h) <= n <= MaxItems(h)
    ensures var l, r := LeftItems(h, n), n - 1 - LeftItems(h, n);
      && 0 <= l && MinItems(h - 1) <= l <= MaxItems(h - 1)
      && 0 <= r && MinItems(RightHeight(h, n)) <= r <= MaxItems(RightHeight(h, n))
  {
    FewAndMany(h - 1);
    FewAndMany(h - 2);
  }

  /** An AVL tree of height h over n consecutive numbers from lo, in which every step to the left goes down one level
      only. */
  function Spread(h: nat, n: nat, lo: int): Tree<int, int>
    requires MinItems(h) <= n <= MaxItems(h)
    decreases h
  {
    if h == 0 then Leaf
    else if h == 1 then Node(Leaf, lo, lo, 0, Leaf)
    else
      PartsFit(h, n);
      var l, hr := LeftItems(h, n), RightHeight(h, n);
      Node(Spread(h - 1, l, lo), lo + l, lo + l, hr - (h - 1), Spread(hr, n - 1 - l, lo + l + 1))
  }

  const DIFFERENCE := (a: int, b: int) => a - b

  ghost predicate Consecutive(s: seq<int>, lo: int) {
    forall i :: 0 <= i < |s| ==> s[i] == lo + i
  }

  lemma SpreadNode(h: nat, n: nat, lo: int)
    requires h >= 2 && MinItems(h) <= n <= MaxItems(h)
    ensures var l, hr := LeftItems(h, n), RightHeight(h, n);
      && 0 <= l < n && (hr == h - 1 || hr == h - 2)
      && MinItems(h - 1) <= l <= MaxItems(h - 1) && MinItems(hr) <= n - 1 - l <= MaxItems(hr)
      && Spread(h, n, lo) == Node(Spread(h - 1, l, lo), lo + l, lo + l, hr - (h - 1), Spread(hr, n - 1 - l, lo + l + 1))
  {
    PartsFit(h, n);
    hide LeftItems, MinItems, MaxItems;
  }

  lemma SpreadLow(h: nat, n: nat, lo: int)
    requires h < 2 && MinItems(h) <= n <= MaxItems(h)
    ensures var t := Spread(h, n, lo); Avl(t) && Height(t) == h && |InOrder(t)| == n && Consecutive(InOrder(t), lo)
  {
    if h == 1 {
      assert MaxItems(0) == 0;
      var t := Spread(h, n, lo);
      assert t.left == Leaf && t.right == Leaf && InOrder(t) == [lo];
    }
  }

  lemma NodeIsAvl<N, T>(l: Tree<N, T>, n: N, x: T, b: int, r: Tree<N, T>)
    requires Avl(l) && Avl(r) && -1 <= b <= 1 && b == Height(r) - Height(l)
    ensures Avl(Node(l, n, x, b, r)) && Height(Node(l, n, x, b, r)) == 1 + Max(Height(l), Height(r))
  {
  }

  lemma ConsecutiveNode(l: Tree<int, int>, x: int, b: int, r: Tree<int, int>, lo: int)
    requires Consecutive(InOrder(l), lo) && x == lo + |InOrder(l)| && Consecutive(InOrder(r), x + 1)
    ensures var s := InOrder(Node(l, x, x, b, r)); |s| == |InOrder(l)| + 1 + |InOrder(r)| && Consecutive(s, lo)
  {
  }

  lemma {:induction false} SpreadIsAvl(h: nat, n: nat, lo: int)
    requires MinItems(h) <= n <= MaxItems(h)
    ensures var t := Spread(h, n, lo); Avl(t) && Height(t) == h && |InOrder(t)| == n && Consecutive(InOrder(t), lo)
    decreases h
  {
    hide *;
    if h < 2 {
      SpreadLow(h, n, lo);
    } else {
      SpreadNode(h, n, lo);
      var l, hr := LeftItems(h, n), RightHeight(h, n);
      var a, b := Spread(h - 1, l, lo), Spread(hr, n - 1 - l, lo + l + 1);
      SpreadIsAvl(h - 1, l, lo);
      SpreadIsAvl(hr, n - 1 - l, lo + l + 1);
      NodeIsAvl(a, lo + l, lo + l, hr - (h - 1), b);
      ConsecutiveNode(a, lo + l, hr - (h - 1), b, lo);
      MaxOf(h - 1, hr);
    }
  }

  lemma MaxOf(a: int, b: int)
    requires b <= a
    ensures Max(a, b) == a
  {
  }

  /** The search for a number below all others passes h nodes, and the search for the least one needs as many entries
      but one. */
  lemma {:induction false} SpreadSearch(h: nat, n: nat, lo: int, item: int)
    requires MinItems(h) <= n <= MaxItems(h) && item < lo
    ensures Entries(DIFFERENCE, Spread(h, n, lo), item) == h
    ensures h > 0 ==> h <= 1 + Entries(DIFFERENCE, Spread(h, n, lo), lo)
    decreases h
  {
    if h > 1 {
      PartsFit(h, n);
      SpreadSearch(h - 1, LeftItems(h, n), lo, item);
    }
  }

  /** For any number of items there is a height from h on that such a tree can have, if there are enough for h. */
  lemma HeightFor(h: nat, n: nat) returns (k: nat)
    requires h > 0 && MinItems(h) <= n
    ensures h <= k && MinItems(k) <= n <= MaxItems(k)
    decreases n - MinItems(h)
  {
    FewAndMany(h);
    FewAndMany(h + 1);
    if n <= MaxItems(h) {
      k := h;
    } else {
      k := HeightFor(h + 1, n);
    }
  }

  ghost predicate ValidTable<N, T(!new)>(cmp: (T, T) -> int, t: Tree<N, T>, n: nat) {
    Order(cmp) && Avl(t) && Sorted(cmp, InOrder(t)) && |InOrder(t)| == n
  }

  /** A table of n items, n being enough for height h, that is at least h high on the left. */
  lemma TallTable(h: nat, n: nat) returns (t: Tree<int, int>)
    requires h > 0 && MinItems(h) <= n
    ensures ValidTable(DIFFERENCE, t, n) && Height(t) >= h
    ensures Entries(DIFFERENCE, t, 0) >= h && !Has(DIFFERENCE, InOrder(t), 0)
    ensures 1 + Entries(DIFFERENCE, t, 1) >= h && Has(DIFFERENCE, InOrder(t), 1)
  {
    var k := HeightFor(h, n);
    t := Spread(k, n, 1);
    hide Spread, InOrder, Avl, Height, Entries, MinItems, MaxItems, Sorted, Has, Order, Consecutive;
    SpreadIsAvl(k, n, 1);
    SpreadSearch(k, n, 1, 0);
    EnoughForOne(h);
    ConsecutiveItems(InOrder(t));
  }

  lemma ConsecutiveItems(s: seq<int>)
    requires Consecutive(s, 1)
    ensures Order(DIFFERENCE) && Sorted(DIFFERENCE, s) && !Has(DIFFERENCE, s, 0) && (s != [] ==> Has(DIFFERENCE, s, 1))
  {
    if s != [] { assert DIFFERENCE(1, s[0]) == 0; }
  }

  lemma EnoughForOne(h: nat)
    requires h > 0
    ensures MinItems(h) > 0
  {
  }

  /** Deletion stays inside its arrays in all tables of n items exactly for n below 5,702,886; of an item that is
      there, exactly for n below 9,227,464. */
  lemma DeleteFitsExactly(n: nat)
    ensures (forall cmp: (int, int) -> int, t: Tree<int, int>, item :: ValidTable(cmp, t, n) ==> 1 + Entries(cmp, t, item) <= MAX_HEIGHT)
      <==> n < 5702886
    ensures (forall cmp: (int, int) -> int, t: Tree<int, int>, item ::
        ValidTable(cmp, t, n) && Has(cmp, InOrder(t), item) ==> 1 + Entries(cmp, t, item) <= MAX_HEIGHT) <==> n < 9227464
  {
    hide Avl, Entries, MinItems, Sorted;
    MinItemsValues();
    forall cmp: (int, int) -> int, t: Tree<int, int>, item | ValidTable(cmp, t, n) && (n < 5702886 || (n < 9227464 && Has(cmp, InOrder(t), item)))
      ensures 1 + Entries(cmp, t, item) <= MAX_HEIGHT
    {
      FewItemsFit(cmp, t, item);
    }
    if n >= 5702886 {
      var t := TallTable(32, n);
    }
    if n >= 9227464 {
      var t := TallTable(33, n);
    }
  }

  /** All tables of n items are at most h high exactly when n is below the fewest items for the next height. The path
      stack of a traverser is long enough for height 33. */
  lemma HeightFitsExactly(h: nat, n: nat)
    ensures (forall cmp: (int, int) -> int, t: Tree<int, int> :: ValidTable(cmp, t, n) ==> Height(t) <= h) <==> n < MinItems(h + 1)
    ensures MinItems(34) == 14930351
  {
    assert MinItems(34) == 1 + MinItems(33) + MinItems(32);
    hide Avl, MinItems, Sorted, InOrder;
    MinItemsValues();
    forall cmp: (int, int) -> int, t: Tree<int, int> | ValidTable(cmp, t, n) && n < MinItems(h + 1)
      ensures Height(t) <= h
    {
      FewestItems(t);
      if Height(t) > h { MinItemsGrows(h + 1, Height(t)); }
    }
    if n >= MinItems(h + 1) {
      var t := TallTable(h + 1, n);
    }
  }

  /** The smallest such tables: one of 5,702,886 items, of height 32, in which deleting a missing item needs 33
      entries; and one of 9,227,464 items whose height is 33. */
  lemma BoundsAreTight() returns (t: Tree<int, int>, u: Tree<int, int>)
    ensures ValidTable(DIFFERENCE, t, 5702886) && Height(t) == 32 && !Has(DIFFERENCE, InOrder(t), 0) && 1 + Entries(DIFFERENCE, t, 0) == 33
    ensures ValidTable(DIFFERENCE, u, 9227464) && Height(u) == 33
  {
    assert MinItems(34) == 1 + MinItems(33) + MinItems(32);
    hide Avl, MinItems, Sorted, InOrder, Entries, Height, Has;
    MinItemsValues();
    t := TallTable(32, 5702886);
    FewItemsAreShallow(t);
    EntriesFit(DIFFERENCE, t, 0);
    u := TallTable(33, 9227464);
    FewestItems(u);
    if Height(u) > 33 { MinItemsGrows(34, Height(u)); }
  }
}
