/** How many items a table needs before the array of cached comparison results in avl_probe can be too short. */
module AvlProbeBounds {
  import opened Orders
  import opened AvlTree
  import opened AvlOrder
  import opened AvlTable
  import opened AvlBounds

  // ----- enough room

  /** The fewest items below a chain of j balanced nodes. */
  function ChainItems(j: nat): nat {
    if j == 0 then 0 else 1 + ChainItems(j - 1) + MinItems(j - 1)
  }

  lemma {:induction false} ChainItemsIs(j: nat)
    ensures ChainItems(j) + 1 == MinItems(j + 1)
  {
    if j > 0 { ChainItemsIs(j - 1); }
  }

  /** How many balanced nodes the search for item passes before anything else. */
  function Chain<N, T>(cmp: (T, T) -> int, t: Tree<N, T>, item: T): nat {
    if t.Leaf? || cmp(item, t.data) == 0 || t.balance != 0 then 0 else 1 + Chain(cmp, Child(t, cmp(item, t.data) > 0), item)
  }

  lemma {:induction false} ChainIsLarge<N, T>(cmp: (T, T) -> int, t: Tree<N, T>, item: T)
    requires Avl(t)
    ensures Chain(cmp, t, item) <= Height(t) && ChainItems(Chain(cmp, t, item)) <= |InOrder(t)|
  {
    if Chain(cmp, t, item) > 0 {
      var d := cmp(item, t.data) > 0;
      ChainIsLarge(cmp, Child(t, d), item);
      FewestItems(Child(t, !d));
      MinItemsGrows(Chain(cmp, Child(t, d), item), Height(Child(t, !d)));
      ItemsOf(t, d);
    }
  }

  lemma ItemsOf<N, T>(t: Tree<N, T>, d: bool)
    requires t.Node?
    ensures |InOrder(t)| == |InOrder(Child(t, d))| + 1 + |InOrder(Child(t, !d))|
  {
  }

  /** More cached results than fit, k of them so far, take a long chain from here on or many items. */
  lemma {:induction false} CachedIsLarge<N, T>(cmp: (T, T) -> int, t: Tree<N, T>, item: T, k: nat)
    requires Avl(t) && Cached(cmp, t, item, k) > MAX_HEIGHT
    ensures k + Chain(cmp, t, item) > MAX_HEIGHT || |InOrder(t)| >= 1 + ChainItems(MAX_HEIGHT) + MinItems(MAX_HEIGHT - 1)
    decreases t
  {
    if k <= MAX_HEIGHT {
      CachedOnce(cmp, t, item, k);
      AvlSides(t);
      hide Avl, Height, InOrder, MinItems, ChainItems, Cached;
      var d := cmp(item, t.data) > 0;
      var c, k' := Child(t, d), if t.balance != 0 then 1 else k + 1;
      ItemsOf(t, d);
      CachedIsLarge(cmp, c, item, k');
      if t.balance != 0 && Chain(cmp, c, item) >= MAX_HEIGHT {
        LongChain(cmp, c, Child(t, !d), item);
      }
    }
  }

  lemma AvlSides<N, T>(t: Tree<N, T>)
    requires Avl(t) && t.Node?
    ensures Avl(t.left) && Avl(t.right) && Height(t.left) - 1 <= Height(t.right) <= Height(t.left) + 1
  {
  }

  lemma CachedOnce<N, T>(cmp: (T, T) -> int, t: Tree<N, T>, item: T, k: nat)
    requires Cached(cmp, t, item, k) > k
    ensures t.Node? && cmp(item, t.data) != 0
    ensures Cached(cmp, t, item, k) == Cached(cmp, Child(t, cmp(item, t.data) > 0), item, if t.balance != 0 then 1 else k + 1)
  {
  }

  lemma LongChain<N, T>(cmp: (T, T) -> int, c: Tree<N, T>, o: Tree<N, T>, item: T)
    requires Avl(c) && Avl(o) && Height(o) >= Height(c) - 1 && Chain(cmp, c, item) >= MAX_HEIGHT
    ensures |InOrder(c)| + |InOrder(o)| >= ChainItems(MAX_HEIGHT) + MinItems(MAX_HEIGHT - 1)
  {
    hide Avl, Height, InOrder, ChainItems, MinItems, Chain;
    ChainIsLarge(cmp, c, item);
    FewestItems(o);
    MinItemsGrows(MAX_HEIGHT - 1, Height(o));
    ChainItemsIs(MAX_HEIGHT);
    ChainItemsIs(Chain(cmp, c, item));
    MinItemsGrows(MAX_HEIGHT + 1, Chain(cmp, c, item) + 1);
  }

  lemma MinItemsNext(h: nat)
    ensures MinItems(h + 2) == 1 + MinItems(h + 1) + MinItems(h)
  {
  }

  lemma Threshold()
    ensures 1 + ChainItems(MAX_HEIGHT) + MinItems(MAX_HEIGHT - 1) == 12752041
  {
    hide MinItems, ChainItems;
    MinItemsValues();
    MinItemsNext(31);
    ChainItemsIs(32);
  }

  /** Below that number of items insertion stays inside its array. */
  lemma ProbeFits<N, T>(cmp: (T, T) -> int, t: Tree<N, T>, item: T)
    requires Avl(t) && |InOrder(t)| < 12752041
    ensures Cached(cmp, t, item, 0) <= MAX_HEIGHT
  {
    hide MinItems, ChainItems, Cached, Chain, Avl, InOrder, Height;
    Threshold();
    if Cached(cmp, t, item, 0) > MAX_HEIGHT {
      CachedIsLarge(cmp, t, item, 0);
      ChainIsLarge(cmp, t, item);
      ChainItemsIs(MAX_HEIGHT);
      ChainItemsIs(Chain(cmp, t, item));
      MinItemsGrows(MAX_HEIGHT + 2, Chain(cmp, t, item) + 1);
      MinItemsNext(MAX_HEIGHT);
      MinItemsGrows(MAX_HEIGHT - 1, MAX_HEIGHT);
    }
  }

  // ----- and no more than that

  /** The fewest items of a tree of height h in which every step to the left goes down one level only, and the last
      32 of them from balanced nodes. */
  function Fewest(h: nat): nat {
    if h <= MAX_HEIGHT then ChainItems(h) else 1 + Fewest(h - 1) + MinItems(h - 2)
  }

  lemma {:induction false} FewestFit(h: nat)
    ensures Fewest(h) <= MaxItems(h)
  {
    if h > 0 {
      FewestFit(h - 1);
      FewAndMany(h - 1);
      if h > 1 { FewAndMany(h - 2); }
    }
  }

  function RightOf(h: nat, n: nat): nat
    requires h >= 1
  {
    if h <= MAX_HEIGHT then h - 1 else RightHeight(h, n)
  }

  function LeftOf(h: nat, n: nat): int
    requires h >= 1
  {
    var rest := n - 1 - MinItems(RightOf(h, n));
    if rest <= MaxItems(h - 1) then rest else MaxItems(h - 1)
  }

  lemma SteepParts(h: nat, n: nat)
    requires h >= 1 && Fewest(h) <= n <= MaxItems(h)
    ensures var l, r := LeftOf(h, n), n - 1 - LeftOf(h, n);
      && 0 <= l && Fewest(h - 1) <= l <= MaxItems(h - 1)
      && 0 <= r && MinItems(RightOf(h, n)) <= r <= MaxItems(RightOf(h, n))
  {
    FewestFit(h - 1);
    FewAndMany(h - 1);
    if h > 1 { FewAndMany(h - 2); }
  }

  /** Such a tree, over n consecutive numbers from lo. */
  function Steep(h: nat, n: nat, lo: int): Tree<int, int>
    requires Fewest(h) <= n <= MaxItems(h)
    decreases h
  {
    if h == 0 then Leaf
    else
      SteepParts(h, n);
      var l, hr := LeftOf(h, n), RightOf(h, n);
      Node(Steep(h - 1, l, lo), lo + l, lo + l, hr - (h - 1), Spread(hr, n - 1 - l, lo + l + 1))
  }

  lemma SteepSides(h: nat, n: nat)
    requires h >= 1 && Fewest(h) <= n <= MaxItems(h)
    ensures var l, hr := LeftOf(h, n), RightOf(h, n);
      && 0 <= l < n && (hr == h - 1 || (h > MAX_HEIGHT && hr == h - 2))
      && Fewest(h - 1) <= l <= MaxItems(h - 1) && MinItems(hr) <= n - 1 - l <= MaxItems(hr)
  {
    hide *;
    SteepParts(h, n);
    RightIs(h, n);
  }

  lemma RightIs(h: nat, n: nat)
    requires h >= 1
    ensures RightOf(h, n) == h - 1 || (h > MAX_HEIGHT && RightOf(h, n) == h - 2)
  {
  }

  lemma SteepNode(h: nat, n: nat, lo: int)
    requires h >= 1 && Fewest(h) <= n <= MaxItems(h)
    ensures var l, hr := LeftOf(h, n), RightOf(h, n);
      && 0 <= l < n && (hr == h - 1 || (h > MAX_HEIGHT && hr == h - 2))
      && Fewest(h - 1) <= l <= MaxItems(h - 1) && MinItems(hr) <= n - 1 - l <= MaxItems(hr)
      && Steep(h, n, lo) == Node(Steep(h - 1, l, lo), lo + l, lo + l, hr - (h - 1), Spread(hr, n - 1 - l, lo + l + 1))
  {
    hide LeftOf, RightOf, MinItems, MaxItems, Fewest, Spread;
    SteepSides(h, n);
  }

  lemma SteepLow(n: nat, lo: int)
    requires Fewest(0) <= n <= MaxItems(0)
    ensures var t := Steep(0, n, lo); t == Leaf && Avl(t) && Height(t) == 0 && |InOrder(t)| == n && Consecutive(InOrder(t), lo)
  {
    assert MaxItems(0) == 0;
  }

  lemma {:induction false} SteepIsAvl(h: nat, n: nat, lo: int)
    requires Fewest(h) <= n <= MaxItems(h)
    ensures var t := Steep(h, n, lo); Avl(t) && Height(t) == h && |InOrder(t)| == n && Consecutive(InOrder(t), lo)
    decreases h
  {
    hide *;
    if h == 0 {
      SteepLow(n, lo);
    } else {
      SteepNode(h, n, lo);
      var l, hr := LeftOf(h, n), RightOf(h, n);
      var a, b := Steep(h - 1, l, lo), Spread(hr, n - 1 - l, lo + l + 1);
      SteepIsAvl(h - 1, l, lo);
      SpreadIsAvl(hr, n - 1 - l, lo + l + 1);
      NodeIsAvl(a, lo + l, lo + l, hr - (h - 1), b);
      ConsecutiveNode(a, lo + l, hr - (h - 1), b, lo);
      MaxOf(h - 1, hr);
    }
  }

  /** The search for a number below all others caches a result at every node of the last chain, and one before. */
  lemma {:induction false} SteepSearch(h: nat, n: nat, lo: int, item: int, k: nat)
    requires Fewest(h) <= n <= MaxItems(h) && item < lo
    ensures h <= MAX_HEIGHT ==> Cached(DIFFERENCE, Steep(h, n, lo), item, k) >= k + h
    ensures h > MAX_HEIGHT ==> Cached(DIFFERENCE, Steep(h, n, lo), item, k) > MAX_HEIGHT
    decreases h
  {
    hide Steep, LeftOf, RightOf, MinItems, MaxItems, Fewest, Spread;
    if h == 0 {
      SteepLow(n, lo);
    } else {
      SteepNode(h, n, lo);
      var t, l := Steep(h, n, lo), LeftOf(h, n);
      CachedStep(DIFFERENCE, t, item, k);
      hide Cached;
      SteepSearch(h - 1, l, lo, item, if t.balance != 0 then 1 else k + 1);
    }
  }

  lemma EightMore(h: nat, a: nat)
    requires MaxItems(h) == a
    ensures MaxItems(h + 8) == 256 * a + 255
  {
    assert MaxItems(h + 2) == 4 * a + 3 && MaxItems(h + 4) == 16 * a + 15 && MaxItems(h + 6) == 64 * a + 63;
  }

  lemma ManyItems()
    ensures MaxItems(32) >= 12752041
  {
    EightMore(0, 0);
    EightMore(8, 255);
    EightMore(16, 65535);
    EightMore(24, 16777215);
  }

  /** From height 33 on the trees of one height can have as many items as the next needs, less one. */
  lemma {:induction false} NoGap(h: nat)
    requires h > MAX_HEIGHT
    ensures Fewest(h) <= MaxItems(h - 1) + 1
  {
    if h == MAX_HEIGHT + 1 {
      FirstFewest();
      ManyItems();
    } else {
      NoGap(h - 1);
      FewAndMany(h - 2);
    }
  }

  lemma FirstFewest()
    ensures Fewest(33) == 12752041
  {
    Threshold();
    hide ChainItems, MinItems;
  }

  lemma SteepHeight(h: nat, n: nat) returns (k: nat)
    requires h > MAX_HEIGHT && Fewest(h) <= n
    ensures h <= k && Fewest(k) <= n <= MaxItems(k)
    decreases n - Fewest(h)
  {
    if n <= MaxItems(h) {
      k := h;
    } else {
      NoGap(h + 1);
      k := SteepHeight(h + 1, n);
    }
  }

  /** Insertion stays inside its array in all tables of n items exactly for n below 12,752,041. */
  lemma ProbeFitsExactly(n: nat)
    ensures (forall cmp: (int, int) -> int, t: Tree<int, int>, item :: ValidTable(cmp, t, n) ==> Cached(cmp, t, item, 0) <= MAX_HEIGHT)
      <==> n < 12752041
  {
    hide Avl, Cached, Fewest, MaxItems, Steep, InOrder, Sorted, Order, Consecutive;
    if n < 12752041 {
      forall cmp: (int, int) -> int, t: Tree<int, int>, item | ValidTable(cmp, t, n)
        ensures Cached(cmp, t, item, 0) <= MAX_HEIGHT
      {
        ProbeFits(cmp, t, item);
      }
    } else {
      FirstFewest();
      var h := SteepHeight(33, n);
      SteepIsAvl(h, n, 1);
      SteepSearch(h, n, 1, 0, 0);
      ConsecutiveItems(InOrder(Steep(h, n, 1)));
      assert ValidTable(DIFFERENCE, Steep(h, n, 1), n);
    }
  }
}
