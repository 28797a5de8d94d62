/** Bottom-up merge sort between two buffers; the result is copied back if it ends in the second one. */
module MergeSort {
  import opened StableSort

  function Min(a: int, b: int): int {
    if a < b then a else b
  }

  /** The run of at most w items at i is the stable sort of the same slice of orig. */
  ghost predicate RunAt<T>(lt: (T, T) -> bool, cur: seq<T>, orig: seq<T>, i: nat, w: nat)
    requires i <= |cur| == |orig|
  {
    var hi := Min(i + w, |orig|);
    cur[i..hi] == Sort(lt, orig[i..hi])
  }

  /** So are all runs from i on. */
  ghost predicate RunsFrom<T>(lt: (T, T) -> bool, cur: seq<T>, orig: seq<T>, i: nat, w: nat)
    requires |cur| == |orig| && w > 0
    decreases |orig| - i
  {
    i >= |orig| || (RunAt(lt, cur, orig, i, w) && RunsFrom(lt, cur, orig, i + w, w))
  }

  /** So are all runs up to i, which is a multiple of w. */
  ghost predicate RunsTo<T>(lt: (T, T) -> bool, cur: seq<T>, orig: seq<T>, i: nat, w: nat)
    requires |cur| == |orig| && w > 0
    decreases i
  {
    i == 0 || (i >= w && i - w < |orig| && RunAt(lt, cur, orig, i - w, w) && RunsTo(lt, cur, orig, i - w, w))
  }

  lemma {:induction false} RunsMeet<T>(lt: (T, T) -> bool, cur: seq<T>, orig: seq<T>, i: nat, w: nat)
    requires |cur| == |orig| && w > 0 && RunsTo(lt, cur, orig, i, w) && RunsFrom(lt, cur, orig, i, w)
    ensures RunsFrom(lt, cur, orig, 0, w)
    decreases i
  {
    if i > 0 { RunsMeet(lt, cur, orig, i - w, w); }
  }

  /** Writing from i on does not disturb the runs before. */
  lemma {:induction false} RunsToFrame<T>(lt: (T, T) -> bool, cur: seq<T>, cur': seq<T>, orig: seq<T>, i: nat, w: nat)
    requires |cur| == |orig| == |cur'| && w > 0 && RunsTo(lt, cur, orig, i, w)
    requires cur[..Min(i, |orig|)] == cur'[..Min(i, |orig|)]
    ensures RunsTo(lt, cur', orig, i, w)
    decreases i
  {
    if i > 0 {
      var hi := Min(i, |orig|);
      assert cur[i - w..hi] == cur[..hi][i - w..] && cur'[i - w..hi] == cur'[..hi][i - w..];
      assert cur[..i - w] == cur[..hi][..i - w] && cur'[..i - w] == cur'[..hi][..i - w];
      RunsToFrame(lt, cur, cur', orig, i - w, w);
    }
  }

  lemma SortOne<T>(lt: (T, T) -> bool, x: T)
    ensures Sort(lt, [x]) == [x]
  {
    assert [x][1..] == [] && Sort(lt, []) == [];
  }

  lemma SortTwo<T>(lt: (T, T) -> bool, x: T, y: T)
    ensures Sort(lt, [x, y]) == if lt(y, x) then [y, x] else [x, y]
  {
    assert [x, y][1..] == [y] && [y][1..] == [];
    SortOne(lt, y);
    assert InsertFront(lt, x, []) == [x];
  }

  /** Single items are sorted. */
  lemma {:induction false} RunsOfOne<T>(lt: (T, T) -> bool, s: seq<T>, i: nat)
    ensures RunsFrom(lt, s, s, i, 1)
    decreases |s| - i
  {
    if i < |s| {
      RunsOfOne(lt, s, i + 1);
      assert s[i..i + 1] == [s[i]];
      SortOne(lt, s[i]);
    }
  }

  /** One run that reaches to the end is the whole sort. */
  lemma RunOfAll<T>(lt: (T, T) -> bool, cur: seq<T>, orig: seq<T>, w: nat)
    requires |cur| == |orig| && w > 0 && RunsFrom(lt, cur, orig, 0, w) && w >= |orig|
    ensures cur == Sort(lt, orig)
  {
    assert cur[0..|orig|] == cur && orig[0..|orig|] == orig;
    if orig != [] { assert RunAt(lt, cur, orig, 0, w); }
  }

  /** Two runs merged are one run of twice the width. */
  lemma MergedRun<T(!new)>(lt: (T, T) -> bool, cur: seq<T>, orig: seq<T>, i: nat, w: nat)
    requires WeakOrder(lt) && |cur| == |orig| && w > 0 && i < |orig| && RunsFrom(lt, cur, orig, i, w)
    ensures var mid, hi := Min(i + w, |orig|), Min(i + 2 * w, |orig|);
      Merge(lt, cur[i..mid], cur[mid..hi]) == Sort(lt, orig[i..hi])
    ensures RunsFrom(lt, cur, orig, i + 2 * w, w)
  {
    var mid, hi := Min(i + w, |orig|), Min(i + 2 * w, |orig|);
    if mid == |orig| { assert Sort<T>(lt, []) == []; }
    hide Sort, Merge, WeakOrder;
    MergeSorts(lt, orig[i..mid], orig[mid..hi]);
    assert orig[i..mid] + orig[mid..hi] == orig[i..hi];
    assert RunAt(lt, cur, orig, i, w);
    if mid < |orig| {
      assert RunAt(lt, cur, orig, mid, w);
    } else {
      assert cur[mid..hi] == [] && orig[mid..hi] == [];
    }
  }

  /** With that run written, the runs of twice the width reach further. */
  lemma RunAdded<T(!new)>(lt: (T, T) -> bool, cur: seq<T>, before: seq<T>, after: seq<T>, orig: seq<T>, i: nat, w: nat)
    requires WeakOrder(lt) && |cur| == |before| == |after| == |orig| && w > 0 && i < |orig|
    requires RunsFrom(lt, cur, orig, i, w) && RunsTo(lt, before, orig, i, 2 * w) && before[..i] == after[..i]
    requires var mid, hi := Min(i + w, |orig|), Min(i + 2 * w, |orig|); after[i..hi] == Merge(lt, cur[i..mid], cur[mid..hi])
    ensures RunsTo(lt, after, orig, i + 2 * w, 2 * w) && RunsFrom(lt, cur, orig, i + 2 * w, w)
  {
    MergedRun(lt, cur, orig, i, w);
    RunsToFrame(lt, before, after, orig, i, 2 * w);
    assert RunAt(lt, after, orig, i, 2 * w);
  }

  /** What one step of merging s[j..mid] and s[k..hi] takes. */
  lemma MergeStep<T>(lt: (T, T) -> bool, s: seq<T>, j: nat, mid: nat, k: nat, hi: nat)
    requires j < mid <= k < hi <= |s|
    ensures Merge(lt, s[j..mid], s[k..hi])
      == if lt(s[k], s[j]) then [s[k]] + Merge(lt, s[j..mid], s[k + 1..hi]) else [s[j]] + Merge(lt, s[j + 1..mid], s[k..hi])
  {
    assert s[j..mid][1..] == s[j + 1..mid] && s[k..hi][1..] == s[k + 1..hi];
  }

  lemma MergeRest<T>(lt: (T, T) -> bool, a: seq<T>, b: seq<T>)
    requires a == [] || b == []
    ensures Merge(lt, a, b) == a + b
  {
  }

  /** Appends src[j..hi] at p. */
  method CopyTo<T>(src: array<T>, j0: nat, hi: nat, dst: array<T>, p0: nat, ghost i: nat, ghost top: nat) returns (p: nat)
    requires src != dst && j0 <= hi <= src.Length && i <= p0 <= p0 + hi - j0 <= top <= dst.Length
    modifies dst
    ensures p == p0 + hi - j0 && dst[i..p] == old(dst[i..p0]) + src[j0..hi]
    ensures dst[..i] == old(dst[..i]) && dst[top..] == old(dst[top..])
  {
    var j := j0;
    p := p0;
    while j < hi
      invariant j0 <= j <= hi && p == p0 + j - j0
      invariant dst[i..p] == old(dst[i..p0]) + src[j0..j]
      invariant dst[..i] == old(dst[..i]) && dst[top..] == old(dst[top..])
    {
      ghost var done := dst[i..p];
      dst[p] := src[j];
      p, j := p + 1, j + 1;
      assert dst[i..p] == done + [dst[p - 1]];
    }
  }

  /** Merges src[i..mid] and src[mid..hi] to dst[i..hi]. */
  method MergeRuns<T>(lt: (T, T) -> bool, src: array<T>, dst: array<T>, i: nat, mid: nat, hi: nat)
    requires src != dst && i <= mid <= hi <= src.Length && hi <= dst.Length
    modifies dst
    ensures dst[i..hi] == Merge(lt, src[i..mid], src[mid..hi])
    ensures dst[..i] == old(dst[..i]) && dst[hi..] == old(dst[hi..])
  {
    hide Merge;
    ghost var whole := Merge(lt, src[i..mid], src[mid..hi]);
    var j, k, p := MergeHeads(lt, src, dst, i, mid, hi);
    ghost var l, r, head := src[j..mid], src[k..hi], dst[i..p];
    MergeRest(lt, l, r);
    assert head + l + r == whole by { assert (head + l) + r == head + (l + r); }
    p := CopyTo(src, j, mid, dst, p, i, hi);
    p := CopyTo(src, k, hi, dst, p, i, hi);
  }

  /** The same behind what has been merged before. */
  lemma MergeTaken<T>(lt: (T, T) -> bool, s: seq<T>, done: seq<T>, j: nat, mid: nat, k: nat, hi: nat)
    requires j < mid <= k < hi <= |s|
    ensures done + Merge(lt, s[j..mid], s[k..hi])
      == if lt(s[k], s[j]) then (done + [s[k]]) + Merge(lt, s[j..mid], s[k + 1..hi]) else (done + [s[j]]) + Merge(lt, s[j + 1..mid], s[k..hi])
  {
    hide Merge;
    MergeStep(lt, s, j, mid, k, hi);
    Behind(done, s[k], Merge(lt, s[j..mid], s[k + 1..hi]));
    Behind(done, s[j], Merge(lt, s[j + 1..mid], s[k..hi]));
  }

  lemma Behind<T>(a: seq<T>, x: T, b: seq<T>)
    ensures a + ([x] + b) == (a + [x]) + b
  {
  }

  /** Merges until one of the runs is used up. */
  method MergeHeads<T>(lt: (T, T) -> bool, src: array<T>, dst: array<T>, i: nat, mid: nat, hi: nat) returns (j: nat, k: nat, p: nat)
    requires src != dst && i <= mid <= hi <= src.Length && hi <= dst.Length
    modifies dst
    ensures i <= j <= mid <= k <= hi && p == j + k - mid && (j == mid || k == hi)
    ensures dst[i..p] + Merge(lt, src[j..mid], src[k..hi]) == Merge(lt, src[i..mid], src[mid..hi])
    ensures dst[..i] == old(dst[..i]) && dst[hi..] == old(dst[hi..])
  {
    j, k, p := i, mid, i;
    hide Merge;
    ghost var all := src[..];
    assert all[i..mid] == src[i..mid] && all[mid..hi] == src[mid..hi];
    while j < mid && k < hi
      invariant i <= j <= mid <= k <= hi && p == j + k - mid && src[..] == all
      invariant dst[i..p] + Merge(lt, all[j..mid], all[k..hi]) == Merge(lt, all[i..mid], all[mid..hi])
      invariant dst[..i] == old(dst[..i]) && dst[hi..] == old(dst[hi..])
    {
      ghost var done := dst[i..p];
      MergeTaken(lt, all, done, j, mid, k, hi);
      if lt(src[k], src[j]) {
        dst[p] := src[k];
        k := k + 1;
      } else {
        dst[p] := src[j];
        j := j + 1;
      }
      p := p + 1;
      assert dst[i..p] == done + [dst[p - 1]];
    }
    assert all[j..mid] == src[j..mid] && all[k..hi] == src[k..hi];
  }

  /** The first pass: pairs. */
  method PairPass<T(!new)>(lt: (T, T) -> bool, src: array<T>, dst: array<T>, n: nat, ghost orig: seq<T>)
    requires WeakOrder(lt) && src != dst && n <= src.Length && n <= dst.Length && src[..n] == orig
    modifies dst
    ensures RunsFrom(lt, dst[..n], orig, 0, 2) && dst[n..] == old(dst[n..])
  {
    var i, p := 0, 0;
    while i < n
      invariant (p == i <= n || (i == n + 1 && p == n))
      invariant RunsTo(lt, dst[..n], orig, i, 2) && dst[n..] == old(dst[n..])
    {
      ghost var before := dst[..n];
      if i == n - 1 {
        dst[p] := src[i];
        p := p + 1;
        OneRun(lt, orig, i);
        assert dst[..n][i..n] == [src[i]];
      } else {
        if lt(src[i + 1], src[i]) {
          dst[p] := src[i + 1];
          dst[p + 1] := src[i];
        } else {
          dst[p] := src[i];
          dst[p + 1] := src[i + 1];
        }
        p := p + 2;
        PairRun(lt, orig, i);
        assert dst[..n][i..i + 2] == [dst[i], dst[i + 1]];
      }
      RunsToFrame(lt, before, dst[..n], orig, i, 2);
      i := i + 2;
    }
    RunsMeet(lt, dst[..n], orig, i, 2);
  }

  lemma OneRun<T>(lt: (T, T) -> bool, orig: seq<T>, i: nat)
    requires i + 1 == |orig|
    ensures Sort(lt, orig[i..|orig|]) == [orig[i]]
  {
    assert orig[i..|orig|] == [orig[i]];
    SortOne(lt, orig[i]);
  }

  lemma PairRun<T>(lt: (T, T) -> bool, orig: seq<T>, i: nat)
    requires i + 1 < |orig|
    ensures Sort(lt, orig[i..i + 2]) == if lt(orig[i + 1], orig[i]) then [orig[i + 1], orig[i]] else [orig[i], orig[i + 1]]
  {
    assert orig[i..i + 2] == [orig[i], orig[i + 1]];
    SortTwo(lt, orig[i], orig[i + 1]);
  }

  /** A later pass: neighbouring runs of w items. */
  method MergePass<T(!new)>(lt: (T, T) -> bool, src: array<T>, dst: array<T>, n: nat, w: nat, ghost orig: seq<T>)
    requires WeakOrder(lt) && src != dst && n <= src.Length && n <= dst.Length && |orig| == n && w > 0
    requires RunsFrom(lt, src[..n], orig, 0, w)
    modifies dst
    ensures RunsFrom(lt, dst[..n], orig, 0, 2 * w) && dst[n..] == old(dst[n..])
  {
    var i := 0;
    hide RunsFrom, Merge, Sort, WeakOrder;
    while i < n
      invariant RunsTo(lt, dst[..n], orig, i, 2 * w) && RunsFrom(lt, src[..n], orig, i, w)
      invariant dst[n..] == old(dst[n..])
      decreases n - i
    {
      var mid, hi := n, n;
      if n >= i + w {
        mid := i + w;
        hi := if n < i + 2 * w then n else i + 2 * w;
      }
      ghost var before := dst[..n];
      MergeRuns(lt, src, dst, i, mid, hi);
      PartOf(src[..], n, i, mid);
      PartOf(src[..], n, mid, hi);
      PartOf(dst[..], n, i, hi);
      assert dst[..n][..i] == dst[..i] && before[..i] == dst[..i];
      RunAdded(lt, src[..n], before, dst[..n], orig, i, w);
      i := i + 2 * w;
    }
    NoRuns(lt, dst[..n], orig, i, 2 * w);
    RunsMeet(lt, dst[..n], orig, i, 2 * w);
  }

  lemma PartOf<T>(s: seq<T>, n: nat, i: nat, j: nat)
    requires i <= j <= n <= |s|
    ensures s[..n][i..j] == s[i..j]
  {
  }

  lemma NoRuns<T>(lt: (T, T) -> bool, cur: seq<T>, orig: seq<T>, i: nat, w: nat)
    requires |cur| == |orig| <= i && w > 0
    ensures RunsFrom(lt, cur, orig, i, w)
  {
  }

  /** Sorts the first n items in place. */
  method MergeSort<T(0, !new)>(lt: (T, T) -> bool, n: nat, a: array<T>, temp: array?<T>)
    requires WeakOrder(lt) && n <= a.Length && temp != a && (temp != null ==> n <= temp.Length)
    modifies a, temp
    ensures a[..n] == Sort(lt, old(a[..n])) && a[n..] == old(a[n..])
  {
    ghost var orig := a[..n];
    var b: array<T>;
    if temp != null {
      b := temp;
    } else {
      b := new T[n];
    }
    var curr, step := 0, 1;
    RunsOfOne(lt, orig, 0);
    while step < n
      invariant step > 0 && (curr == 0 || curr == 1)
      invariant RunsFrom(lt, if curr == 0 then a[..n] else b[..n], orig, 0, step)
      invariant a[n..] == old(a[n..]) && (step == 1 ==> (if curr == 0 then a[..n] else b[..n]) == orig)
      decreases n - step
    {
      var src, dst := if curr == 0 then a else b, if curr == 0 then b else a;
      if step == 1 {
        PairPass(lt, src, dst, n, orig);
      } else {
        MergePass(lt, src, dst, n, step, orig);
      }
      curr := 1 - curr;
      step := 2 * step;
    }
    RunOfAll(lt, if curr == 0 then a[..n] else b[..n], orig, step);
    if curr == 1 {
      CopyBack(a, b, n);
    }
  }

  method CopyBack<T>(a: array<T>, b: array<T>, n: nat)
    requires a != b && n <= a.Length && n <= b.Length
    modifies a
    ensures a[..n] == b[..n] && a[n..] == old(a[n..])
  {
    var i := 0;
    while i < n
      invariant i <= n && a[..i] == b[..i] && a[n..] == old(a[n..])
    {
      a[i] := b[i];
      i := i + 1;
    }
  }
}
