/** Boyer-Moore substring search: the three tables of ksBM_prep and the skip search of kmemmem. */
module BoyerMoore {
  import opened Options

  type Byte = b: nat | b < 256 witness 0

  // ----- what the tables mean

  /** The k bytes of pat ending at i equal its last k bytes. */
  ghost predicate MatchesEnd(pat: seq<Byte>, i: nat, k: nat)
    requires i < |pat|
  {
    k <= i + 1 && forall x {:trigger pat[x]} :: i - k < x <= i ==> pat[x] == pat[x + |pat| - 1 - i]
  }

  /** k is the length of the longest common suffix of pat[..i + 1] and pat. */
  ghost predicate IsSuffixLength(pat: seq<Byte>, i: nat, k: nat)
    requires i < |pat|
  {
    MatchesEnd(pat, i, k) && (k == i + 1 || pat[i - k] != pat[|pat| - 1 - k])
  }

  /** Shifting by s after a mismatch at i puts equal bytes under the matched part pat[i + 1..], and a
      different byte under the mismatch. */
  ghost predicate GoodShift(pat: seq<Byte>, i: nat, s: nat)
    requires i < |pat|
  {
    && 1 <= s <= |pat|
    && (forall k {:trigger pat[k]} :: i < k < |pat| && s <= k ==> pat[k - s] == pat[k])
    && (s <= i ==> pat[i - s] != pat[i])
  }

  /** The good-suffix table holds the least good shift for every mismatch position. */
  ghost predicate IsGoodSuffixTable(pat: seq<Byte>, gs: seq<int>) {
    |gs| == |pat| && forall i :: 0 <= i < |pat| ==> IsLeastGoodShift(pat, i, gs[i])
  }

  ghost predicate IsLeastGoodShift(pat: seq<Byte>, i: nat, g: int)
    requires i < |pat|
  {
    g > 0 && GoodShift(pat, i, g) && forall s: nat :: s < g ==> !GoodShift(pat, i, s)
  }

  /** The bad-character table holds the distance from the last occurrence of a byte before the final
      position to that position, and m for a byte that does not occur there. */
  ghost predicate IsBadCharTable(pat: seq<Byte>, bc: seq<int>) {
    |pat| >= 1 && |bc| == 256 && forall c :: 0 <= c < 256 ==> IsLastDistance(pat, |pat| - 1, c, bc[c])
  }

  /** d belongs to the last occurrence of c among the first n bytes of pat. */
  ghost predicate IsLastDistance(pat: seq<Byte>, n: int, c: int, d: int)
    requires 0 <= n < |pat|
  {
    && 1 <= d <= |pat|
    && (d < |pat| ==> |pat| - 1 - d < n && pat[|pat| - 1 - d] == c)
    && forall i :: |pat| - 1 - d < i < n ==> pat[i] != c
  }

  ghost predicate OccursAt(str: seq<Byte>, pat: seq<Byte>, j: nat) {
    j + |pat| <= |str| && str[j..j + |pat|] == pat
  }

  /** prep is the good-suffix table followed by the bad-character table. */
  ghost predicate IsPrep(pat: seq<Byte>, prep: seq<int>) {
    && |prep| == |pat| + 256
    && IsGoodSuffixTable(pat, prep[..|pat|])
    && IsBadCharTable(pat, prep[|pat|..])
  }

  // ----- preBmBc

  method FillBadChar(pat: array<Byte>, prep: array<int>)
    requires pat.Length >= 1 && prep.Length == pat.Length + 256
    modifies prep
    ensures IsBadCharTable(pat[..], prep[pat.Length..])
  {
    var m := pat.Length;
    for c := 0 to 256
      invariant forall d :: m <= d < m + c ==> prep[d] == m
    {
      prep[m + c] := m;
    }
    for i := 0 to m - 1
      invariant forall d :: m <= d < m + 256 ==> IsLastDistance(pat[..], i, d - m, prep[d])
    {
      prep[m + pat[i]] := m - i - 1;
    }
    ghost var bc := prep[m..];
    assert forall c :: 0 <= c < 256 ==> bc[c] == prep[m + c];
  }

  // ----- suffixes

  /** Between g and f the pattern agrees with its own end, shifted; at g it does not. */
  ghost predicate Window(pat: seq<Byte>, f: int, g: int) {
    && -1 <= g < |pat| && 0 <= f < |pat|
    && (forall x {:trigger pat[x]} :: g < x <= f ==> pat[x] == pat[x + |pat| - 1 - f])
  }

  /** Inside the window a suffix length that stays inside it can be copied. */
  lemma CopiedSuffixLength(pat: seq<Byte>, f: int, g: int, i: nat, k: nat)
    requires Window(pat, f, g) && g < i < f < |pat| - 1
    requires IsSuffixLength(pat, i + |pat| - 1 - f, k) && k < i - g
    ensures IsSuffixLength(pat, i, k)
  {
    var i' := i + |pat| - 1 - f;
    assert pat[i - k] == pat[i' - k];
    forall x | i - k < x <= i
      ensures pat[x] == pat[x + |pat| - 1 - i]
    {
      var y := x + |pat| - 1 - f;
      assert pat[x] == pat[y] == pat[y + |pat| - 1 - i'];
    }
  }

  /** A longer one tells that the window reaches i when it is moved to end there. */
  lemma MovedWindow(pat: seq<Byte>, f: int, g: int, i: nat, k: nat)
    requires Window(pat, f, g) && g < i < f < |pat| - 1
    requires IsSuffixLength(pat, i + |pat| - 1 - f, k) && k >= i - g
    ensures Window(pat, i, g)
  {
    var i' := i + |pat| - 1 - f;
    forall x | g < x <= i
      ensures pat[x] == pat[x + |pat| - 1 - i]
    {
      var y := x + |pat| - 1 - f;
      assert pat[x] == pat[y] == pat[y + |pat| - 1 - i'];
    }
  }

  /** A window that cannot be extended gives the suffix length at its end. */
  lemma WindowIsSuffixLength(pat: seq<Byte>, i: nat, g: int)
    requires Window(pat, i, g) && g <= i
    requires g >= 0 ==> pat[g] != pat[g + |pat| - 1 - i]
    ensures IsSuffixLength(pat, i, i - g)
  {
  }

  lemma EmptyWindow(pat: seq<Byte>, i: nat)
    requires i < |pat|
    ensures Window(pat, i, i)
  {
  }

  lemma WiderWindow(pat: seq<Byte>, i: nat, g: nat)
    requires Window(pat, i, g) && g <= i && pat[g] == pat[g + |pat| - 1 - i]
    ensures Window(pat, i, g - 1)
  {
  }

  lemma WholeSuffixLength(pat: seq<Byte>)
    requires |pat| >= 1
    ensures IsSuffixLength(pat, |pat| - 1, |pat|)
  {
  }

  /** The inner loop of suffixes(): lowers g while the bytes agree. */
  method Extend(pat: array<Byte>, f: int, g0: int) returns (g: int)
    requires 0 <= f < pat.Length && g0 <= f && Window(pat[..], f, g0)
    ensures -1 <= g <= f && g <= g0 && Window(pat[..], f, g)
    ensures IsSuffixLength(pat[..], f, f - g)
  {
    ghost var p := pat[..];
    g := g0;
    while g >= 0 && pat[g] == pat[g + pat.Length - 1 - f]
      invariant -1 <= g <= g0 && Window(p, f, g)
    {
      WiderWindow(p, f, g);
      g := g - 1;
    }
    WindowIsSuffixLength(p, f, g);
  }

  /** One round of suffixes(): the suffix length at i, and the window for the next round. */
  method SuffixStep(pat: array<Byte>, suff: array<int>, i: nat, f0: int, g0: int) returns (k: int, f: int, g: int)
    requires i < pat.Length - 1 && suff.Length == pat.Length && -1 <= g0 < pat.Length
    requires g0 < i ==> i < f0 < pat.Length - 1 && Window(pat[..], f0, g0)
    requires g0 < i ==> suff[i + pat.Length - 1 - f0] >= 0 && IsSuffixLength(pat[..], i + pat.Length - 1 - f0, suff[i + pat.Length - 1 - f0])
    ensures k >= 0 && IsSuffixLength(pat[..], i, k)
    ensures -1 <= g < pat.Length && i <= f < pat.Length - 1
    ensures g < i ==> Window(pat[..], f, g)
  {
    hide Window, IsSuffixLength;
    var m := pat.Length;
    ghost var p := pat[..];
    f, g := f0, g0;
    if i > g && suff[i + m - 1 - f] < i - g {
      CopiedSuffixLength(p, f, g, i, suff[i + m - 1 - f]);
      k := suff[i + m - 1 - f];
    } else {
      if i > g {
        MovedWindow(p, f, g, i, suff[i + m - 1 - f]);
      }
      EmptyWindow(p, i);
      if i < g { g := i; }
      f := i;
      g := Extend(pat, f, g);
      k := f - g;
    }
  }

  method Suffixes(pat: array<Byte>) returns (suff: array<int>)
    requires pat.Length >= 1
    ensures fresh(suff) && suff.Length == pat.Length
    ensures forall i :: 0 <= i < pat.Length ==> suff[i] >= 0 && IsSuffixLength(pat[..], i, suff[i])
  {
    hide Window, IsSuffixLength;
    var m := pat.Length;
    WholeSuffixLength(pat[..]);
    suff := new int[m];
    suff[m - 1] := m;
    var f, g, k := 0, m - 1, 0;
    var i := m - 2;
    while i >= 0
      invariant -1 <= i <= m - 2
      invariant -1 <= g < m && (g < i ==> i < f < m - 1 && Window(pat[..], f, g))
      invariant forall x :: i < x < m ==> suff[x] >= 0 && IsSuffixLength(pat[..], x, suff[x])
    {
      k, f, g := SuffixStep(pat, suff, i, f, g);
      suff[i] := k;
      i := i - 1;
    }
  }

  // ----- preBmGs

  /** Shifting by s lines the pattern up with itself wherever the two overlap. */
  ghost predicate Border(pat: seq<Byte>, s: nat) {
    1 <= s <= |pat| && forall k {:trigger pat[k]} :: s <= k < |pat| ==> pat[k - s] == pat[k]
  }

  ghost predicate IsLeastBorder(pat: seq<Byte>, p: int, g: int) {
    0 <= p < g && Border(pat, g) && forall s: nat :: p < s < g ==> !Border(pat, s)
  }

  /** suff[i] == i + 1 says exactly that m - 1 - i is a border. */
  lemma BorderIsWholePrefix(pat: seq<Byte>, i: nat, k: nat)
    requires i < |pat| - 1 && IsSuffixLength(pat, i, k)
    ensures k == i + 1 <==> Border(pat, |pat| - 1 - i)
  {
    var s := |pat| - 1 - i;
    if k == i + 1 {
      forall y | s <= y < |pat|
        ensures pat[y - s] == pat[y]
      {
        var x := y - s;
        assert pat[x] == pat[x + |pat| - 1 - i];
      }
    } else {
      assert pat[i - k] != pat[i - k + s];
    }
  }

  /** A shift that moves the pattern past the mismatch is good exactly if it is a border. */
  lemma GoodPastMismatch(pat: seq<Byte>, i: nat, s: nat)
    requires i < |pat| && s > i
    ensures GoodShift(pat, i, s) <==> Border(pat, s)
  {
  }

  /** A shift that keeps the mismatch covered is good for exactly one mismatch position. */
  lemma GoodBySuffix(pat: seq<Byte>, i: nat, k: nat, p: nat)
    requires i < |pat| - 1 && IsSuffixLength(pat, i, k) && p < |pat|
    ensures |pat| - 1 - i <= p ==> (GoodShift(pat, p, |pat| - 1 - i) <==> p == |pat| - 1 - k)
    ensures |pat| - 1 - i > p && p == |pat| - 1 - k ==> GoodShift(pat, p, |pat| - 1 - i) && p == |pat| - 2 - i
  {
    var m := |pat|;
    var s := m - 1 - i;
    if s > p && p == m - 1 - k {
      BorderIsWholePrefix(pat, i, k);
      GoodPastMismatch(pat, p, s);
    } else if s <= p {
      if p == m - 1 - k {
        assert pat[i - k] != pat[m - 1 - k];
        forall y | p < y < m && s <= y
          ensures pat[y - s] == pat[y]
        {
          var x := y - s;
          assert pat[x] == pat[x + m - 1 - i];
        }
      } else if m - 1 - k < p {
        assert pat[p - s] == pat[p - s + m - 1 - i];
      } else {
        assert pat[i - k] != pat[m - 1 - k];
      }
    }
  }

  /** First pass done for the borders below m - 1 - i: entries before j hold the least border above
      their position, the others still hold m. */
  ghost predicate BordersFilled(pat: seq<Byte>, gs: seq<int>, i: int, j: int) {
    && |gs| == |pat| && -1 <= i < |pat| && 0 <= j < |pat|
    && (forall p :: 0 <= p < j ==> IsLeastBorder(pat, p, gs[p]))
    && (forall p :: j <= p < |pat| ==> gs[p] == |pat|)
    && (forall s: nat {:trigger Border(pat, s)} :: j < s < |pat| - 1 - i ==> !Border(pat, s))
  }

  /** After the first pass every entry holds the least border above its position. */
  lemma BordersDone(pat: seq<Byte>, gs: seq<int>, j: int)
    requires BordersFilled(pat, gs, -1, j)
    ensures forall p :: 0 <= p < |pat| ==> IsLeastBorder(pat, p, gs[p])
  {
    assert Border(pat, |pat|);
  }

  /** Second pass done for the shifts above m - 1 - i: the entry is the least good shift among those
      and the ones that move the pattern past the mismatch. */
  ghost predicate LeastSoFar(pat: seq<Byte>, i: int, p: nat, g: int)
    requires p < |pat|
  {
    && g > 0 && GoodShift(pat, p, g)
    && forall s: nat {:trigger GoodShift(pat, p, s)} :: s < g && (s > p || s > |pat| - 1 - i) ==> !GoodShift(pat, p, s)
  }

  lemma SecondPassStart(pat: seq<Byte>, p: nat, g: int)
    requires p < |pat| && IsLeastBorder(pat, p, g)
    ensures LeastSoFar(pat, 0, p, g)
  {
    forall s: nat | s > p
      ensures GoodShift(pat, p, s) <==> Border(pat, s)
    {
      GoodPastMismatch(pat, p, s);
    }
  }

  lemma SecondPassStep(pat: seq<Byte>, i: nat, k: nat, p: nat, g: int)
    requires i < |pat| - 1 && IsSuffixLength(pat, i, k) && p < |pat| && LeastSoFar(pat, i, p, g)
    ensures LeastSoFar(pat, i + 1, p, if p == |pat| - 1 - k then |pat| - 1 - i else g)
  {
    hide GoodShift, IsSuffixLength;
    GoodBySuffix(pat, i, k, p);
  }

  lemma SecondPassEnd(pat: seq<Byte>, p: nat, g: int)
    requires p < |pat| && LeastSoFar(pat, |pat| - 1, p, g)
    ensures IsLeastGoodShift(pat, p, g)
  {
  }

  /** First pass of preBmGs(): fills entries with the borders, shortest first. */
  method FillBorders(pat: array<Byte>, suff: array<int>, prep: array<int>)
    requires pat.Length >= 1 && suff.Length == pat.Length && prep.Length == pat.Length + 256 && prep != suff
    requires forall i :: 0 <= i < pat.Length ==> suff[i] >= 0 && IsSuffixLength(pat[..], i, suff[i])
    requires prep as object != pat
    modifies prep
    ensures forall p :: 0 <= p < pat.Length ==> IsLeastBorder(pat[..], p, prep[p])
    ensures prep[pat.Length..] == old(prep[pat.Length..])
  {
    hide IsSuffixLength, Border;
    var m := pat.Length;
    var j := 0;
    for c := 0 to m
      invariant forall p :: 0 <= p < c ==> prep[p] == m
      invariant prep[m..] == old(prep[m..])
    {
      prep[c] := m;
    }
    var i := m - 1;
    NoBorderYet(pat[..], prep[..m]);
    while i >= 0
      invariant BordersFilled(pat[..], prep[..m], i, j)
      invariant prep[m..] == old(prep[m..])
    {
      if suff[i] == i + 1 {
        j := FillOneBorder(pat, prep, i, j, suff[i]);
      } else {
        SkipBorder(pat[..], prep[..m], i, j, suff[i]);
      }
      i := i - 1;
    }
    BordersDone(pat[..], prep[..m], j);
    ghost var gs := prep[..m];
    assert forall p :: 0 <= p < m ==> gs[p] == prep[p];
  }

  /** The inner loop of the first pass: entries from j up to the new border get that border. */
  method FillOneBorder(pat: array<Byte>, prep: array<int>, i: nat, j0: nat, ghost k: nat) returns (j: nat)
    requires prep.Length == pat.Length + 256 && prep as object != pat
    requires BordersFilled(pat[..], prep[..pat.Length], i, j0)
    requires IsSuffixLength(pat[..], i, k) && k == i + 1
    modifies prep
    ensures BordersFilled(pat[..], prep[..pat.Length], i - 1, j)
    ensures prep[pat.Length..] == old(prep[pat.Length..])
  {
    hide IsSuffixLength, Border;
    var m := pat.Length;
    ghost var gs := prep[..m];
    j := j0;
    while j < m - 1 - i
      invariant j0 <= j && (j == j0 || j <= m - 1 - i)
      invariant forall p :: 0 <= p < m ==> prep[p] == if j0 <= p < j then m - 1 - i else gs[p]
      invariant prep[m..] == old(prep[m..])
    {
      if prep[j] == m {
        prep[j] := m - 1 - i;
      }
      j := j + 1;
    }
    NextBorder(pat[..], gs, prep[..m], i, j0, j, k);
  }

  lemma NextBorder(pat: seq<Byte>, gs: seq<int>, gs': seq<int>, i: nat, j0: nat, j: nat, k: nat)
    requires BordersFilled(pat, gs, i, j0) && IsSuffixLength(pat, i, k) && k == i + 1
    requires j == if j0 < |pat| - 1 - i then |pat| - 1 - i else j0
    requires |gs'| == |pat| && forall p :: 0 <= p < |pat| ==> gs'[p] == if j0 <= p < j then |pat| - 1 - i else gs[p]
    ensures BordersFilled(pat, gs', i - 1, j)
  {
    if i < |pat| - 1 {
      BorderIsWholePrefix(pat, i, k);
    }
  }

  lemma NoBorderYet(pat: seq<Byte>, gs: seq<int>)
    requires |pat| >= 1 && |gs| == |pat| && forall p :: 0 <= p < |gs| ==> gs[p] == |pat|
    ensures BordersFilled(pat, gs, |pat| - 1, 0)
  {
  }

  lemma SkipBorder(pat: seq<Byte>, gs: seq<int>, i: nat, j: nat, k: nat)
    requires BordersFilled(pat, gs, i, j) && IsSuffixLength(pat, i, k) && k != i + 1
    ensures BordersFilled(pat, gs, i - 1, j)
  {
    WholeSuffixLength(pat);
    if i < |pat| - 1 {
      BorderIsWholePrefix(pat, i, k);
    }
  }

  /** preBmGs(): both passes. */
  method FillGoodSuffix(pat: array<Byte>, suff: array<int>, prep: array<int>)
    requires pat.Length >= 1 && suff.Length == pat.Length && prep.Length == pat.Length + 256 && prep != suff
    requires forall i :: 0 <= i < pat.Length ==> suff[i] >= 0 && IsSuffixLength(pat[..], i, suff[i])
    requires prep as object != pat
    modifies prep
    ensures IsGoodSuffixTable(pat[..], prep[..pat.Length])
    ensures prep[pat.Length..] == old(prep[pat.Length..])
  {
    hide IsSuffixLength, LeastSoFar, IsLeastBorder, IsLeastGoodShift;
    var m := pat.Length;
    FillBorders(pat, suff, prep);
    forall p | 0 <= p < m
      ensures LeastSoFar(pat[..], 0, p, prep[p])
    {
      SecondPassStart(pat[..], p, prep[p]);
    }
    for i := 0 to m - 1
      invariant forall p :: 0 <= p < m ==> LeastSoFar(pat[..], i, p, prep[p])
      invariant prep[m..] == old(prep[m..])
    {
      ghost var gs := prep[..];
      SuffixBelow(pat[..], i, suff[i]);
      prep[m - 1 - suff[i]] := m - 1 - i;
      forall p | 0 <= p < m
        ensures LeastSoFar(pat[..], i + 1, p, prep[p])
      {
        SecondPassStep(pat[..], i, suff[i], p, gs[p]);
      }
    }
    forall p | 0 <= p < m
      ensures IsLeastGoodShift(pat[..], p, prep[p])
    {
      SecondPassEnd(pat[..], p, prep[p]);
    }
    ghost var g := prep[..m];
    assert forall p :: 0 <= p < m ==> g[p] == prep[p];
  }

  lemma SuffixBelow(pat: seq<Byte>, i: nat, k: nat)
    requires i < |pat| && IsSuffixLength(pat, i, k)
    ensures k <= i + 1
  {
  }

  /** ksBM_prep(). */
  method Prepare(pat: array<Byte>) returns (prep: array<int>)
    requires pat.Length >= 1
    ensures fresh(prep) && IsPrep(pat[..], prep[..])
  {
    var m := pat.Length;
    prep := new int[m + 256];
    FillBadChar(pat, prep);
    ghost var bc := prep[m..];
    var suff := Suffixes(pat);
    FillGoodSuffix(pat, suff, prep);
    assert prep[..][..m] == prep[..m] && prep[..][m..] == bc;
  }

  // ----- the search

  /** At window j the bytes after i match and the bytes at i differ. */
  ghost predicate MismatchAt(str: seq<Byte>, pat: seq<Byte>, j: nat, i: nat) {
    && i < |pat| && j + |pat| <= |str| && pat[i] != str[i + j]
    && forall k :: i < k < |pat| ==> pat[k] == str[k + j]
  }

  /** The distance kmemmem moves the window. */
  function Skip(prep: seq<int>, m: nat, i: nat, c: Byte): int
    requires |prep| == m + 256 && i < m
  {
    var bad := prep[m + c] - m + 1 + i;
    if bad < prep[i] then prep[i] else bad
  }

  lemma OccurrenceBytes(str: seq<Byte>, pat: seq<Byte>, j: nat, k: nat)
    requires OccursAt(str, pat, j) && k < |pat|
    ensures pat[k] == str[k + j]
  {
    assert str[j..j + |pat|][k] == str[k + j];
  }

  /** An occurrence s further on would make s a good shift. */
  lemma OccurrenceIsGoodShift(str: seq<Byte>, pat: seq<Byte>, j: nat, i: nat, s: nat)
    requires MismatchAt(str, pat, j, i) && 0 < s <= |pat| && OccursAt(str, pat, j + s)
    ensures GoodShift(pat, i, s)
  {
    forall k | i < k < |pat| && s <= k
      ensures pat[k - s] == pat[k]
    {
      OccurrenceBytes(str, pat, j + s, k - s);
    }
    if s <= i { OccurrenceBytes(str, pat, j + s, i - s); }
  }

  lemma NoOccurrenceByBadChar(str: seq<Byte>, pat: seq<Byte>, d: int, j: nat, i: nat, s: nat)
    requires MismatchAt(str, pat, j, i) && IsLastDistance(pat, |pat| - 1, str[i + j], d)
    requires 0 < s < d - |pat| + 1 + i
    ensures !OccursAt(str, pat, j + s)
  {
    if OccursAt(str, pat, j + s) {
      OccurrenceBytes(str, pat, j + s, i - s);
    }
  }

  /** The skip advances, and no window it passes over holds an occurrence. */
  lemma SkipIsSafe(str: seq<Byte>, pat: seq<Byte>, prep: seq<int>, j: nat, i: nat)
    requires IsPrep(pat, prep) && MismatchAt(str, pat, j, i)
    ensures Skip(prep, |pat|, i, str[i + j]) >= 1
    ensures forall s :: j <= s < j + Skip(prep, |pat|, i, str[i + j]) ==> !OccursAt(str, pat, s)
  {
    var c := str[i + j];
    assert prep[..|pat|][i] == prep[i] && prep[|pat|..][c] == prep[|pat| + c];
    forall s | j <= s < j + Skip(prep, |pat|, i, c)
      ensures !OccursAt(str, pat, s)
    {
      if s == j {
        if OccursAt(str, pat, j) { OccurrenceBytes(str, pat, j, i); }
      } else if s - j < prep[i] {
        if OccursAt(str, pat, s) { OccurrenceIsGoodShift(str, pat, j, i, s - j); }
      } else {
        NoOccurrenceByBadChar(str, pat, prep[|pat| + c], j, i, s - j);
      }
    }
  }

  /** Compares the pattern with window j from the right: the last mismatch, or -1. */
  method LastMismatch(str: array<Byte>, pat: array<Byte>, j: nat) returns (i: int)
    requires j + pat.Length <= str.Length
    ensures -1 <= i < pat.Length
    ensures i >= 0 ==> MismatchAt(str[..], pat[..], j, i)
    ensures i < 0 ==> OccursAt(str[..], pat[..], j)
  {
    i := pat.Length - 1;
    while i >= 0 && pat[i] == str[i + j]
      invariant -1 <= i < pat.Length
      invariant forall k :: i < k < pat.Length ==> pat[k] == str[k + j]
    {
      i := i - 1;
    }
  }

  /** kmemmem(): the first occurrence of pat in str, or nothing exactly when there is none. The
      tables may be handed in from an earlier search for the same pattern. */
  method Find(str: array<Byte>, pat: array<Byte>, cache: array?<int>) returns (r: Option<nat>, prep: array<int>)
    requires pat.Length >= 1
    requires cache != null ==> IsPrep(pat[..], cache[..])
    ensures IsPrep(pat[..], prep[..]) && (cache != null ==> prep == cache)
    ensures r.Some? ==> OccursAt(str[..], pat[..], r.value) && forall s: nat :: s < r.value ==> !OccursAt(str[..], pat[..], s)
    ensures r.None? ==> forall s: nat :: !OccursAt(str[..], pat[..], s)
  {
    if cache == null {
      prep := Prepare(pat);
    } else {
      prep := cache;
    }
    hide IsPrep, OccursAt, MismatchAt;
    var m := pat.Length;
    PrepLength(pat[..], prep[..]);
    var j := 0;
    while j <= str.Length - m
      invariant 0 <= j && IsPrep(pat[..], prep[..])
      invariant forall s: nat :: s < j ==> !OccursAt(str[..], pat[..], s)
    {
      var i := LastMismatch(str, pat, j);
      if i >= 0 {
        SkipIsSafe(str[..], pat[..], prep[..], j, i);
        j := j + Skip(prep[..], m, i, str[i + j]);
      } else {
        return Some(j), prep;
      }
    }
    r := None;
    NoRoom(str[..], pat[..]);
  }

  lemma PrepLength(pat: seq<Byte>, prep: seq<int>)
    requires IsPrep(pat, prep)
    ensures |prep| == |pat| + 256
  {
  }

  lemma NoRoom(str: seq<Byte>, pat: seq<Byte>)
    ensures forall s: nat :: s > |str| - |pat| ==> !OccursAt(str, pat, s)
  {
  }
}
