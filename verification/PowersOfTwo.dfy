/** Arithmetic of triangular numbers modulo powers of two: two of the first n triangular numbers never leave
    the same remainder, because a power of two that divides a product with one odd factor divides the other
    factor; and n different numbers below n are all of them. */
module PowersOfTwo {

  ghost predicate IsPow2(n: nat) {
    n == 1 || (n % 2 == 0 && n > 0 && IsPow2(n / 2))
  }

  /** The sum 1 + 2 + ... + s of the first s probe increments. */
  function Triangle(s: nat): nat {
    if s == 0 then 0 else Triangle(s - 1) + s
  }

  /** a & (n - 1) for a power of two n: the remainder of a, by repeated subtraction. */
  function Mask(a: nat, n: nat): (r: nat)
    requires n > 0
    ensures r < n
    decreases a
  {
    if a < n then a else Mask(a - n, n)
  }

  lemma {:induction false} MaskAdd(a: nat, b: nat, n: nat)
    requires n > 0
    ensures Mask(a + b, n) == Mask(Mask(a, n) + b, n)
    decreases a
  {
    if a >= n {
      MaskAdd(a - n, b, n);
    }
  }

  lemma {:induction false} MaskQuotient(a: nat, n: nat) returns (q: nat)
    requires n > 0
    ensures a == n * q + Mask(a, n)
    decreases a
  {
    if a < n {
      q := 0;
    } else {
      var p := MaskQuotient(a - n, n);
      q := p + 1;
      assert n * q == n * p + n;
    }
  }

  lemma {:induction false} TriangleClosed(s: nat)
    ensures 2 * Triangle(s) == s * (s + 1)
  {
    if s > 0 {
      TriangleClosed(s - 1);
      assert s * (s + 1) == (s - 1) * s + 2 * s;
    }
  }

  /** A power of two that divides a product with one odd factor divides the other factor. */
  lemma {:induction false} OddFactor(a: nat, b: nat, p: nat, c: nat)
    requires IsPow2(p) && a % 2 == 1 && a * b == p * c
    ensures exists d: nat :: b == p * d
    decreases p
  {
    if p == 1 {
      assert b == p * b;
    } else {
      var h := p / 2;
      assert p * c == 2 * (h * c);
      EvenProduct(a, b, h * c);
      var b' := b / 2;
      assert a * b == 2 * (a * b') by { assert b == 2 * b'; }
      OddFactor(a, b', h, c);
      var d: nat :| b' == h * d;
      assert b == p * d by { assert p * d == 2 * (h * d); }
    }
  }

  lemma EvenProduct(a: nat, b: nat, x: nat)
    requires a % 2 == 1 && a * b == 2 * x
    ensures b % 2 == 0
  {
    var k := a / 2;
    assert a == 2 * k + 1;
    assert a * b == 2 * (k * b) + b by { Distribute(k, b); }
  }

  lemma Distribute(k: nat, b: nat)
    ensures (2 * k + 1) * b == 2 * (k * b) + b
  {
  }

  lemma TrianglesDiffer(s: nat, t: nat, h: nat, n: nat)
    requires IsPow2(n) && s < t < n
    ensures Mask(h + Triangle(s), n) != Mask(h + Triangle(t), n)
  {
    TriangleGrows(s, t);
    if Mask(h + Triangle(s), n) == Mask(h + Triangle(t), n) {
      var c := EqualResidues(h + Triangle(s), h + Triangle(t), n);
      GapBetweenTriangles(s, t, n, c);
    }
  }

  lemma {:induction false} TriangleGrows(s: nat, t: nat)
    requires s < t
    ensures Triangle(s) < Triangle(t)
    decreases t
  {
    if s < t - 1 { TriangleGrows(s, t - 1); }
  }

  lemma GapBetweenTriangles(s: nat, t: nat, n: nat, c: nat)
    requires IsPow2(n) && s < t < n && Triangle(s) < Triangle(t)
    ensures Triangle(t) - Triangle(s) != n * c
  {
    TriangleGap(s, t);
    TwicePow2(n);
    HalfProduct(t - s, t + s + 1, Triangle(t) - Triangle(s), n, c);
  }

  lemma HalfProduct(a: nat, b: nat, d: nat, n: nat, c: nat)
    requires IsPow2(2 * n) && 0 < a < n && 0 < b < 2 * n && (a + b) % 2 == 1
    requires a * b == 2 * d
    ensures d != n * c
  {
    hide IsPow2;
    GapNotMultiple(a, b, 2 * n, c);
    Doubled(n, c);
  }

  lemma TriangleGap(s: nat, t: nat)
    requires s < t
    ensures (t - s) * (t + s + 1) == 2 * (Triangle(t) - Triangle(s))
  {
    TriangleClosed(s);
    TriangleClosed(t);
    assert (t - s) * (t + s + 1) == t * (t + 1) - s * (s + 1);
  }

  lemma Doubled(n: nat, c: nat)
    ensures 2 * (n * c) == (2 * n) * c
  {
  }

  lemma EqualResidues(x: nat, y: nat, n: nat) returns (c: nat)
    requires n > 0 && x < y && Mask(x, n) == Mask(y, n)
    ensures y - x == n * c
  {
    var p := MaskQuotient(x, n);
    var q := MaskQuotient(y, n);
    if q <= p { MulMonotone(n, q, p); }
    c := q - p;
    MulMinus(n, q, p);
  }

  lemma MulMinus(n: int, a: int, b: int)
    ensures n * (a - b) == n * a - n * b
  {
  }

  lemma MulMonotone(n: nat, a: nat, b: nat)
    requires a <= b
    ensures n * a <= n * b
  {
  }

  lemma GapNotMultiple(a: nat, b: nat, p: nat, c: nat)
    requires IsPow2(p) && 0 < a < p && 0 < b < p && (a % 2 == 1 || b % 2 == 1)
    ensures a * b != p * c
  {
    if a % 2 == 1 {
      OddFactorBound(a, b, p, c);
    } else {
      Commute(a, b);
      OddFactorBound(b, a, p, c);
    }
  }

  lemma TwicePow2(n: nat)
    requires IsPow2(n)
    ensures IsPow2(2 * n)
  {
    assert (2 * n) / 2 == n;
  }

  lemma Commute(a: nat, b: nat)
    ensures a * b == b * a
  {
  }

  lemma OddFactorBound(a: nat, b: nat, p: nat, c: nat)
    requires IsPow2(p) && a % 2 == 1 && 0 < b < p
    ensures a * b != p * c
  {
    if a * b == p * c {
      OddFactor(a, b, p, c);
      var d: nat :| b == p * d;
      MultipleAtLeast(b, p, d);
    }
  }

  lemma MultipleAtLeast(x: nat, p: nat, d: nat)
    requires x == p * d && x > 0
    ensures x >= p
  {
    if d >= 1 {
      assert p * d == p + p * (d - 1);
    }
  }

  ghost function Range(p: seq<nat>): (r: set<nat>) {
    set i | i in p
  }

  lemma {:induction false} DistinctSize(p: seq<nat>)
    requires forall s, t :: 0 <= s < t < |p| ==> p[s] != p[t]
    ensures |Range(p)| == |p|
  {
    if p != [] {
      var k := |p| - 1;
      DistinctSize(p[..k]);
      assert Range(p) == Range(p[..k]) + {p[k]};
      assert p[k] !in p[..k];
    }
  }

  ghost function Below(n: nat): (r: set<nat>)
    ensures |r| == n && forall i: nat :: i in r <==> i < n
  {
    if n == 0 then {} else Below(n - 1) + {n - 1}
  }

  lemma {:induction false} SubsetSize<T>(a: set<T>, b: set<T>)
    requires a <= b
    ensures |a| <= |b|
    ensures |a| == |b| ==> a == b
    decreases a
  {
    if a != {} {
      var x :| x in a;
      SubsetSize(a - {x}, b - {x});
      assert a == (a - {x}) + {x} && b == (b - {x}) + {x};
    }
  }

  /** n distinct numbers below n are all the numbers below n. */
  lemma Pigeonhole(p: seq<nat>, i: nat)
    requires forall s, t :: 0 <= s < t < |p| ==> p[s] != p[t]
    requires forall s :: 0 <= s < |p| ==> p[s] < |p|
    requires i < |p|
    ensures i in p
  {
    DistinctSize(p);
    SubsetSize(Range(p), Below(|p|));
    assert i in Below(|p|);
  }
}
