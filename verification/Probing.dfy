/** Triangular probing on power-of-two capacities, the load bound and the size rounding of khash. */
module Probing {
  import opened PowersOfTwo

  /** Bucket inspected after s increments: the home bucket of hash value h, then
      i = (i + (++step)) & mask. */
  function Probe(h: nat, s: nat, n: nat): (i: nat)
    requires n > 0
    ensures i < n
  {
    if s == 0 then Mask(h, n) else Mask(Probe(h, s - 1, n) + s, n)
  }

  /** One increment of the probing loops. */
  lemma ProbeStep(h: nat, s: nat, n: nat)
    requires n > 0
    ensures Probe(h, s + 1, n) == Mask(Probe(h, s, n) + (s + 1), n)
  {
  }

  lemma {:induction false} ProbeClosed(h: nat, s: nat, n: nat)
    requires n > 0
    ensures Probe(h, s, n) == Mask(h + Triangle(s), n)
  {
    if s > 0 {
      ProbeClosed(h, s - 1, n);
      MaskAdd(h + Triangle(s - 1), s, n);
      assert h + Triangle(s) == h + Triangle(s - 1) + s;
    }
  }

  /** After s increments the probe is s * (s + 1) / 2 buckets behind the home bucket, round the table. */
  lemma ProbeIs(h: nat, s: nat, n: nat) returns (q: nat)
    requires n > 0
    ensures 2 * h + s * (s + 1) == 2 * (n * q + Probe(h, s, n))
  {
    ProbeClosed(h, s, n);
    TriangleClosed(s);
    q := MaskQuotient(h + Triangle(s), n);
  }

  /** The first n probes hit n different buckets. */
  lemma ProbesDistinct(h: nat, s: nat, t: nat, n: nat)
    requires IsPow2(n) && s < t < n
    ensures Probe(h, s, n) != Probe(h, t, n)
  {
    if Probe(h, s, n) == Probe(h, t, n) {
      ProbeClosed(h, s, n);
      ProbeClosed(h, t, n);
      TrianglesDiffer(s, t, h, n);
    }
  }

  /** Every bucket of a power-of-two table lies on every probe path, within the first n probes. */
  lemma ProbesCover(h: nat, n: nat, i: nat) returns (s: nat)
    requires IsPow2(n) && i < n
    ensures s < n && Probe(h, s, n) == i
  {
    var p: seq<nat> := seq(n, s requires 0 <= s < n => Probe(h, s, n));
    forall s, t | 0 <= s < t < n
      ensures p[s] != p[t]
    {
      ProbesDistinct(h, s, t, n);
    }
    Pigeonhole(p, i);
    s :| 0 <= s < n && p[s] == i;
  }

  /** The probing loops cannot come back to their home bucket before every bucket was inspected. */
  lemma NoEarlyReturn(h: nat, s: nat, n: nat)
    requires IsPow2(n) && 0 < s && Probe(h, s, n) == Probe(h, 0, n)
    ensures s >= n
  {
    if s < n {
      ProbesDistinct(h, 0, s, n);
    }
  }

  // ----- capacities

  const MAX_BUCKETS: nat := 0x8000_0000

  /** upper_bound of a table with n buckets: n * 0.77 + 0.5, truncated. */
  function LoadBound(n: nat): nat {
    (77 * n + 50) / 100
  }

  lemma LoadBoundLeavesRoom(n: nat)
    requires n >= 4
    ensures 0 < LoadBound(n) < n
    ensures n <= 2 * LoadBound(n)
    ensures -50 <= 77 * n - 100 * LoadBound(n) < 50
  {
  }

  /** kroundup32 on the 32-bit range: the least power of two at least x, wrapping to 0 above 2^31. */
  function RoundUp32(x: nat): (r: nat)
    requires x < 0x1_0000_0000
  {
    if x == 0 || x > MAX_BUCKETS then 0 else LeastPow2(x, 1)
  }

  function LeastPow2(x: nat, p: nat): nat
    requires 0 < p
    decreases if x > p then x - p else 0
  {
    if x <= p then p else LeastPow2(x, 2 * p)
  }

  lemma {:induction false} LeastPow2Is(x: nat, p: nat)
    requires IsPow2(p)
    ensures IsPow2(LeastPow2(x, p)) && LeastPow2(x, p) >= x && LeastPow2(x, p) >= p
    ensures forall q: nat :: IsPow2(q) && q >= x && q >= p ==> LeastPow2(x, p) <= q
    decreases if x > p then x - p else 0
  {
    if x > p {
      TwicePow2(p);
      LeastPow2Is(x, 2 * p);
      forall q: nat | IsPow2(q) && q >= x && q >= p
        ensures q >= 2 * p
      {
        NoPow2Between(p, q);
      }
    }
  }

  lemma {:induction false} NoPow2Between(p: nat, q: nat)
    requires IsPow2(p) && IsPow2(q) && p < q
    ensures 2 * p <= q
  {
    if p > 1 {
      NoPow2Between(p / 2, q / 2);
    }
  }

  /** Capacity kh_resize works with: the request rounded up, and never below 4. */
  function NewCapacity(request: nat): nat
    requires request < 0x1_0000_0000
  {
    var r := RoundUp32(request);
    if r < 4 then 4 else r
  }

  lemma Times16(p: nat)
    requires IsPow2(p)
    ensures IsPow2(16 * p)
  {
    TwicePow2(p);
    TwicePow2(2 * p);
    TwicePow2(4 * p);
    TwicePow2(8 * p);
  }

  lemma Pow2Steps()
    ensures IsPow2(4) && IsPow2(MAX_BUCKETS)
  {
    Times16(8);
    Times16(0x80);
    Times16(0x800);
    Times16(0x8000);
    Times16(0x8_0000);
    Times16(0x80_0000);
    Times16(0x800_0000);
  }

  lemma NewCapacityIs(request: nat)
    requires request < 0x1_0000_0000
    ensures IsPow2(NewCapacity(request)) && 4 <= NewCapacity(request) <= MAX_BUCKETS
    ensures request <= MAX_BUCKETS ==> NewCapacity(request) >= request
    ensures request <= MAX_BUCKETS ==> forall q: nat :: IsPow2(q) && q >= request && q >= 4 ==> NewCapacity(request) <= q
    ensures request > MAX_BUCKETS ==> NewCapacity(request) == 4
  {
    Pow2Steps();
    if 0 < request <= MAX_BUCKETS {
      LeastPow2Is(request, 1);
    }
  }

  /** A power of two from 16 on fills whole flag words. */
  lemma Pow2Words(n: nat)
    requires IsPow2(n)
    ensures n < 16 || n % 16 == 0
  {
    if n >= 16 {
      assert IsPow2(n / 2);
      assert IsPow2(n / 4);
      assert IsPow2(n / 8);
      assert IsPow2(n / 16);
    }
  }

  /** The two automatic requests of kh_put: n-1 keeps the capacity, n+1 doubles it. */
  lemma PutCapacities(n: nat)
    requires IsPow2(n) && 4 <= n <= MAX_BUCKETS
    ensures NewCapacity(n - 1) == n
    ensures n < MAX_BUCKETS ==> NewCapacity(n + 1) == 2 * n
  {
    Pow2Steps();
    LeastPow2Is(n - 1, 1);
    LeastPow2Is(n + 1, 1);
    var r := LeastPow2(n - 1, 1);
    if r < n { NoPow2Between(r, n); }
    var t := LeastPow2(n + 1, 1);
    NoPow2Between(n, t);
    TwicePow2(n);
    if n < MAX_BUCKETS { NoPow2Between(n, MAX_BUCKETS); }
  }
}
