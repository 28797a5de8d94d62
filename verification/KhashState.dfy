/** The table invariant of khash on plain sequences, and the stores that change it; `pos` maps keys to buckets. */
module KhashState {
  import opened KhashFlags
  import opened PowersOfTwo
  import opened Probing

  lemma EnoughWords(n: nat)
    requires IsPow2(n)
    ensures n <= 16 * FSize(n)
  {
    Pow2Words(n);
  }

  // ----- counting buckets

  function CountLive(st: seq<Status>): nat {
    if st == [] then 0 else CountLive(st[..|st| - 1]) + (if st[|st| - 1] == Live then 1 else 0)
  }

  function CountUsed(st: seq<Status>): nat {
    if st == [] then 0 else CountUsed(st[..|st| - 1]) + (if st[|st| - 1] != Empty then 1 else 0)
  }

  lemma {:induction false} CountStore(st: seq<Status>, i: nat, s: Status)
    requires i < |st|
    ensures CountLive(st[i := s]) == CountLive(st) - (if st[i] == Live then 1 else 0) + (if s == Live then 1 else 0)
    ensures CountUsed(st[i := s]) == CountUsed(st) - (if st[i] != Empty then 1 else 0) + (if s != Empty then 1 else 0)
  {
    var k := |st| - 1;
    var t := st[i := s];
    if i == k {
      assert t[..k] == st[..k];
    } else {
      assert t[..k] == st[..k][i := s];
      CountStore(st[..k], i, s);
    }
  }

  lemma {:induction false} SomeEmpty(st: seq<Status>) returns (e: nat)
    requires CountUsed(st) < |st|
    ensures e < |st| && st[e] == Empty
  {
    if st[|st| - 1] == Empty {
      e := |st| - 1;
    } else {
      e := SomeEmpty(st[..|st| - 1]);
    }
  }

  lemma {:induction false} AllEmptyCounts(st: seq<Status>)
    requires forall i :: 0 <= i < |st| ==> st[i] == Empty
    ensures CountLive(st) == 0 && CountUsed(st) == 0
  {
    if st != [] { AllEmptyCounts(st[..|st| - 1]); }
  }

  lemma {:induction false} NoLiveCount(st: seq<Status>)
    requires forall i :: 0 <= i < |st| ==> st[i] != Live
    ensures CountLive(st) == 0
  {
    if st != [] { NoLiveCount(st[..|st| - 1]); }
  }

  lemma {:induction false} OnlyLiveCount(st: seq<Status>)
    requires forall i :: 0 <= i < |st| ==> st[i] != Deleted
    ensures CountLive(st) == CountUsed(st)
  {
    if st != [] { OnlyLiveCount(st[..|st| - 1]); }
  }

  lemma {:induction false} LiveAtMostUsed(st: seq<Status>)
    ensures CountLive(st) <= CountUsed(st) <= |st|
  {
    if st != [] { LiveAtMostUsed(st[..|st| - 1]); }
  }

  // ----- probe paths

  /** Bucket i is the s-th bucket of the probe path of hash value h, and no earlier one is empty. */
  ghost predicate OnPath(st: seq<Status>, h: nat, s: nat, i: nat) {
    && |st| > 0
    && Probe(h, s, |st|) == i
    && forall t: nat :: t < s ==> st[Probe(h, t, |st|)] != Empty
  }

  ghost predicate Reachable(st: seq<Status>, h: nat, i: nat) {
    exists s: nat :: OnPath(st, h, s, i)
  }

  lemma PathStart(st: seq<Status>, h: nat)
    requires |st| > 0
    ensures OnPath(st, h, 0, Mask(h, |st|))
  {
  }

  /** One increment of a probing loop past a bucket that is not empty. */
  lemma PathAdvance(st: seq<Status>, h: nat, s: nat, i: nat)
    requires OnPath(st, h, s, i) && i < |st| && st[i] != Empty
    ensures OnPath(st, h, s + 1, Mask(i + (s + 1), |st|))
  {
    ProbeStep(h, s, |st|);
  }

  /** Filling buckets, and marking them deleted, keeps every bucket reachable that was. */
  lemma ReachableKept(st: seq<Status>, st': seq<Status>, h: nat, i: nat)
    requires |st'| == |st| && Reachable(st, h, i)
    requires forall j :: 0 <= j < |st| && st[j] != Empty ==> st'[j] != Empty
    ensures Reachable(st', h, i)
  {
    var s: nat :| OnPath(st, h, s, i);
    assert OnPath(st', h, s, i);
  }

  /** A walk along the probe path that has met no empty bucket is still short of bucket e. */
  lemma PathBounded(st: seq<Status>, h: nat, s: nat, i: nat, e: nat)
    requires OnPath(st, h, s, i) && st[Probe(h, e, |st|)] == Empty
    ensures s <= e && (i < |st| && st[i] != Empty ==> s < e)
  {
  }

  /** A probe path meets an empty bucket within its first |st| buckets. */
  lemma PathMeetsEmpty(st: seq<Status>, h: nat) returns (e: nat)
    requires IsPow2(|st|) && CountUsed(st) < |st|
    ensures e < |st| && st[Probe(h, e, |st|)] == Empty
  {
    var b := SomeEmpty(st);
    e := ProbesCover(h, |st|, b);
  }

  /** Up to that point it does not come back to its home bucket. */
  lemma NoReturn(st: seq<Status>, h: nat, s: nat, i: nat)
    requires IsPow2(|st|) && OnPath(st, h, s, i) && 0 < s < |st|
    ensures i != Mask(h, |st|)
  {
    ProbesDistinct(h, 0, s, |st|);
  }

  // ----- the table invariant

  /** Each key is in one live bucket, each live bucket holds the key recorded for it, and every
      stored key is reachable on its probe path. */
  ghost predicate Table<K>(hash: K -> nat, st: seq<Status>, keys: seq<K>, pos: map<K, nat>) {
    && |keys| == |st|
    && (forall k :: k in pos ==> pos[k] < |st| && st[pos[k]] == Live && keys[pos[k]] == k)
    && (forall i {:trigger st[i]} {:trigger keys[i]} :: 0 <= i < |st| && st[i] == Live ==> keys[i] in pos && pos[keys[i]] == i)
    && (forall k :: k in pos ==> Reachable(st, hash(k), pos[k]))
  }

  /** Bucket i does not hold `key`. */
  predicate Passed<K(==)>(st: seq<Status>, keys: seq<K>, key: K, i: nat)
    requires i < |st| == |keys|
  {
    st[i] == Deleted || (st[i] == Live && keys[i] != key)
  }

  /** The search for `key` stands at bucket i, and nothing on the way there held `key` or was empty. */
  ghost predicate Seeking<K>(hash: K -> nat, st: seq<Status>, keys: seq<K>, key: K, s: nat, i: nat)
    requires |st| == |keys|
  {
    && OnPath(st, hash(key), s, i)
    && forall t: nat :: t < s ==> Passed(st, keys, key, Probe(hash(key), t, |st|))
  }

  lemma SeekStart<K>(hash: K -> nat, st: seq<Status>, keys: seq<K>, key: K)
    requires |st| == |keys| > 0
    ensures Seeking(hash, st, keys, key, 0, Mask(hash(key), |st|))
  {
  }

  lemma SeekAdvance<K>(hash: K -> nat, st: seq<Status>, keys: seq<K>, key: K, s: nat, i: nat)
    requires |st| == |keys|
    requires Seeking(hash, st, keys, key, s, i) && i < |st| && Passed(st, keys, key, i)
    ensures Seeking(hash, st, keys, key, s + 1, Mask(i + (s + 1), |st|))
  {
    PathAdvance(st, hash(key), s, i);
  }

  /** Of the buckets before place e of the probe path, the one at place t is the last deleted one. */
  ghost predicate LastDeleted(st: seq<Status>, h: nat, t: nat, e: nat) {
    && |st| > 0 && t < e && st[Probe(h, t, |st|)] == Deleted
    && forall u: nat :: t < u < e ==> st[Probe(h, u, |st|)] != Deleted
  }

  /** site is the last deleted bucket before place e, or |st| if there is none. */
  ghost predicate SiteIs(st: seq<Status>, h: nat, e: nat, site: nat) {
    && |st| > 0
    && if site == |st| then forall u: nat :: u < e ==> st[Probe(h, u, |st|)] != Deleted
       else exists t: nat :: LastDeleted(st, h, t, e) && site == Probe(h, t, |st|)
  }

  lemma SiteStart(st: seq<Status>, h: nat)
    requires |st| > 0
    ensures SiteIs(st, h, 0, |st|)
  {
  }

  lemma SiteStep(st: seq<Status>, h: nat, e: nat, i: nat, site: nat)
    requires SiteIs(st, h, e, site) && OnPath(st, h, e, i)
    ensures i < |st| && SiteIs(st, h, e + 1, if st[i] == Deleted then i else site)
  {
    if st[i] == Deleted {
      assert LastDeleted(st, h, e, e + 1);
    } else if site != |st| {
      var t: nat :| LastDeleted(st, h, t, e) && site == Probe(h, t, |st|);
      assert LastDeleted(st, h, t, e + 1);
    }
  }

  /** Place e is the first empty one of the probe path. */
  ghost predicate FirstEmpty(st: seq<Status>, h: nat, e: nat) {
    |st| > 0 && OnPath(st, h, e, Probe(h, e, |st|)) && st[Probe(h, e, |st|)] == Empty
  }

  /** The bucket for a key that is not stored: the last deleted one before the first empty one of the probe path,
      and that one if there is none. */
  ghost predicate FreeSlot(st: seq<Status>, h: nat, x: nat) {
    exists e: nat :: FirstEmpty(st, h, e) && SlotBefore(st, h, e, x)
  }

  ghost predicate SlotBefore(st: seq<Status>, h: nat, e: nat, x: nat)
    requires |st| > 0
  {
    if exists t: nat :: LastDeleted(st, h, t, e) then exists t: nat :: LastDeleted(st, h, t, e) && x == Probe(h, t, |st|)
    else x == Probe(h, e, |st|)
  }

  lemma SlotFound(st: seq<Status>, h: nat, e: nat, i: nat, site: nat)
    requires OnPath(st, h, e, i) && st[i] == Empty && SiteIs(st, h, e, site)
    ensures FreeSlot(st, h, if site != |st| then site else i)
  {
    assert FirstEmpty(st, h, e) && SlotBefore(st, h, e, if site != |st| then site else i);
  }

  /** A deleted bucket at place t of the probe path, before the first empty one. */
  ghost predicate DeletedOnPath(st: seq<Status>, h: nat, t: nat) {
    |st| > 0 && OnPath(st, h, t, Probe(h, t, |st|)) && st[Probe(h, t, |st|)] == Deleted
  }

  lemma {:induction false} LastExists(st: seq<Status>, h: nat, t: nat, e: nat) returns (u: nat)
    requires |st| > 0 && t < e && st[Probe(h, t, |st|)] == Deleted
    ensures LastDeleted(st, h, u, e)
    decreases e
  {
    if st[Probe(h, e - 1, |st|)] == Deleted {
      u := e - 1;
    } else {
      u := LastExists(st, h, t, e - 1);
    }
  }

  lemma SlotIs(st: seq<Status>, h: nat, x: nat)
    requires FreeSlot(st, h, x)
    ensures x < |st| && st[x] != Live && Reachable(st, h, x)
    ensures st[x] == Deleted <==> exists t: nat :: DeletedOnPath(st, h, t)
  {
    var e: nat :| FirstEmpty(st, h, e) && SlotBefore(st, h, e, x);
    if t: nat :| DeletedOnPath(st, h, t) {
      PathBounded(st, h, t, Probe(h, t, |st|), e);
      var u := LastExists(st, h, t, e);
    }
    if exists t: nat :: LastDeleted(st, h, t, e) {
      var t: nat :| LastDeleted(st, h, t, e) && x == Probe(h, t, |st|);
      assert OnPath(st, h, t, x) && DeletedOnPath(st, h, t);
    }
  }

  lemma {:induction false} NoneDeleted(st: seq<Status>)
    requires CountLive(st) == CountUsed(st)
    ensures forall i :: 0 <= i < |st| ==> st[i] != Deleted
  {
    if st != [] {
      LiveAtMostUsed(st[..|st| - 1]);
      NoneDeleted(st[..|st| - 1]);
    }
  }

  /** Where the search stops decides whether `key` is stored. */
  lemma SeekStop<K>(hash: K -> nat, st: seq<Status>, keys: seq<K>, pos: map<K, nat>, key: K, s: nat, i: nat)
    requires Table(hash, st, keys, pos)
    requires Seeking(hash, st, keys, key, s, i) && i < |st| && !Passed(st, keys, key, i)
    ensures st[i] == Empty ==> key !in pos
    ensures st[i] == Live ==> key in pos && pos[key] == i
  {
    if st[i] == Empty && key in pos {
      var t: nat :| OnPath(st, hash(key), t, pos[key]);
      assert !Passed(st, keys, key, Probe(hash(key), t, |st|));
    }
  }

  /** Storing an absent key into a reachable bucket that is not live. */
  lemma StoreKey<K>(hash: K -> nat, st: seq<Status>, keys: seq<K>, pos: map<K, nat>, key: K, x: nat)
    requires Table(hash, st, keys, pos)
    requires x < |st| && st[x] != Live && key !in pos && Reachable(st, hash(key), x)
    ensures Table(hash, st[x := Live], keys[x := key], pos[key := x])
  {
    var st', pos' := st[x := Live], pos[key := x];
    forall k | k in pos'
      ensures Reachable(st', hash(k), pos'[k])
    {
      ReachableKept(st, st', hash(k), pos'[k]);
    }
  }

  /** Marking the bucket of a key deleted removes that key and nothing else. */
  lemma RemoveKey<K>(hash: K -> nat, st: seq<Status>, keys: seq<K>, pos: map<K, nat>, x: nat)
    requires Table(hash, st, keys, pos)
    requires x < |st| && st[x] == Live
    ensures Table(hash, st[x := Deleted], keys, pos - {keys[x]})
    ensures |pos - {keys[x]}| == |pos| - 1
  {
    var st', pos' := st[x := Deleted], pos - {keys[x]};
    forall k | k in pos'
      ensures Reachable(st', hash(k), pos'[k])
    {
      ReachableKept(st, st', hash(k), pos'[k]);
    }
    assert pos == pos'[keys[x] := pos[keys[x]]];
  }

  // ----- the whole invariant

  /** The table invariant together with the four counters of the header. */
  ghost predicate Consistent<K>(hash: K -> nat, size: nat, used: nat, bound: nat, st: seq<Status>, keys: seq<K>, pos: map<K, nat>) {
    && (st == [] || (IsPow2(|st|) && 4 <= |st| <= MAX_BUCKETS))
    && Table(hash, st, keys, pos)
    && size == |pos| == CountLive(st)
    && used == CountUsed(st)
    && bound == LoadBound(|st|)
    && used <= bound
  }

  /** The finite map a table stands for. */
  ghost function Bindings<K, V>(pos: map<K, nat>, vals: seq<V>): (m: map<K, V>)
    requires forall k :: k in pos ==> pos[k] < |vals|
    ensures m.Keys == pos.Keys
  {
    map k | k in pos :: vals[pos[k]]
  }

  lemma StoredKey<K>(hash: K -> nat, size: nat, used: nat, bound: nat, st: seq<Status>, keys: seq<K>, pos: map<K, nat>, key: K)
    requires Consistent(hash, size, used, bound, st, keys, pos)
    ensures key in pos ==> pos[key] < |st| && st[pos[key]] == Live && keys[pos[key]] == key
    ensures forall k :: k in pos ==> pos[k] < |st|
  {
  }

  lemma LiveBucket<K, V>(hash: K -> nat, size: nat, used: nat, bound: nat, st: seq<Status>, keys: seq<K>, pos: map<K, nat>, vals: seq<V>, x: nat, v: V)
    requires Consistent(hash, size, used, bound, st, keys, pos) && |vals| == |st|
    requires x < |st| && st[x] == Live
    ensures forall k :: k in pos ==> pos[k] < |vals|
    ensures Bindings(pos, vals[x := v]) == Bindings(pos, vals)[keys[x] := v]
  {
  }

  /** What the probing loops need of a table with a free bucket below its load bound. */
  lemma RoomBound<K>(hash: K -> nat, size: nat, used: nat, bound: nat, st: seq<Status>, keys: seq<K>, pos: map<K, nat>)
    requires Consistent(hash, size, used, bound, st, keys, pos) && used < bound
    ensures IsPow2(|st|) && CountUsed(st) < |st| && Table(hash, st, keys, pos)
  {
    LoadBoundLeavesRoom(|st|);
  }

  lemma BindingsStore<K, V>(pos: map<K, nat>, vals: seq<V>, key: K, x: nat)
    requires forall k :: k in pos ==> pos[k] < |vals|
    requires x < |vals|
    ensures Bindings(pos[key := x], vals) == Bindings(pos, vals)[key := vals[x]]
  {
  }

  lemma BindingsRemove<K, V>(pos: map<K, nat>, vals: seq<V>, key: K)
    requires forall k :: k in pos ==> pos[k] < |vals|
    ensures Bindings(pos - {key}, vals) == Bindings(pos, vals) - {key}
  {
  }

  lemma DeleteConsistent<K>(hash: K -> nat, size: nat, used: nat, bound: nat, st: seq<Status>, keys: seq<K>, pos: map<K, nat>, x: nat)
    requires Consistent(hash, size, used, bound, st, keys, pos)
    requires x < |st| && st[x] == Live
    ensures size > 0 && Consistent(hash, size - 1, used, bound, st[x := Deleted], keys, pos - {keys[x]})
    ensures keys[x] in pos
  {
    RemoveKey(hash, st, keys, pos, x);
    CountStore(st, x, Deleted);
  }

  lemma InsertConsistent<K>(hash: K -> nat, size: nat, used: nat, bound: nat, st: seq<Status>, keys: seq<K>, pos: map<K, nat>, key: K, x: nat)
    requires Consistent(hash, size, used, bound, st, keys, pos)
    requires x < |st| && st[x] != Live && key !in pos && Reachable(st, hash(key), x)
    requires st[x] == Empty ==> used < bound
    ensures Consistent(hash, size + 1, if st[x] == Empty then used + 1 else used, bound, st[x := Live], keys[x := key], pos[key := x])
  {
    StoreKey(hash, st, keys, pos, key, x);
    CountStore(st, x, Live);
  }

  // ----- the in-place rehash

  ghost predicate OldLive(old_: seq<Status>, i: int) {
    0 <= i < |old_| && old_[i] == Live
  }

  ghost predicate Placed(new_: seq<Status>, i: int) {
    0 <= i < |new_| && new_[i] != Empty
  }

  /** `at` is a one-to-one map from keys to the buckets that are waiting in the old table or
      placed in the new one, and no bucket is both. */
  ghost predicate Located<K>(old_: seq<Status>, new_: seq<Status>, keys: seq<K>, at: map<K, nat>) {
    && |old_| <= |keys| && |new_| <= |keys|
    && (forall k :: k in at ==> at[k] < |keys| && keys[at[k]] == k && (OldLive(old_, at[k]) || Placed(new_, at[k])))
    && (forall i {:trigger OldLive(old_, i)} :: OldLive(old_, i) ==> keys[i] in at && at[keys[i]] == i && !Placed(new_, i))
    && (forall i {:trigger Placed(new_, i)} :: Placed(new_, i) ==> keys[i] in at && at[keys[i]] == i)
  }

  ghost predicate Carries<K, V>(vals: seq<V>, at: map<K, nat>, m: map<K, V>) {
    forall k :: k in at ==> at[k] < |vals| && k in m && vals[at[k]] == m[k]
  }

  ghost predicate PlacedReachable<K>(hash: K -> nat, new_: seq<Status>, at: map<K, nat>) {
    forall k :: k in at && Placed(new_, at[k]) ==> Reachable(new_, hash(k), at[k])
  }

  ghost predicate Accounted<K, V>(old_: seq<Status>, new_: seq<Status>, at: map<K, nat>, hand: set<K>, m: map<K, V>) {
    && at.Keys !! hand && m.Keys == at.Keys + hand
    && (forall i :: 0 <= i < |new_| ==> new_[i] != Deleted)
    && CountLive(old_) + CountUsed(new_) + |hand| == |m|
  }

  /** Mid-rehash state. Entries still waiting in the old table, entries placed in the new one and
      the keys in `hand` partition the content m; `at` says where the first two kinds sit. */
  ghost predicate Rehash<K, V>(hash: K -> nat, old_: seq<Status>, new_: seq<Status>, keys: seq<K>, vals: seq<V>,
                               at: map<K, nat>, hand: set<K>, m: map<K, V>)
  {
    && |keys| == |vals|
    && Located(old_, new_, keys, at)
    && Carries(vals, at, m)
    && PlacedReachable(hash, new_, at)
    && Accounted(old_, new_, at, hand, m)
  }

  /** Picking a waiting entry up: its old bucket is marked deleted. */
  lemma PickUp<K, V>(hash: K -> nat, old_: seq<Status>, new_: seq<Status>, keys: seq<K>, vals: seq<V>,
                     at: map<K, nat>, hand: set<K>, m: map<K, V>, j: nat)
    requires Rehash(hash, old_, new_, keys, vals, at, hand, m)
    requires OldLive(old_, j)
    ensures Rehash(hash, old_[j := Deleted], new_, keys, vals, at - {keys[j]}, hand + {keys[j]}, m)
    ensures keys[j] !in hand && keys[j] in m && m[keys[j]] == vals[j]
    ensures CountLive(old_[j := Deleted]) == CountLive(old_) - 1
  {
    PickUpLocated(old_, new_, keys, at, j);
    CountStore(old_, j, Deleted);
    assert keys[j] in at;
  }

  lemma PickUpLocated<K>(old_: seq<Status>, new_: seq<Status>, keys: seq<K>, at: map<K, nat>, j: nat)
    requires Located(old_, new_, keys, at) && OldLive(old_, j)
    ensures Located(old_[j := Deleted], new_, keys, at - {keys[j]})
  {
    var old' := old_[j := Deleted];
    assert forall i :: OldLive(old', i) ==> OldLive(old_, i) && i != j;
  }

  /** Putting a held entry down in an empty reachable bucket that no waiting entry occupies. */
  lemma PutDown<K, V>(hash: K -> nat, old_: seq<Status>, new_: seq<Status>, keys: seq<K>, vals: seq<V>,
                      at: map<K, nat>, hand: set<K>, m: map<K, V>, key: K, i: nat)
    requires Rehash(hash, old_, new_, keys, vals, at, hand, m)
    requires key in hand && i < |new_| && new_[i] == Empty && !OldLive(old_, i)
    requires Reachable(new_, hash(key), i)
    ensures Rehash(hash, old_, new_[i := Live], keys[i := key], vals[i := m[key]], at[key := i], hand - {key}, m)
  {
    assert forall k :: k in at ==> at[k] != i by { assert !Placed(new_, i); }
    assert key !in at;
    PutDownLocated(old_, new_, keys, at, key, i);
    PutDownCarries(old_, new_, keys, vals, at, m, key, i);
    PutDownReachable(hash, new_, at, key, i);
    PutDownAccounted(old_, new_, at, hand, m, key, i);
  }

  lemma PutDownAccounted<K, V>(old_: seq<Status>, new_: seq<Status>, at: map<K, nat>, hand: set<K>, m: map<K, V>, key: K, i: nat)
    requires Accounted(old_, new_, at, hand, m) && key in hand && i < |new_| && new_[i] == Empty
    ensures Accounted(old_, new_[i := Live], at[key := i], hand - {key}, m)
  {
    CountStore(new_, i, Live);
    MoveElement(at.Keys, hand, key);
    assert at[key := i].Keys == at.Keys + {key};
  }

  lemma MoveElement<K>(a: set<K>, b: set<K>, k: K)
    requires k in b && a !! b
    ensures a + {k} !! b - {k}
    ensures (a + {k}) + (b - {k}) == a + b
    ensures |b - {k}| == |b| - 1
  {
  }

  lemma PutDownLocated<K>(old_: seq<Status>, new_: seq<Status>, keys: seq<K>, at: map<K, nat>, key: K, i: nat)
    requires Located(old_, new_, keys, at) && key !in at
    requires i < |new_| && new_[i] == Empty && !OldLive(old_, i)
    ensures Located(old_, new_[i := Live], keys[i := key], at[key := i])
  {
    var new', keys', at' := new_[i := Live], keys[i := key], at[key := i];
    assert !Placed(new_, i);
    forall j | Placed(new', j)
      ensures keys'[j] in at' && at'[keys'[j]] == j
    {
      assert j != i ==> Placed(new_, j);
    }
    forall k | k in at'
      ensures at'[k] < |keys'| && keys'[at'[k]] == k && (OldLive(old_, at'[k]) || Placed(new', at'[k]))
    {
      assert k != key ==> at[k] != i && (Placed(new_, at[k]) ==> Placed(new', at[k]));
    }
    forall j | OldLive(old_, j)
      ensures keys'[j] in at' && at'[keys'[j]] == j && !Placed(new', j)
    {
      assert !Placed(new_, j) && keys[j] in at;
    }
  }

  lemma PutDownCarries<K, V>(old_: seq<Status>, new_: seq<Status>, keys: seq<K>, vals: seq<V>, at: map<K, nat>, m: map<K, V>, key: K, i: nat)
    requires Located(old_, new_, keys, at) && Carries(vals, at, m) && key in m
    requires i < |new_| && i < |vals| && new_[i] == Empty && !OldLive(old_, i)
    ensures Carries(vals[i := m[key]], at[key := i], m)
  {
    assert !Placed(new_, i);
    assert forall k :: k in at ==> at[k] != i;
  }

  lemma PutDownReachable<K>(hash: K -> nat, new_: seq<Status>, at: map<K, nat>, key: K, i: nat)
    requires PlacedReachable(hash, new_, at) && forall k :: k in at ==> at[k] != i
    requires i < |new_| && new_[i] == Empty && Reachable(new_, hash(key), i)
    ensures PlacedReachable(hash, new_[i := Live], at[key := i])
  {
    var new', at' := new_[i := Live], at[key := i];
    forall k | k in at' && Placed(new', at'[k])
      ensures Reachable(new', hash(k), at'[k])
    {
      ReachableKept(new_, new', hash(k), at'[k]);
    }
  }

  /** Starting a rehash from a table. */
  lemma BeginRehash<K, V>(hash: K -> nat, st: seq<Status>, new_: seq<Status>, keys: seq<K>, vals: seq<V>,
                          tkeys: seq<K>, pos: map<K, nat>, m: map<K, V>)
    requires Table(hash, st, tkeys, pos) && CountLive(st) == |pos|
    requires |st| <= |keys| == |vals| && |new_| <= |keys|
    requires forall i :: 0 <= i < |st| ==> keys[i] == tkeys[i]
    requires m.Keys == pos.Keys && forall k :: k in pos ==> vals[pos[k]] == m[k]
    requires forall i :: 0 <= i < |new_| ==> new_[i] == Empty
    ensures Rehash(hash, st, new_, keys, vals, pos, {}, m)
  {
    assert forall i :: !Placed(new_, i);
    BeginLocated(hash, st, new_, keys, tkeys, pos);
    BeginCarries(hash, st, vals, tkeys, pos, m);
    hide Table, Located, Carries, Placed, CountLive, CountUsed;
    AllEmptyCounts(new_);
    SameSize(pos, m);
  }

  lemma BeginLocated<K>(hash: K -> nat, st: seq<Status>, new_: seq<Status>, keys: seq<K>, tkeys: seq<K>, pos: map<K, nat>)
    requires Table(hash, st, tkeys, pos) && |st| <= |keys| && |new_| <= |keys|
    requires forall i :: 0 <= i < |st| ==> keys[i] == tkeys[i]
    requires forall i :: !Placed(new_, i)
    ensures Located(st, new_, keys, pos)
  {
    hide Reachable, Placed;
  }

  lemma BeginCarries<K, V>(hash: K -> nat, st: seq<Status>, vals: seq<V>, tkeys: seq<K>, pos: map<K, nat>, m: map<K, V>)
    requires Table(hash, st, tkeys, pos) && |st| <= |vals|
    requires m.Keys == pos.Keys && forall k :: k in pos ==> pos[k] < |vals| && vals[pos[k]] == m[k]
    ensures Carries(vals, pos, m)
  {
    hide Reachable;
  }

  lemma SameSize<K, A, B>(a: map<K, A>, b: map<K, B>)
    requires a.Keys == b.Keys
    ensures |a| == |b|
  {
    assert |a| == |a.Keys| && |b| == |b.Keys|;
  }

  /** A finished rehash is a table with the same content and no deleted buckets. */
  lemma EndRehash<K, V>(hash: K -> nat, old_: seq<Status>, new_: seq<Status>, keys: seq<K>, vals: seq<V>,
                        at: map<K, nat>, m: map<K, V>)
    requires Rehash(hash, old_, new_, keys, vals, at, {}, m)
    requires forall j :: !OldLive(old_, j)
    ensures Table(hash, new_, keys[..|new_|], at)
    ensures CountLive(new_) == CountUsed(new_) == |at| == |m| && at.Keys == m.Keys
    ensures forall k :: k in at ==> at[k] < |new_| && vals[at[k]] == m[k]
  {
    hide Reachable, CountLive, CountUsed;
    forall i | 0 <= i < |old_|
      ensures old_[i] != Live
    {
      assert !OldLive(old_, i);
    }
    NoLiveCount(old_);
    OnlyLiveCount(new_);
    SameSize(at, m);
    forall i | 0 <= i < |new_| && new_[i] == Live
      ensures keys[i] in at && at[keys[i]] == i
    {
      assert Placed(new_, i);
    }
  }

  /** The sweep over the old table has dealt with every bucket before j. */
  ghost predicate Swept(old_: seq<Status>, j: nat) {
    forall i :: 0 <= i < j && i < |old_| ==> old_[i] != Live
  }

  /** Marking bucket i deleted keeps the sweep going, and finishes bucket j when i is j. */
  lemma SweepOn(old_: seq<Status>, j: nat, i: nat)
    requires Swept(old_, j) && i < |old_|
    ensures Swept(old_[i := Deleted], j)
    ensures i == j ==> Swept(old_[i := Deleted], j + 1)
  {
  }

  lemma SweptAll(old_: seq<Status>)
    requires Swept(old_, |old_|)
    ensures forall j :: !OldLive(old_, j)
  {
  }

  /** While a key is held, the new table has room for it. */
  lemma RoomWhileHeld<K, V>(hash: K -> nat, old_: seq<Status>, new_: seq<Status>, keys: seq<K>, vals: seq<V>,
                            at: map<K, nat>, key: K, m: map<K, V>)
    requires Rehash(hash, old_, new_, keys, vals, at, {key}, m) && |m| < LoadBound(|new_|) && |new_| >= 4
    ensures CountUsed(new_) < |new_|
  {
    LoadBoundLeavesRoom(|new_|);
  }

  /** Kicking out: the waiting entry of bucket i is picked up and the held one put down there. */
  lemma KickOut<K, V>(hash: K -> nat, old_: seq<Status>, new_: seq<Status>, keys: seq<K>, vals: seq<V>,
                      at: map<K, nat>, key: K, m: map<K, V>, i: nat)
    requires Rehash(hash, old_, new_, keys, vals, at, {key}, m)
    requires i < |new_| && new_[i] == Empty && OldLive(old_, i) && Reachable(new_, hash(key), i)
    ensures Rehash(hash, old_[i := Deleted], new_[i := Live], keys[i := key], vals[i := m[key]], (at - {keys[i]})[key := i], {keys[i]}, m)
    ensures keys[i] in m && m[keys[i]] == vals[i]
    ensures CountLive(old_[i := Deleted]) == CountLive(old_) - 1
  {
    PickUp(hash, old_, new_, keys, vals, at, {key}, m, i);
    var old', at', hand := old_[i := Deleted], at - {keys[i]}, {key} + {keys[i]};
    PutDown(hash, old', new_, keys, vals, at', hand, m, key, i);
    assert hand - {key} == {keys[i]};
  }

  lemma SweepStart(old_: seq<Status>)
    ensures Swept(old_, 0)
  {
  }

  lemma SweepPast(old_: seq<Status>, j: nat)
    requires Swept(old_, j) && j < |old_| && old_[j] != Live
    ensures Swept(old_, j + 1)
  {
  }

  /** From the table invariant, the old arrays and an all-empty new table to a rehash. */
  lemma BeginMove<K, V>(hash: K -> nat, size: nat, used: nat, bound: nat, st: seq<Status>, new_: seq<Status>,
                        keys: seq<K>, vals: seq<V>, tkeys: seq<K>, tvals: seq<V>, pos: map<K, nat>)
    requires Consistent(hash, size, used, bound, st, tkeys, pos)
    requires |tvals| == |st| <= |keys| == |vals| && |new_| <= |keys|
    requires forall i :: 0 <= i < |st| ==> keys[i] == tkeys[i] && vals[i] == tvals[i]
    requires forall i :: 0 <= i < |new_| ==> new_[i] == Empty
    ensures forall k :: k in pos ==> pos[k] < |tvals|
    ensures Rehash(hash, st, new_, keys, vals, pos, {}, Bindings(pos, tvals))
    ensures |Bindings(pos, tvals)| == size
  {
    SameSize(pos, Bindings(pos, tvals));
    BeginRehash(hash, st, new_, keys, vals, tkeys, pos, Bindings(pos, tvals));
  }

  /** From a finished rehash back to the table invariant, on the shrunk arrays. */
  lemma EndMove<K, V>(hash: K -> nat, old_: seq<Status>, new_: seq<Status>, keys: seq<K>, vals: seq<V>,
                      at: map<K, nat>, m: map<K, V>, size: nat)
    requires Rehash(hash, old_, new_, keys, vals, at, {}, m) && Swept(old_, |old_|)
    requires IsPow2(|new_|) && 4 <= |new_| <= MAX_BUCKETS
    requires |m| == size < LoadBound(|new_|)
    ensures |new_| <= |keys| == |vals|
    ensures Consistent(hash, size, size, LoadBound(|new_|), new_, keys[..|new_|], at)
    ensures forall k :: k in at ==> at[k] < |new_|
    ensures Bindings(at, vals[..|new_|]) == m
  {
    SweptAll(old_);
    EndRehash(hash, old_, new_, keys, vals, at, m);
  }

  /** Either automatic resize of kh_put leaves a free bucket below the load bound. */
  lemma RoomAfterResize<K>(hash: K -> nat, size: nat, used: nat, bound: nat, st: seq<Status>, keys: seq<K>, pos: map<K, nat>)
    requires Consistent(hash, size, used, bound, st, keys, pos)
    requires |st| > 2 * size || |st| < MAX_BUCKETS
    ensures |st| <= MAX_BUCKETS
    ensures |st| > 2 * size ==> size < LoadBound(NewCapacity(|st| - 1)) && NewCapacity(|st| - 1) == |st|
    ensures |st| <= 2 * size ==>
      size < LoadBound(NewCapacity(|st| + 1)) && NewCapacity(|st| + 1) == if |st| == 0 then 4 else 2 * |st|
  {
    LiveAtMostUsed(st);
    if |st| >= 4 {
      PutCapacities(|st|);
    }
  }

  lemma BoundIs<K>(hash: K -> nat, size: nat, used: nat, bound: nat, st: seq<Status>, keys: seq<K>, pos: map<K, nat>)
    requires Consistent(hash, size, used, bound, st, keys, pos)
    ensures bound == LoadBound(|st|)
  {
  }

  /** After a resize nothing is deleted. */
  lemma NoDeletedBucket<K>(hash: K -> nat, size: nat, used: nat, bound: nat, st: seq<Status>, keys: seq<K>, pos: map<K, nat>, key: K)
    requires Consistent(hash, size, used, bound, st, keys, pos) && used == size
    ensures forall t: nat :: !DeletedOnPath(st, hash(key), t)
  {
    NoneDeleted(st);
  }

  /** An all-empty table of the same capacity. */
  lemma EmptyConsistent<K>(hash: K -> nat, size: nat, used: nat, bound: nat, st: seq<Status>, keys: seq<K>, pos: map<K, nat>, st': seq<Status>)
    requires Consistent(hash, size, used, bound, st, keys, pos) && |st'| == |st|
    requires forall i :: 0 <= i < |st'| ==> st'[i] == Empty
    ensures Consistent(hash, 0, 0, bound, st', keys, map[])
  {
    AllEmptyCounts(st');
  }
}
