/** The khash hash map: open addressing with tombstones, triangular probing on power-of-two capacities, and a
    rehash that moves entries inside the same key and value arrays. The methods change the arrays the way
    the macros do; Contents is the finite map they are specified by. */
module Khash {
  import opened KhashFlags
  import opened PowersOfTwo
  import opened Probing
  import opened KhashState

  /** Result code of Put: 0 present, 1 stored in an empty bucket, 2 stored in a deleted bucket. */
  datatype PutCode = Present | NewBucket | ReusedBucket

  /** realloc: a new block of n elements that starts with the old ones. */
  method Realloc<T(0)>(a: array<T>, n: nat) returns (b: array<T>)
    ensures fresh(b) && b.Length == n
    ensures forall i :: 0 <= i < n && i < a.Length ==> b[i] == a[i]
  {
    b := new T[n];
    forall i | 0 <= i < n && i < a.Length {
      b[i] := a[i];
    }
  }

  /** Walks the probe path of hash value h to its first empty bucket. */
  method FindEmpty(flags: array<bv32>, n: nat, h: nat) returns (i: nat)
    requires IsPow2(n) && WellFormed(flags[..], n)
    requires CountUsed(Statuses(flags[..], n)) < n
    ensures i < n && Statuses(flags[..], n)[i] == Empty
    ensures Reachable(Statuses(flags[..], n), h, i)
  {
    hide CountUsed, IsPow2, Probe, Mask, OnPath;
    ghost var st := Statuses(flags[..], n);
    ghost var e := PathMeetsEmpty(st, h);
    var step := 0;
    i := Mask(h, n);
    PathStart(st, h);
    PathBounded(st, h, 0, i, e);
    var empty, del := Test(flags, n, i);
    while !empty
      invariant i < n && step <= e && (st[i] != Empty ==> step < e)
      invariant OnPath(st, h, step, i)
      invariant empty <==> st[i] == Empty
      decreases e - step
    {
      PathAdvance(st, h, step, i);
      step := step + 1;
      i := Mask(i + step, n);
      PathBounded(st, h, step, i, e);
      empty, del := Test(flags, n, i);
    }
  }

  class Table<K(==, 0), V(0)> {
    const hash: K -> nat
    var nBuckets: nat
    var size: nat
    var nOccupied: nat
    var upperBound: nat
    var flags: array<bv32>
    var keys: array<K>
    var vals: array<V>
    ghost var pos: map<K, nat>

    ghost predicate Shape()
      reads this, flags, keys, vals
    {
      && flags as object != keys && flags as object != vals && keys as object != vals
      && WellFormed(flags[..], nBuckets)
    }

    ghost function St(): seq<Status>
      reads this, flags, keys, vals
      requires Shape()
    {
      Statuses(flags[..], nBuckets)
    }

    ghost predicate Valid()
      reads this, flags, keys, vals
    {
      && Shape()
      && keys.Length == vals.Length == nBuckets
      && Consistent(hash, size, nOccupied, upperBound, St(), keys[..], pos)
    }

    /** The finite map the table stands for. */
    ghost function Contents(): (m: map<K, V>)
      reads this, flags, keys, vals
      requires Valid()
    {
      Bindings(pos, vals[..])
    }

    constructor (hash: K -> nat)
      ensures Valid() && Contents() == map[] && nBuckets == 0
      ensures fresh(flags) && fresh(keys) && fresh(vals)
      ensures this.hash == hash
    {
      this.hash := hash;
      nBuckets, size, nOccupied, upperBound := 0, 0, 0, 0;
      flags := new bv32[0];
      keys := new K[0];
      vals := new V[0];
      pos := map[];
    }

    /** Bucket of `key`, or nBuckets when it is not stored. */
    method Get(key: K) returns (x: nat)
      requires Valid()
      ensures x == if key in pos then pos[key] else nBuckets
      ensures key in Contents() ==> x < nBuckets && keys[x] == key && vals[x] == Contents()[key]
      ensures key !in Contents() ==> x == nBuckets
    {
      if nBuckets == 0 {
        return 0;
      }
      LoadBoundLeavesRoom(nBuckets);
      x := Search(key);
      assert forall k :: k in Contents() <==> k in pos;
    }

    /** The probing loop of Get. */
    method Search(key: K) returns (x: nat)
      requires Shape() && IsPow2(nBuckets) && keys.Length == nBuckets
      requires KhashState.Table(hash, St(), keys[..], pos) && CountUsed(St()) < nBuckets
      ensures x == if key in pos then pos[key] else nBuckets
    {
      hide KhashState.Table, CountUsed, IsPow2, Probe, Mask, OnPath;
      ghost var st, ks, h := St(), keys[..], hash(key);
      ghost var e := PathMeetsEmpty(st, h);
      var step := 0;
      var i := Mask(hash(key), nBuckets);
      var last := i;
      SeekStart(hash, st, ks, key);
      PathBounded(st, h, 0, i, e);
      var empty, del := Test(flags, nBuckets, i);
      while !empty && (del || keys[i] != key)
        invariant 0 <= i < nBuckets && step <= e && (st[i] != Empty ==> step < e)
        invariant Seeking(hash, st, ks, key, step, i)
        invariant empty <==> st[i] == Empty
        invariant del <==> st[i] == Deleted
        decreases e - step
      {
        SeekAdvance(hash, st, ks, key, step, i);
        step := step + 1;
        i := Mask(i + step, nBuckets);
        NoReturn(st, h, step, i);
        if i == last {
          assert false; // the walk never gets home
          return nBuckets;
        }
        PathBounded(st, h, step, i, e);
        empty, del := Test(flags, nBuckets, i);
      }
      SeekStop(hash, st, ks, pos, key, step, i);
      var either := TestEither(flags, nBuckets, i);
      x := if either then nBuckets else i;
    }

    /** Removes the entry of bucket x; no effect on nBuckets or on a bucket that is not live. */
    method Delete(x: nat)
      requires Valid() && x <= nBuckets
      modifies this`size, this`pos, flags
      ensures Valid()
      ensures x < nBuckets && old(St())[x] == Live ==> Contents() == old(Contents()) - {keys[x]} && size == old(size) - 1
      ensures x == nBuckets || old(St())[x] != Live ==> Contents() == old(Contents()) && size == old(size)
      ensures nOccupied == old(nOccupied)
    {
      hide Consistent, Bindings, Reachable;
      if x != nBuckets {
        var either := TestEither(flags, nBuckets, x);
        if !either {
          DeleteConsistent(hash, size, nOccupied, upperBound, St(), keys[..], pos, x);
          StoredKey(hash, size, nOccupied, upperBound, St(), keys[..], pos, keys[x]);
          BindingsRemove(pos, vals[..], keys[x]);
          SetDel(flags, nBuckets, x);
          size := size - 1;
          pos := pos - {keys[x]};
        }
      }
    }

    /** kh_value(h, x) = v on a live bucket. */
    method SetValue(x: nat, v: V)
      requires Valid() && x < nBuckets && St()[x] == Live
      modifies vals
      ensures Valid() && Contents() == old(Contents())[keys[x] := v]
    {
      hide Consistent, Bindings, Reachable;
      LiveBucket(hash, size, nOccupied, upperBound, St(), keys[..], pos, vals[..], x, v);
      ghost var vs := vals[..];
      vals[x] := v;
      assert vals[..] == vs[x := v];
    }

    /** The probing part of Put: the bucket of `key`, else the last deleted bucket passed, else the
        empty bucket that ended the search. */
    method FindSlot(key: K) returns (x: nat)
      requires Shape() && IsPow2(nBuckets) && keys.Length == nBuckets
      requires KhashState.Table(hash, St(), keys[..], pos) && CountUsed(St()) < nBuckets
      ensures x < nBuckets
      ensures key in pos ==> x == pos[key]
      ensures key !in pos ==> FreeSlot(St(), hash(key), x)
    {
      hide KhashState.Table, CountUsed, IsPow2, Probe, Mask, OnPath, SiteIs, FreeSlot, Reachable;
      ghost var st, ks, h := St(), keys[..], hash(key);
      ghost var e := PathMeetsEmpty(st, h);
      var step := 0;
      SiteStart(st, h);
      x := nBuckets;
      var site := nBuckets;
      var i := Mask(hash(key), nBuckets);
      SeekStart(hash, st, ks, key);
      var empty, del := Test(flags, nBuckets, i);
      if empty {
        SeekStop(hash, st, ks, pos, key, 0, i);
        SlotFound(st, h, 0, i, site);
        return i;
      }
      var last := i;
      PathBounded(st, h, 0, i, e);
      while !empty && (del || keys[i] != key)
        invariant 0 <= i < nBuckets && step <= e && (st[i] != Empty ==> step < e)
        invariant Seeking(hash, st, ks, key, step, i)
        invariant empty <==> st[i] == Empty
        invariant del <==> st[i] == Deleted
        invariant 0 <= site <= nBuckets && SiteIs(st, h, step, site)
        decreases e - step
      {
        SeekAdvance(hash, st, ks, key, step, i);
        SiteStep(st, h, step, i, site);
        if del { site := i; }
        step := step + 1;
        i := Mask(i + step, nBuckets);
        NoReturn(st, h, step, i);
        if i == last {
          assert false; // the source would settle for `site` here, but the walk never gets home
          break;
        }
        PathBounded(st, h, step, i, e);
        empty, del := Test(flags, nBuckets, i);
      }
      SeekStop(hash, st, ks, pos, key, step, i);
      if empty { SlotFound(st, h, step, i, site); }
      if x == nBuckets {
        x := if empty && site != nBuckets then site else i;
      }
    }

    /** The heap objects a table owns. */
    ghost function Repr(): set<object>
      reads this
    {
      {flags as object, keys as object, vals as object}
    }

    /** The state of an unfinished rehash into flag words for n buckets. */
    ghost predicate MidRehash(newFlags: array<bv32>, n: nat, at: map<K, nat>, hand: set<K>, m: map<K, V>)
      reads this, flags, newFlags, keys, vals
    {
      && Shape()
      && newFlags != flags && newFlags as object != keys && newFlags as object != vals
      && WellFormed(newFlags[..], n)
      && nBuckets <= keys.Length == vals.Length && n <= keys.Length
      && Rehash(hash, St(), Statuses(newFlags[..], n), keys[..], vals[..], at, hand, m)
    }

    /** The storing part of Put. */
    method Occupy(key: K, x: nat) returns (code: PutCode)
      requires Valid() && x < nBuckets && nOccupied < upperBound
      requires key in pos ==> x == pos[key]
      requires key !in pos ==> St()[x] != Live && Reachable(St(), hash(key), x)
      modifies this`size, this`nOccupied, this`pos, flags, keys
      ensures Valid() && St()[x] == Live && keys[x] == key
      ensures code == Present <==> key in old(pos)
      ensures code == Present ==> Contents() == old(Contents()) && size == old(size)
      ensures code == ReusedBucket <==> old(St())[x] == Deleted
      ensures code != Present ==> Contents() == old(Contents())[key := vals[x]] && size == old(size) + 1
      ensures nOccupied == old(nOccupied) + if code == NewBucket then 1 else 0
    {
      hide Consistent, Bindings, Reachable;
      StoredKey(hash, size, nOccupied, upperBound, St(), keys[..], pos, key);
      var empty, del := Test(flags, nBuckets, x);
      if empty || del {
        InsertConsistent(hash, size, nOccupied, upperBound, St(), keys[..], pos, key, x);
        BindingsStore(pos, vals[..], key, x);
        keys[x] := key;
        ClearBoth(flags, nBuckets, x);
        size := size + 1;
        pos := pos[key := x];
        if empty {
          nOccupied := nOccupied + 1;
          code := NewBucket;
        } else {
          code := ReusedBucket;
        }
      } else {
        code := Present;
      }
    }

    /** The held entry goes to bucket i of the new table, whose flags say so already, and the one that waits
        there is picked up; w are the flags of the new table before. */
    method Exchange(newFlags: array<bv32>, n: nat, i: nat, key0: K, val0: V, ghost w: seq<Status>, ghost m: map<K, V>, ghost at0: map<K, nat>)
        returns (key: K, val: V, ghost at: map<K, nat>)
      requires Shape() && newFlags != flags && newFlags as object != keys && newFlags as object != vals
      requires nBuckets <= keys.Length == vals.Length && n <= keys.Length && WellFormed(newFlags[..], n)
      requires Rehash(hash, St(), w, keys[..], vals[..], at0, {key0}, m) && key0 in m && m[key0] == val0
      requires i < n == |w| && w[i] == Empty && OldLive(St(), i) && Reachable(w, hash(key0), i)
      requires Statuses(newFlags[..], n) == w[i := Live]
      modifies flags, keys, vals
      ensures MidRehash(newFlags, n, at, {key}, m) && key in m && m[key] == val
      ensures St() == old(St())[i := Deleted] && CountLive(St()) == old(CountLive(St())) - 1
    {
      hide Rehash, Reachable, CountLive;
      ghost var o, ks, vs := St(), keys[..], vals[..];
      KickOut(hash, o, w, ks, vs, at0, key0, m, i);
      at := (at0 - {ks[i]})[key0 := i];
      key, val := keys[i], vals[i];
      keys[i] := key0;
      vals[i] := val0;
      SetDel(flags, nBuckets, i);
    }

    /** The held entry goes to bucket i, where none waits. */
    method Settle(newFlags: array<bv32>, n: nat, i: nat, key: K, val: V, ghost w: seq<Status>, ghost m: map<K, V>, ghost at0: map<K, nat>)
        returns (ghost at: map<K, nat>)
      requires Shape() && newFlags != flags && newFlags as object != keys && newFlags as object != vals
      requires nBuckets <= keys.Length == vals.Length && n <= keys.Length && WellFormed(newFlags[..], n)
      requires Rehash(hash, St(), w, keys[..], vals[..], at0, {key}, m) && key in m && m[key] == val
      requires i < n == |w| && w[i] == Empty && !OldLive(St(), i) && Reachable(w, hash(key), i)
      requires Statuses(newFlags[..], n) == w[i := Live]
      modifies keys, vals
      ensures MidRehash(newFlags, n, at, {}, m) && St() == old(St())
    {
      hide Rehash, Reachable;
      PutDown(hash, St(), w, keys[..], vals[..], at0, {key}, m, key, i);
      assert {key} - {key} == {};
      at := at0[key := i];
      keys[i] := key;
      vals[i] := val;
    }

    /** Moves the waiting entry of bucket j to its place in the new table, and every entry it kicks
        out on the way. */
    method MoveOne(newFlags: array<bv32>, n: nat, j: nat, ghost m: map<K, V>, ghost at0: map<K, nat>) returns (ghost at: map<K, nat>)
      requires MidRehash(newFlags, n, at0, {}, m) && j < nBuckets && OldLive(St(), j)
      requires IsPow2(n) && n >= 4 && |m| < LoadBound(n) && Swept(St(), j)
      modifies flags, newFlags, keys, vals
      ensures MidRehash(newFlags, n, at, {}, m) && Swept(St(), j + 1)
    {
      hide Rehash, Swept, IsPow2, CountLive, CountUsed, Reachable;
      var key, val := keys[j], vals[j];
      PickUp(hash, St(), Statuses(newFlags[..], n), keys[..], vals[..], at0, {}, m, j);
      SweepOn(St(), j, j);
      at := at0 - {key};
      SetDel(flags, nBuckets, j);
      assert {} + {key} == {key};
      while true
        invariant MidRehash(newFlags, n, at, {key}, m) && Swept(St(), j + 1)
        invariant key in m && m[key] == val
        decreases CountLive(St())
      {
        ghost var o, w := St(), Statuses(newFlags[..], n);
        RoomWhileHeld(hash, o, w, keys[..], vals[..], at, key, m);
        var i := FindEmpty(newFlags, n, hash(key));
        ClearEmpty(newFlags, n, i);
        var either := true;
        if i < nBuckets {
          either := TestEither(flags, nBuckets, i);
        }
        if !either {
          key, val, at := Exchange(newFlags, n, i, key, val, w, m, at);
          SweepOn(o, j + 1, i);
        } else {
          at := Settle(newFlags, n, i, key, val, w, m, at);
          break;
        }
      }
    }

    /** The sweep of kh_resize over the old buckets. */
    method MoveAll(newFlags: array<bv32>, n: nat, ghost m: map<K, V>) returns (ghost at: map<K, nat>)
      requires MidRehash(newFlags, n, pos, {}, m)
      requires IsPow2(n) && n >= 4 && |m| < LoadBound(n)
      modifies flags, newFlags, keys, vals
      ensures MidRehash(newFlags, n, at, {}, m) && Swept(St(), nBuckets)
    {
      hide Rehash, Swept, IsPow2, Consistent;
      at := pos;
      SweepStart(St());
      for j := 0 to nBuckets
        invariant MidRehash(newFlags, n, at, {}, m) && Swept(St(), j)
      {
        var either := TestEither(flags, nBuckets, j);
        if !either {
          at := MoveOne(newFlags, n, j, m, at);
        } else {
          SweepPast(St(), j);
        }
      }
    }

    /** Gives the table the requested capacity, rounded up, when its entries fit; otherwise does
        nothing. Moving also drops every deleted bucket. */
    method Resize(request: nat)
      requires Valid() && request < 0x1_0000_0000
      modifies this`nBuckets, this`nOccupied, this`upperBound, this`flags, this`keys, this`vals, this`pos, flags, keys, vals
      ensures Valid() && fresh(Repr() - old(Repr()))
      ensures Contents() == old(Contents()) && size == old(size)
      ensures size >= LoadBound(NewCapacity(request)) ==> nBuckets == old(nBuckets) && nOccupied == old(nOccupied)
      ensures size < LoadBound(NewCapacity(request)) ==> nBuckets == NewCapacity(request) && nOccupied == size
    {
      hide Consistent, Bindings, Rehash, Swept, IsPow2, Reachable, LoadBound, NewCapacity, FSize;
      var n := NewCapacity(request);
      NewCapacityIs(request);
      if size >= LoadBound(n) {
        return;
      }
      ghost var m := Contents();
      var newFlags := new bv32[FSize(n)](_ => 0xaaaa_aaaa);
      EnoughWords(n);
      FreshFlags(newFlags[..], n);
      ghost var ks, vs := keys[..], vals[..];
      if nBuckets < n {
        keys := Realloc(keys, n);
        vals := Realloc(vals, n);
      }
      BeginMove(hash, size, nOccupied, upperBound, St(), Statuses(newFlags[..], n), keys[..], vals[..], ks, vs, pos);
      ghost var at := MoveAll(newFlags, n, m);
      EndMove(hash, St(), Statuses(newFlags[..], n), keys[..], vals[..], at, m, size);
      Install(newFlags, n, at, m);
    }

    /** The end of kh_resize: shrinks the arrays if needed and adopts the new flags. */
    method Install(newFlags: array<bv32>, n: nat, ghost at: map<K, nat>, ghost m: map<K, V>)
      requires nBuckets <= keys.Length == vals.Length && n <= keys.Length && (nBuckets <= n ==> n == keys.Length)
      requires WellFormed(newFlags[..], n) && newFlags as object != keys && newFlags as object != vals && keys as object != vals
      requires Consistent(hash, size, size, LoadBound(n), Statuses(newFlags[..], n), keys[..n], at)
      requires forall k :: k in at ==> at[k] < n
      requires Bindings(at, vals[..n]) == m
      modifies this`nBuckets, this`nOccupied, this`upperBound, this`flags, this`keys, this`vals, this`pos
      ensures Valid() && Contents() == m && nBuckets == n && nOccupied == size
      ensures flags == newFlags && (keys == old(keys) || fresh(keys)) && (vals == old(vals) || fresh(vals))
    {
      hide Consistent, Bindings, LoadBound;
      ghost var ks, vs := keys[..n], vals[..n];
      if nBuckets > n {
        keys := Realloc(keys, n);
        vals := Realloc(vals, n);
      }
      assert keys[..] == ks && vals[..] == vs;
      flags := newFlags;
      nBuckets := n;
      nOccupied := size;
      upperBound := LoadBound(n);
      pos := at;
    }

    /** The automatic resize of Put: sheds deleted buckets or doubles the capacity. */
    method MakeRoom()
      requires Valid() && nOccupied >= upperBound
      requires nBuckets > 2 * size || nBuckets < MAX_BUCKETS
      modifies this`nBuckets, this`nOccupied, this`upperBound, this`flags, this`keys, this`vals, this`pos, flags, keys, vals
      ensures Valid() && fresh(Repr() - old(Repr()))
      ensures Contents() == old(Contents()) && size == old(size)
      ensures nOccupied == size < upperBound
      ensures nBuckets == if old(nBuckets) > 2 * old(size) then old(nBuckets) else if old(nBuckets) == 0 then 4 else 2 * old(nBuckets)
    {
      hide Consistent, Bindings, Reachable, LoadBound, NewCapacity;
      RoomAfterResize(hash, size, nOccupied, upperBound, St(), keys[..], pos);
      if nBuckets > 2 * size {
        Resize(nBuckets - 1);
      } else {
        Resize(nBuckets + 1);
      }
      BoundIs(hash, size, nOccupied, upperBound, St(), keys[..], pos);
    }

    /** Stores `key` if it is not there yet; a new entry keeps whatever value its bucket held. */
    method Put(key: K) returns (x: nat, code: PutCode)
      requires Valid()
      requires nOccupied < upperBound || nBuckets > 2 * size || nBuckets < MAX_BUCKETS
      modifies this, flags, keys, vals
      ensures Valid() && fresh(Repr() - old(Repr()))
      ensures x < nBuckets && St()[x] == Live && keys[x] == key
      ensures code == Present <==> key in old(Contents())
      ensures code == Present ==> Contents() == old(Contents()) && size == old(size)
      ensures code != Present ==> Contents() == old(Contents())[key := vals[x]] && size == old(size) + 1
      ensures old(nOccupied) < old(upperBound) ==>
        && nBuckets == old(nBuckets) && nOccupied == old(nOccupied) + (if code == NewBucket then 1 else 0)
        && PlacedFor(old(St()), old(pos), key, x, code)
      ensures old(nOccupied) >= old(upperBound) ==>
        && nBuckets == (if old(nBuckets) > 2 * old(size) then old(nBuckets) else if old(nBuckets) == 0 then 4 else 2 * old(nBuckets))
        && nOccupied == size && code != ReusedBucket
    {
      hide Consistent, Bindings, Reachable, LoadBound, FreeSlot, DeletedOnPath;
      if nOccupied >= upperBound {
        MakeRoom();
        assert keys in Repr() && flags in Repr() && vals in Repr();
        NoDeletedBucket(hash, size, nOccupied, upperBound, St(), keys[..], pos, key);
      }
      x, code := Place(key);
    }

    /** Bucket x and the code are right for key in a table of these statuses: a stored key stays where it is; another one
        gets the last deleted bucket before the first empty one of its path, or that one, and the code tells which. */
    ghost predicate PlacedFor(st: seq<Status>, at: map<K, nat>, key: K, x: nat, code: PutCode) {
      && (code == Present <==> key in at)
      && (code == Present ==> x == at[key])
      && (code != Present ==> FreeSlot(st, hash(key), x))
      && (code == ReusedBucket <==> key !in at && exists t: nat :: DeletedOnPath(st, hash(key), t))
    }

    /** Put without the resize. */
    method Place(key: K) returns (x: nat, code: PutCode)
      requires Valid() && nOccupied < upperBound
      modifies this`size, this`nOccupied, this`pos, flags, keys
      ensures Valid() && x < nBuckets && St()[x] == Live && keys[x] == key
      ensures code == Present <==> key in old(Contents())
      ensures code == Present ==> Contents() == old(Contents()) && size == old(size)
      ensures code != Present ==> Contents() == old(Contents())[key := vals[x]] && size == old(size) + 1
      ensures nOccupied == old(nOccupied) + if code == NewBucket then 1 else 0
      ensures PlacedFor(old(St()), old(pos), key, x, code)
    {
      hide Consistent, Bindings, Reachable, LoadBound, FreeSlot, DeletedOnPath;
      RoomBound(hash, size, nOccupied, upperBound, St(), keys[..], pos);
      StoredKey(hash, size, nOccupied, upperBound, St(), keys[..], pos, key);
      x := FindSlot(key);
      if key !in pos { SlotIs(St(), hash(key), x); }
      code := Occupy(key, x);
    }

    /** Empties the table without shrinking it. */
    method Clear()
      requires Valid()
      modifies this`size, this`nOccupied, this`pos, flags
      ensures Valid() && Contents() == map[] && size == nOccupied == 0
    {
      hide Consistent;
      ghost var fresh_ := seq(nBuckets, _ => Empty);
      EmptyConsistent(hash, size, nOccupied, upperBound, St(), keys[..], pos, fresh_);
      ghost var ks := keys[..];
      forall i | 0 <= i < flags.Length {
        flags[i] := 0xaaaa_aaaa;
      }
      FreshFlags(flags[..], nBuckets);
      assert St() == fresh_ && keys[..] == ks;
      size, nOccupied, pos := 0, 0, map[];
    }
  }
}
