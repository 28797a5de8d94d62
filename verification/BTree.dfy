/** B-trees as values. All leaves are at one depth, so a tree is always looked at together with its height;
    a leaf has height 0 and no kids. N is the type of node identities. Flat is the sequence of all keys in
    order, and Splice replaces a stretch of kids and keys. */
module BTree {
  datatype Tree<N, K> = Node(node: N, keys: seq<K>, kids: seq<Tree<N, K>>)

  // ----- the key sequence

  /** parts[0], keys[0], parts[1], keys[1], ... */
  function Pairs<K>(parts: seq<seq<K>>, keys: seq<K>): seq<K>
    requires |parts| == |keys|
  {
    if keys == [] then [] else parts[0] + [keys[0]] + Pairs(parts[1..], keys[1..])
  }

  /** keys[0], parts[0], keys[1], parts[1], ... */
  function PairsAfter<K>(keys: seq<K>, parts: seq<seq<K>>): seq<K>
    requires |parts| == |keys|
  {
    if keys == [] then [] else [keys[0]] + parts[0] + PairsAfter(keys[1..], parts[1..])
  }

  /** parts[0], keys[0], parts[1], ..., keys[n - 1], parts[n]. */
  function Weave<K>(parts: seq<seq<K>>, keys: seq<K>): seq<K>
    requires |parts| == |keys| + 1
  {
    parts[0] + PairsAfter(keys, parts[1..])
  }

  lemma {:induction false} PairsAfterAppend<K>(keys: seq<K>, parts: seq<seq<K>>, keys': seq<K>, parts': seq<seq<K>>)
    requires |keys| == |parts| && |keys'| == |parts'|
    ensures PairsAfter(keys + keys', parts + parts') == PairsAfter(keys, parts) + PairsAfter(keys', parts')
  {
    if keys == [] {
      assert keys + keys' == keys' && parts + parts' == parts';
    } else {
      PairsAfterAppend(keys[1..], parts[1..], keys', parts');
      assert (keys + keys')[1..] == keys[1..] + keys' && (parts + parts')[1..] == parts[1..] + parts';
      var a, b := PairsAfter(keys[1..], parts[1..]), PairsAfter(keys', parts');
      assert [keys[0]] + parts[0] + (a + b) == ([keys[0]] + parts[0] + a) + b;
    }
  }

  /** A stretch in the middle. */
  lemma {:induction false} WeaveMiddle<K>(a: seq<seq<K>>, ka: seq<K>, m: seq<seq<K>>, km: seq<K>, b: seq<seq<K>>, kb: seq<K>)
    requires |a| == |ka| && |m| == |km| + 1 && |b| == |kb|
    ensures Weave(a + m + b, ka + km + kb) == Pairs(a, ka) + Weave(m, km) + PairsAfter(kb, b)
    decreases |a|
  {
    if a == [] {
      assert a + m + b == m + b && ka + km + kb == km + kb && Pairs(a, ka) == [];
      hide Weave, Pairs, PairsAfter;
      WeaveAppend(m, km, b, kb);
      assert [] + Weave(m, km) == Weave(m, km);
    } else {
      assert Pairs(a, ka) == a[0] + [ka[0]] + Pairs(a[1..], ka[1..]);
      hide Weave, Pairs, PairsAfter;
      WeaveMiddle(a[1..], ka[1..], m, km, b, kb);
      WeaveFirst(a + m + b, ka + km + kb);
      assert (a + m + b)[1..] == a[1..] + m + b && (ka + km + kb)[1..] == ka[1..] + km + kb;
      Shift(a[0] + [ka[0]], Pairs(a[1..], ka[1..]), Weave(m, km), PairsAfter(kb, b));
    }
  }

  lemma WeaveAppend<K>(m: seq<seq<K>>, km: seq<K>, b: seq<seq<K>>, kb: seq<K>)
    requires |m| == |km| + 1 && |b| == |kb|
    ensures Weave(m + b, km + kb) == Weave(m, km) + PairsAfter(kb, b)
  {
    assert (m + b)[1..] == m[1..] + b;
    PairsAfterAppend(km, m[1..], kb, b);
    hide PairsAfter;
    assert m[0] + (PairsAfter(km, m[1..]) + PairsAfter(kb, b)) == (m[0] + PairsAfter(km, m[1..])) + PairsAfter(kb, b);
  }

  lemma Shift<K>(x: seq<K>, p: seq<K>, w: seq<K>, q: seq<K>)
    ensures x + (p + w + q) == (x + p) + w + q
  {
  }

  lemma WeaveFirst<K>(parts: seq<seq<K>>, keys: seq<K>)
    requires |parts| == |keys| + 1 && keys != []
    ensures Weave(parts, keys) == parts[0] + [keys[0]] + Weave(parts[1..], keys[1..])
  {
    assert parts[1..][1..] == parts[2..];
    var r := PairsAfter(keys[1..], parts[1..][1..]);
    assert parts[0] + ([keys[0]] + parts[1] + r) == parts[0] + [keys[0]] + (parts[1] + r);
  }

  lemma WeaveOne<K>(p: seq<K>)
    ensures Weave([p], []) == p
  {
  }

  lemma WeaveTwo<K>(p: seq<K>, k: K, q: seq<K>)
    ensures Weave([p, q], [k]) == p + [k] + q
  {
    WeaveFirst([p, q], [k]);
    assert [p, q][1..] == [q] && [k][1..] == [];
    WeaveOne(q);
  }

  // ----- trees

  /** Every internal node has one kid more than keys, down to the leaves at height 0. */
  ghost predicate Formed<N, K>(t: Tree<N, K>, h: nat)
    decreases h, 0
  {
    if h == 0 then t.kids == []
    else |t.kids| == |t.keys| + 1 && AllFormed(t.kids, h - 1)
  }

  ghost predicate AllFormed<N, K>(s: seq<Tree<N, K>>, h: nat)
    decreases h, 1
  {
    forall i :: 0 <= i < |s| ==> Formed(s[i], h)
  }

  /** The keys in order. */
  ghost function Flat<N, K>(t: Tree<N, K>, h: nat): seq<K>
    requires Formed(t, h)
    decreases h, 1
  {
    if h == 0 then t.keys else Weave(Flats(t.kids, h - 1), t.keys)
  }

  /** The key sequences of several trees. */
  ghost function Flats<N, K>(s: seq<Tree<N, K>>, h: nat): (p: seq<seq<K>>)
    requires AllFormed(s, h)
    ensures |p| == |s|
    ensures forall i :: 0 <= i < |s| ==> p[i] == Flat(s[i], h)
    decreases h, 2
  {
    seq(|s|, i requires 0 <= i < |s| => Flat(s[i], h))
  }

  /** What lies before and after kid i. */
  ghost function Before<N, K>(t: Tree<N, K>, h: nat, i: nat): seq<K>
    requires Formed(t, h) && h > 0 && i <= |t.keys|
  {
    Pairs(Flats(t.kids, h - 1)[..i], t.keys[..i])
  }

  ghost function After<N, K>(t: Tree<N, K>, h: nat, i: nat): seq<K>
    requires Formed(t, h) && h > 0 && i <= |t.keys|
  {
    PairsAfter(t.keys[i..], Flats(t.kids, h - 1)[i + 1..])
  }

  /** Kids i to j replaced by others, with the keys between them. */
  function Splice<N, K>(t: Tree<N, K>, i: nat, j: nat, keys: seq<K>, kids: seq<Tree<N, K>>): Tree<N, K>
    requires i <= j < |t.kids| == |t.keys| + 1
  {
    Node(t.node, t.keys[..i] + keys + t.keys[j..], t.kids[..i] + kids + t.kids[j + 1..])
  }

  lemma FlatsAppend<N, K>(a: seq<Tree<N, K>>, b: seq<Tree<N, K>>, h: nat)
    requires AllFormed(a, h) && AllFormed(b, h)
    ensures AllFormed(a + b, h) && Flats(a + b, h) == Flats(a, h) + Flats(b, h)
  {
  }

  lemma FlatsTake<N, K>(s: seq<Tree<N, K>>, h: nat, i: nat)
    requires AllFormed(s, h) && i <= |s|
    ensures AllFormed(s[..i], h) && Flats(s[..i], h) == Flats(s, h)[..i]
  {
  }

  lemma FlatsDrop<N, K>(s: seq<Tree<N, K>>, h: nat, i: nat)
    requires AllFormed(s, h) && i <= |s|
    ensures AllFormed(s[i..], h) && Flats(s[i..], h) == Flats(s, h)[i..]
  {
  }

  /** The key sequence after a splice: what lay before and after stays. */
  lemma FlatSplice<N, K>(t: Tree<N, K>, h: nat, i: nat, j: nat, keys: seq<K>, kids: seq<Tree<N, K>>)
    requires h > 0 && Formed(t, h) && i <= j <= |t.keys| && |kids| == |keys| + 1 && AllFormed(kids, h - 1)
    ensures Formed(Splice(t, i, j, keys, kids), h)
    ensures Flat(Splice(t, i, j, keys, kids), h) == Before(t, h, i) + Weave(Flats(kids, h - 1), keys) + After(t, h, j)
  {
    hide Flats, AllFormed, Weave, Pairs, PairsAfter;
    var fs := Flats(t.kids, h - 1);
    FlatsTake(t.kids, h - 1, i);
    FlatsDrop(t.kids, h - 1, j + 1);
    FlatsAppend(t.kids[..i], kids, h - 1);
    FlatsAppend(t.kids[..i] + kids, t.kids[j + 1..], h - 1);
    WeaveMiddle(fs[..i], t.keys[..i], Flats(kids, h - 1), keys, fs[j + 1..], t.keys[j..]);
  }

  lemma {:induction false} PairsSnoc<K>(parts: seq<seq<K>>, keys: seq<K>, p: seq<K>, k: K)
    requires |parts| == |keys|
    ensures Pairs(parts + [p], keys + [k]) == Pairs(parts, keys) + p + [k]
  {
    if keys == [] {
      assert (parts + [p])[1..] == [] && (keys + [k])[1..] == [];
    } else {
      PairsSnoc(parts[1..], keys[1..], p, k);
      assert (parts + [p])[1..] == parts[1..] + [p] && (keys + [k])[1..] == keys[1..] + [k];
    }
  }

  /** Key i ends what lies before kid i + 1, and begins what lies after kid i. */
  lemma KeyEnds<N, K>(t: Tree<N, K>, h: nat, i: nat)
    requires h > 0 && Formed(t, h) && i < |t.keys|
    ensures Before(t, h, i + 1) == Before(t, h, i) + Flat(t.kids[i], h - 1) + [t.keys[i]]
    ensures After(t, h, i) == [t.keys[i]] + Flat(t.kids[i + 1], h - 1) + After(t, h, i + 1)
  {
    hide Pairs, Weave;
    var p := Flats(t.kids, h - 1);
    PairsSnoc(p[..i], t.keys[..i], p[i], t.keys[i]);
    assert p[..i + 1] == p[..i] + [p[i]] && t.keys[..i + 1] == t.keys[..i] + [t.keys[i]];
    assert t.keys[i..][1..] == t.keys[i + 1..] && p[i + 1..][1..] == p[i + 2..];
  }

  // ----- the splices that occur

  lemma FlatsOne<N, K>(c: Tree<N, K>, h: nat)
    requires Formed(c, h)
    ensures AllFormed([c], h) && Flats([c], h) == [Flat(c, h)]
  {
  }

  lemma FlatsTwo<N, K>(y: Tree<N, K>, z: Tree<N, K>, h: nat)
    requires Formed(y, h) && Formed(z, h)
    ensures AllFormed([y, z], h) && Flats([y, z], h) == [Flat(y, h), Flat(z, h)]
  {
  }

  lemma FlatToOne<N, K>(t: Tree<N, K>, h: nat, i: nat, j: nat, c: Tree<N, K>)
    requires h > 0 && Formed(t, h) && i <= j <= |t.keys| && Formed(c, h - 1)
    ensures Formed(Splice(t, i, j, [], [c]), h)
    ensures Flat(Splice(t, i, j, [], [c]), h) == Before(t, h, i) + Flat(c, h - 1) + After(t, h, j)
  {
    hide Flats, AllFormed, Weave, Before, After, Flat, Formed, Splice;
    FlatsOne(c, h - 1);
    FlatSplice(t, h, i, j, [], [c]);
    WeaveOne(Flat(c, h - 1));
  }

  lemma FlatToTwo<N, K>(t: Tree<N, K>, h: nat, i: nat, j: nat, y: Tree<N, K>, k: K, z: Tree<N, K>)
    requires h > 0 && Formed(t, h) && i <= j <= |t.keys| && Formed(y, h - 1) && Formed(z, h - 1)
    ensures Formed(Splice(t, i, j, [k], [y, z]), h)
    ensures Flat(Splice(t, i, j, [k], [y, z]), h) == Before(t, h, i) + (Flat(y, h - 1) + [k] + Flat(z, h - 1)) + After(t, h, j)
  {
    hide Flats, AllFormed, Weave, Before, After, Flat, Formed, Splice;
    FlatsTwo(y, z, h - 1);
    FlatSplice(t, h, i, j, [k], [y, z]);
    WeaveTwo(Flat(y, h - 1), k, Flat(z, h - 1));
  }

  lemma KidFormed<N, K>(t: Tree<N, K>, h: nat, i: nat)
    requires h > 0 && Formed(t, h) && i <= |t.keys|
    ensures i < |t.kids| && Formed(t.kids[i], h - 1)
  {
  }

  /** The key sequence around kid i. */
  lemma FlatAt<N, K>(t: Tree<N, K>, h: nat, i: nat)
    requires h > 0 && Formed(t, h) && i <= |t.keys|
    ensures i < |t.kids| && Formed(t.kids[i], h - 1)
    ensures Flat(t, h) == Before(t, h, i) + Flat(t.kids[i], h - 1) + After(t, h, i)
  {
    assert Splice(t, i, i, [], [t.kids[i]]) == t;
    hide Flats, AllFormed, Before, After, Flat, Formed, Splice;
    KidFormed(t, h, i);
    FlatToOne(t, h, i, i, t.kids[i]);
  }

  /** The key sequence around kids i and i + 1 and the key between them. */
  lemma FlatAtKey<N, K>(t: Tree<N, K>, h: nat, i: nat)
    requires h > 0 && Formed(t, h) && i < |t.keys|
    ensures i + 1 < |t.kids| && Formed(t.kids[i], h - 1) && Formed(t.kids[i + 1], h - 1)
    ensures Flat(t, h) == Before(t, h, i) + (Flat(t.kids[i], h - 1) + [t.keys[i]] + Flat(t.kids[i + 1], h - 1)) + After(t, h, i + 1)
  {
    assert Splice(t, i, i + 1, [t.keys[i]], [t.kids[i], t.kids[i + 1]]) == t;
    hide Flats, AllFormed, Before, After, Flat, Formed, Splice;
    KidFormed(t, h, i);
    KidFormed(t, h, i + 1);
    FlatToTwo(t, h, i, i + 1, t.kids[i], t.keys[i], t.kids[i + 1]);
  }

  // ----- joining two nodes around a key

  function Join<N, K>(y: Tree<N, K>, k: K, z: Tree<N, K>): Tree<N, K> {
    Node(y.node, y.keys + [k] + z.keys, y.kids + z.kids)
  }

  lemma FlatJoin<N, K>(y: Tree<N, K>, k: K, z: Tree<N, K>, h: nat)
    requires Formed(y, h) && Formed(z, h)
    ensures Formed(Join(y, k, z), h) && Flat(Join(y, k, z), h) == Flat(y, h) + [k] + Flat(z, h)
  {
    if h > 0 {
      FlatsAppend(y.kids, z.kids, h - 1);
      hide Flats, AllFormed;
      WeaveJoin(Flats(y.kids, h - 1), y.keys, k, Flats(z.kids, h - 1), z.keys);
      hide Weave;
    }
  }

  lemma WeaveJoin<K>(p: seq<seq<K>>, pk: seq<K>, k: K, q: seq<seq<K>>, qk: seq<K>)
    requires |p| == |pk| + 1 && |q| == |qk| + 1
    ensures Weave(p + q, pk + [k] + qk) == Weave(p, pk) + [k] + Weave(q, qk)
  {
    WeaveMiddle([], [], p, pk, q, [k] + qk);
    assert [] + p + q == p + q && [] + pk + ([k] + qk) == pk + [k] + qk;
    assert ([k] + qk)[1..] == qk;
    var r := PairsAfter(qk, q[1..]);
    assert [k] + q[0] + r == [k] + (q[0] + r);
    assert Pairs<K>([], []) == [];
  }
}
