/**
 The resizing hash table on values: a sequence of buckets, each the list of its entries from the head
 of the chain on. The class HTable.HTable keeps these lists as linked nodes and is proved to do
 exactly what the functions here do.
 */
module HTableSpec {
  import opened Masks
  import opened Options

  const MIN_HTABLE_SIZE := 8

  datatype Entry<K, V> = Entry(key: K, val: V, hash: nat)

  /** The table, the number of its entries, and every value given to the before-free callback. */
  datatype Table<K, V> = Table(buckets: seq<seq<Entry<K, V>>>, nitems: int, released: seq<V>)

  // ---- One chain ----

  /** The place of key k in a chain, or |l|. */
  function Place<K(==), V>(l: seq<Entry<K, V>>, k: K): (i: nat)
    ensures i <= |l|
    ensures i < |l| ==> l[i].key == k
    ensures forall j :: 0 <= j < i ==> l[j].key != k
    decreases |l|
  {
    if l == [] then 0
    else
      var i := Place(l[..|l| - 1], k);
      if i < |l| - 1 then i else if l[|l| - 1].key == k then |l| - 1 else |l|
  }

  /** The entry leaves its bucket when a table of this size doubles. */
  predicate Moves(h: nat, size: nat)
    requires size > 0
  {
    And(h, size - 1) != And(h, 2 * size - 1)
  }

  /** The part of a chain that keeps its bucket on doubling, in order. */
  function Stay<K, V>(l: seq<Entry<K, V>>, size: nat): seq<Entry<K, V>>
    requires size > 0
  {
    if l == [] then []
    else if Moves(l[0].hash, size) then Stay(l[1..], size)
    else [l[0]] + Stay(l[1..], size)
  }

  /** The part that moves up; it is pushed entry by entry, so its order is reversed. */
  function Go<K, V>(l: seq<Entry<K, V>>, size: nat): seq<Entry<K, V>>
    requires size > 0
  {
    if l == [] then []
    else if Moves(l[0].hash, size) then Go(l[1..], size) + [l[0]]
    else Go(l[1..], size)
  }

  // ---- The table ----

  /** Doubling: what stays, then what moved up. */
  function Grow<K, V>(t: seq<seq<Entry<K, V>>>): seq<seq<Entry<K, V>>>
    requires |t| > 0
  {
    seq(2 * |t|, b requires 0 <= b < 2 * |t| => if b < |t| then Stay(t[b], |t|) else Go(t[b - |t|], |t|))
  }

  /** Halving: each bucket is followed by the one half a table above it. */
  function Shrink<K, V>(t: seq<seq<Entry<K, V>>>): seq<seq<Entry<K, V>>> {
    seq(|t| / 2, b requires 0 <= b < |t| / 2 => t[b] + t[b + |t| / 2])
  }

  function Resize<K, V>(t: seq<seq<Entry<K, V>>>, nitems: int): seq<seq<Entry<K, V>>>
    requires |t| > 0
  {
    if nitems < MIN_HTABLE_SIZE then t
    else if nitems > |t| then Grow(t)
    else if nitems <= |t| / 2 then Shrink(t)
    else t
  }

  function Empty<K, V>(): Table<K, V> {
    Table([[], [], [], [], [], [], [], []], 0, [])
  }

  /** The bucket of a hash. */
  ghost predicate Indexed<K, V>(t: Table<K, V>) {
    IsPow2(|t.buckets|)
  }

  ghost function Bucket<K, V>(t: Table<K, V>, h: nat): (b: nat)
    requires Indexed(t)
    ensures b < |t.buckets| && b == And(h, |t.buckets| - 1)
  {
    MaskBound(h, |t.buckets|);
    And(h, |t.buckets| - 1)
  }

  ghost function Insert<K, V>(t: Table<K, V>, k: K, v: V, h: nat): Table<K, V>
    requires Indexed(t)
  {
    var b := Bucket(t, h);
    var l := t.buckets[b];
    var i := Place(l, k);
    if i < |l| then
      Table(t.buckets[b := l[i := Entry(k, v, h)]], t.nitems, t.released + [l[i].val])
    else
      Table(Resize(t.buckets[b := [Entry(k, v, h)] + l], t.nitems + 1), t.nitems + 1, t.released)
  }

  ghost function Delete<K, V>(t: Table<K, V>, k: K, h: nat): Table<K, V>
    requires Indexed(t)
  {
    var b := Bucket(t, h);
    var l := t.buckets[b];
    var i := Place(l, k);
    if i < |l| then
      Table(Resize(t.buckets[b := l[..i] + l[i + 1..]], t.nitems - 1), t.nitems - 1, t.released + [l[i].val])
    else t
  }

  ghost function Find<K, V>(t: Table<K, V>, k: K, h: nat): Option<V>
    requires Indexed(t)
  {
    var l := t.buckets[Bucket(t, h)];
    var i := Place(l, k);
    if i < |l| then Some(l[i].val) else None
  }

  // ---- What the table stands for ----

  /** The entries of bucket b carry the hash of their key, belong there, and have different keys. */
  ghost predicate BucketOk<K(!new), V>(l: seq<Entry<K, V>>, b: nat, size: nat, hash: K -> nat)
    requires size > 0
  {
    && (forall i :: 0 <= i < |l| ==> l[i].hash == hash(l[i].key) && And(l[i].hash, size - 1) == b)
    && (forall i, j :: 0 <= i < j < |l| ==> l[i].key != l[j].key)
  }

  ghost predicate TableOk<K(!new), V>(t: seq<seq<Entry<K, V>>>, hash: K -> nat) {
    && |t| > 0 && IsPow2(|t|)
    && (forall b :: 0 <= b < |t| ==> BucketOk(t[b], b, |t|, hash))
  }

  /** The entry for key k and value v is where it is looked for. */
  ghost predicate Holds<K, V>(t: seq<seq<Entry<K, V>>>, hash: K -> nat, k: K, v: V)
    requires |t| > 0
  {
    var b := And(hash(k), |t| - 1);
    b < |t| && Entry(k, v, hash(k)) in t[b]
  }

  /** The table holds exactly the pairs of m. */
  ghost predicate Represents<K(!new), V(!new)>(t: seq<seq<Entry<K, V>>>, hash: K -> nat, m: map<K, V>)
    requires |t| > 0
  {
    forall k, v :: Holds(t, hash, k, v) <==> k in m && m[k] == v
  }

  lemma {:induction false} StayMembers<K, V>(l: seq<Entry<K, V>>, size: nat, e: Entry<K, V>)
    requires size > 0
    ensures e in Stay(l, size) <==> e in l && !Moves(e.hash, size)
  {
    if l != [] {
      StayMembers(l[1..], size, e);
      assert l == [l[0]] + l[1..];
    }
  }

  lemma {:induction false} GoMembers<K, V>(l: seq<Entry<K, V>>, size: nat, e: Entry<K, V>)
    requires size > 0
    ensures e in Go(l, size) <==> e in l && Moves(e.hash, size)
  {
    if l != [] {
      GoMembers(l[1..], size, e);
      assert l == [l[0]] + l[1..];
    }
  }

  /** A resize moves no entry away from where its key is looked for, and brings none. */
  lemma GrowHolds<K, V>(t: seq<seq<Entry<K, V>>>, hash: K -> nat, k: K, v: V)
    requires |t| > 0 && IsPow2(|t|)
    ensures Holds(Grow(t), hash, k, v) <==> Holds(t, hash, k, v)
  {
    hide And, Stay, Go;
    var h := hash(k);
    MaskBound(h, |t|);
    MaskDouble(h, |t|);
    var b := And(h, |t| - 1);
    StayMembers(t[b], |t|, Entry(k, v, h));
    GoMembers(t[b], |t|, Entry(k, v, h));
  }

  lemma ShrinkHolds<K, V>(t: seq<seq<Entry<K, V>>>, hash: K -> nat, k: K, v: V, half: nat)
    requires half > 0 && |t| == 2 * half && IsPow2(half)
    requires forall b, i :: 0 <= b < |t| && 0 <= i < |t[b]| ==> And(t[b][i].hash, |t| - 1) == b
    ensures Holds(Shrink(t), hash, k, v) <==> Holds(t, hash, k, v)
  {
    hide And;
    var h := hash(k);
    MaskBound(h, half);
    MaskDouble(h, half);
    var b := And(h, half - 1);
    assert Shrink(t)[b] == t[b] + t[b + half];
  }

  // ---- Every operation keeps the table in order ----

  lemma {:induction false} StayOk<K(!new), V>(l: seq<Entry<K, V>>, b: nat, size: nat, hash: K -> nat)
    requires size > 0 && BucketOk(l, b, size, hash)
    ensures BucketOk(Stay(l, size), b, 2 * size, hash)
  {
    if l != [] {
      var l', x := l[1..], l[0];
      StayOk(l', b, size, hash);
      forall i | 0 <= i < |Stay(l', size)| ensures Stay(l', size)[i].key != x.key {
        StayMembers(l', size, Stay(l', size)[i]);
      }
    }
  }

  lemma {:induction false} GoOk<K(!new), V>(l: seq<Entry<K, V>>, b: nat, size: nat, hash: K -> nat)
    requires size > 0 && IsPow2(size) && BucketOk(l, b, size, hash)
    ensures BucketOk(Go(l, size), b + size, 2 * size, hash)
  {
    if l != [] {
      var l', x := l[1..], l[0];
      GoOk(l', b, size, hash);
      MaskDouble(x.hash, size);
      forall i | 0 <= i < |Go(l', size)| ensures Go(l', size)[i].key != x.key {
        GoMembers(l', size, Go(l', size)[i]);
      }
    }
  }

  lemma GrowOk<K(!new), V>(t: seq<seq<Entry<K, V>>>, hash: K -> nat)
    requires TableOk(t, hash)
    ensures TableOk(Grow(t), hash)
  {
    MaskDouble(0, |t|);
    forall b | 0 <= b < |Grow(t)| ensures BucketOk(Grow(t)[b], b, |Grow(t)|, hash) {
      if b < |t| {
        StayOk(t[b], b, |t|, hash);
      } else {
        GoOk(t[b - |t|], b - |t|, |t|, hash);
      }
    }
  }

  lemma ConcatOk<K(!new), V>(l: seq<Entry<K, V>>, u: seq<Entry<K, V>>, b: nat, half: nat, hash: K -> nat)
    requires IsPow2(half) && b < half
    requires BucketOk(l, b, 2 * half, hash) && BucketOk(u, b + half, 2 * half, hash)
    ensures BucketOk(l + u, b, half, hash)
  {
    hide And;
    var r := l + u;
    forall i | 0 <= i < |r| ensures r[i].hash == hash(r[i].key) && And(r[i].hash, half - 1) == b {
      assert r[i] == if i < |l| then l[i] else u[i - |l|];
      MaskDouble(r[i].hash, half);
      MaskBound(r[i].hash, half);
    }
    forall i, j | 0 <= i < j < |r| ensures r[i].key != r[j].key {
      assert r[i] == if i < |l| then l[i] else u[i - |l|];
      assert r[j] == if j < |l| then l[j] else u[j - |l|];
    }
  }

  lemma ShrinkOk<K(!new), V>(t: seq<seq<Entry<K, V>>>, hash: K -> nat, half: nat)
    requires TableOk(t, hash) && |t| == 2 * half && IsPow2(half)
    ensures TableOk(Shrink(t), hash)
  {
    forall b | 0 <= b < half ensures BucketOk(Shrink(t)[b], b, half, hash) {
      ConcatOk(t[b], t[b + half], b, half, hash);
    }
  }

  /** The size kept: the least power of two that is at least the minimum and the number of entries. */
  ghost predicate SizeOk(size: nat, nitems: int) {
    && IsPow2(size) && size >= MIN_HTABLE_SIZE
    && nitems <= size
    && (size > MIN_HTABLE_SIZE ==> size / 2 < nitems)
  }

  /** A power of two above one is twice another one. */
  lemma HalfOf(size: nat) returns (half: nat)
    requires IsPow2(size) && size > 1
    ensures size == 2 * half && IsPow2(half)
  {
    var k: nat :| size == Pow2(k);
    half := Pow2(k - 1);
  }

  lemma {:induction false} Pow2Gap(j: nat, k: nat)
    requires Pow2(j) < Pow2(k)
    ensures 2 * Pow2(j) <= Pow2(k)
  {
    if j > 0 && k > 0 {
      Pow2Gap(j - 1, k - 1);
    }
  }

  lemma SizeIsLeast(size: nat, nitems: int, other: nat)
    requires SizeOk(size, nitems)
    requires IsPow2(other) && other >= MIN_HTABLE_SIZE && other >= nitems
    ensures size <= other
  {
    if other < size {
      var j: nat :| other == Pow2(j);
      var k: nat :| size == Pow2(k);
      Pow2Gap(j, k);
      assert false;
    }
  }

  /** After one entry more or one less, one doubling or halving is enough. */
  lemma ResizeSize<K, V>(t: seq<seq<Entry<K, V>>>, before: int, nitems: int)
    requires SizeOk(|t|, before) && before - 1 <= nitems <= before + 1
    ensures SizeOk(|Resize(t, nitems)|, nitems)
  {
    if nitems >= MIN_HTABLE_SIZE && nitems > |t| {
      MaskDouble(0, |t|);
    } else {
      var half := HalfOf(|t|);
      if |t| > MIN_HTABLE_SIZE {
        SizeIsLeast(16, 9, |t|) by { assert Pow2(3) == 8 && Pow2(4) == 16; }
      }
    }
  }

  /** The table stands for map m. */
  ghost predicate Inv<K(!new), V(!new)>(t: Table<K, V>, hash: K -> nat, m: map<K, V>) {
    && TableOk(t.buckets, hash)
    && Represents(t.buckets, hash, m)
    && t.nitems == |m|
    && SizeOk(|t.buckets|, t.nitems)
  }

  lemma HoldsAtPlace<K(!new), V>(t: seq<seq<Entry<K, V>>>, hash: K -> nat, k: K, v: V)
    requires TableOk(t, hash)
    ensures And(hash(k), |t| - 1) < |t|
    ensures var l := t[And(hash(k), |t| - 1)];
            Holds(t, hash, k, v) <==> Place(l, k) < |l| && l[Place(l, k)].val == v
  {
    MaskBound(hash(k), |t|);
  }

  /** Looking a key up in the table looks it up in the map. */
  lemma FindIsLookup<K(!new), V(!new)>(t: Table<K, V>, hash: K -> nat, m: map<K, V>, k: K)
    requires Inv(t, hash, m)
    ensures Find(t, k, hash(k)) == if k in m then Some(m[k]) else None
  {
    var l := t.buckets[Bucket(t, hash(k))];
    if k in m {
      HoldsAtPlace(t.buckets, hash, k, m[k]);
      assert Holds(t.buckets, hash, k, m[k]);
    } else if Place(l, k) < |l| {
      HoldsAtPlace(t.buckets, hash, k, l[Place(l, k)].val);
      assert false;
    }
  }

  lemma PutOk<K(!new), V(!new)>(t: seq<seq<Entry<K, V>>>, hash: K -> nat, m: map<K, V>, k: K, v: V)
    requires TableOk(t, hash) && Represents(t, hash, m)
    requires var b := And(hash(k), |t| - 1); b < |t| && Place(t[b], k) < |t[b]|
    ensures var b := And(hash(k), |t| - 1);
            var t' := t[b := t[b][Place(t[b], k) := Entry(k, v, hash(k))]];
            TableOk(t', hash) && Represents(t', hash, m[k := v]) && k in m && m[k] == t[b][Place(t[b], k)].val
  {
    var b := And(hash(k), |t| - 1);
    var i := Place(t[b], k);
    var t' := t[b := t[b][i := Entry(k, v, hash(k))]];
    HoldsAtPlace(t, hash, k, t[b][i].val);
    forall j, w ensures Holds(t', hash, j, w) <==> j in m[k := v] && m[k := v][j] == w {
      PutHolds(t, hash, k, v, j, w);
      assert Holds(t, hash, j, w) <==> j in m && m[j] == w;
    }
  }

  lemma PutHolds<K(!new), V>(t: seq<seq<Entry<K, V>>>, hash: K -> nat, k: K, v: V, j: K, w: V)
    requires TableOk(t, hash)
    requires var b := And(hash(k), |t| - 1); b < |t| && Place(t[b], k) < |t[b]|
    ensures var b := And(hash(k), |t| - 1);
            var t' := t[b := t[b][Place(t[b], k) := Entry(k, v, hash(k))]];
            && TableOk(t', hash)
            && (Holds(t', hash, j, w) <==> if j == k then w == v else Holds(t, hash, j, w))
  {
    var b := And(hash(k), |t| - 1);
    var i := Place(t[b], k);
    var l' := t[b][i := Entry(k, v, hash(k))];
    var t' := t[b := l'];
    assert BucketOk(t[b], b, |t|, hash) && BucketOk(l', b, |t|, hash);
    var e := Entry(j, w, hash(j));
    if j == k {
      HoldsAtPlace(t', hash, j, w);
      assert l'[i].key == k;
    } else if e in t[b] {
      var x :| 0 <= x < |t[b]| && t[b][x] == e;
      assert l'[x] == e;
    } else {
      forall x | 0 <= x < |l'| ensures l'[x] != e {
      }
    }
  }

  lemma PushHolds<K(!new), V>(t: seq<seq<Entry<K, V>>>, hash: K -> nat, k: K, v: V, j: K, w: V)
    requires TableOk(t, hash)
    requires var b := And(hash(k), |t| - 1); b < |t| && Place(t[b], k) == |t[b]|
    ensures var b := And(hash(k), |t| - 1);
            var t' := t[b := [Entry(k, v, hash(k))] + t[b]];
            && TableOk(t', hash)
            && (Holds(t', hash, j, w) <==> if j == k then w == v else Holds(t, hash, j, w))
  {
    var b := And(hash(k), |t| - 1);
    var l' := [Entry(k, v, hash(k))] + t[b];
    var t' := t[b := l'];
    assert BucketOk(t[b], b, |t|, hash) && BucketOk(l', b, |t|, hash);
  }

  lemma CutHolds<K(!new), V>(t: seq<seq<Entry<K, V>>>, hash: K -> nat, k: K, j: K, w: V)
    requires TableOk(t, hash)
    requires var b := And(hash(k), |t| - 1); b < |t| && Place(t[b], k) < |t[b]|
    ensures var b := And(hash(k), |t| - 1);
            var i := Place(t[b], k);
            var t' := t[b := t[b][..i] + t[b][i + 1..]];
            && TableOk(t', hash)
            && (Holds(t', hash, j, w) <==> j != k && Holds(t, hash, j, w))
  {
    hide And, Place;
    var b := And(hash(k), |t| - 1);
    var l, i := t[b], Place(t[b], k);
    var l' := l[..i] + l[i + 1..];
    var t' := t[b := l'];
    assert BucketOk(l, b, |t|, hash);
    assert l == l[..i] + [l[i]] + l[i + 1..];
    assert BucketOk(l', b, |t|, hash);
  }

  // ---- Conservation of values ----

  /** How often value v occurs in a list of values, in a chain, in the table. */
  function CountIn<V(==)>(vs: seq<V>, v: V): nat {
    if vs == [] then 0 else CountIn(vs[..|vs| - 1], v) + (if vs[|vs| - 1] == v then 1 else 0)
  }

  function CountChain<K, V(==)>(l: seq<Entry<K, V>>, v: V): nat {
    if l == [] then 0 else CountChain(l[..|l| - 1], v) + (if l[|l| - 1].val == v then 1 else 0)
  }

  function CountRange<K, V(==)>(t: seq<seq<Entry<K, V>>>, a: nat, b: nat, v: V): nat
    requires a <= b <= |t|
  {
    if a == b then 0 else CountRange(t, a, b - 1, v) + CountChain(t[b - 1], v)
  }

  function CountTable<K, V(==)>(t: seq<seq<Entry<K, V>>>, v: V): nat {
    CountRange(t, 0, |t|, v)
  }

  lemma {:induction false} CountChainConcat<K, V>(l: seq<Entry<K, V>>, u: seq<Entry<K, V>>, v: V)
    ensures CountChain(l + u, v) == CountChain(l, v) + CountChain(u, v)
  {
    if u == [] {
      assert l + u == l;
    } else {
      CountChainConcat(l, u[..|u| - 1], v);
      assert (l + u)[..|l + u| - 1] == l + u[..|u| - 1];
    }
  }

  lemma CountOne<K, V>(e: Entry<K, V>, v: V)
    ensures CountChain([e], v) == if e.val == v then 1 else 0
  {
    assert [e][..0] == [];
  }

  lemma CountChainSplit<K, V>(l: seq<Entry<K, V>>, i: nat, v: V)
    requires i < |l|
    ensures CountChain(l, v) == CountChain(l[..i] + l[i + 1..], v) + (if l[i].val == v then 1 else 0)
  {
    hide CountChain;
    assert l == (l[..i] + [l[i]]) + l[i + 1..];
    CountChainConcat(l[..i] + [l[i]], l[i + 1..], v);
    CountChainConcat(l[..i], [l[i]], v);
    CountChainConcat(l[..i], l[i + 1..], v);
    CountOne(l[i], v);
  }

  lemma CountChainUpdate<K, V>(l: seq<Entry<K, V>>, i: nat, e: Entry<K, V>, v: V)
    requires i < |l|
    ensures CountChain(l[i := e], v) == CountChain(l, v) - (if l[i].val == v then 1 else 0) + (if e.val == v then 1 else 0)
  {
    CountChainSplit(l, i, v);
    CountChainSplit(l[i := e], i, v);
    assert l[i := e][..i] + l[i := e][i + 1..] == l[..i] + l[i + 1..];
  }

  lemma {:induction false} CountRangeUpdate<K, V>(t: seq<seq<Entry<K, V>>>, b: nat, l: seq<Entry<K, V>>, n: nat, v: V)
    requires b < |t| && n <= |t|
    ensures CountRange(t[b := l], 0, n, v) ==
      CountRange(t, 0, n, v) + (if b < n then CountChain(l, v) - CountChain(t[b], v) else 0)
  {
    if n > 0 {
      CountRangeUpdate(t, b, l, n - 1, v);
    }
  }

  lemma {:induction false} CountRangeSplit<K, V>(t: seq<seq<Entry<K, V>>>, a: nat, b: nat, v: V)
    requires a <= b <= |t|
    ensures CountRange(t, 0, b, v) == CountRange(t, 0, a, v) + CountRange(t, a, b, v)
  {
    if a < b {
      CountRangeSplit(t, a, b - 1, v);
    }
  }

  lemma CountNone<K, V>(v: V)
    ensures CountChain<K, V>([], v) == 0
  {
  }

  lemma {:induction false} CountStayGo<K, V>(l: seq<Entry<K, V>>, size: nat, v: V)
    requires size > 0
    ensures CountChain(Stay(l, size), v) + CountChain(Go(l, size), v) == CountChain(l, v)
  {
    hide CountChain, Moves;
    if l == [] {
      CountNone<K, V>(v);
    } else {
      var l', x := l[1..], l[0];
      CountStayGo(l', size, v);
      CountChainConcat(Go(l', size), [x], v);
      CountChainConcat([x], Stay(l', size), v);
      assert l == [x] + l';
      CountChainConcat([x], l', v);
      CountOne(x, v);
    }
  }

  /** Splitting every chain of a prefix of the table loses and duplicates no value. */
  lemma {:induction false} CountGrowPrefix<K, V>(t: seq<seq<Entry<K, V>>>, n: nat, v: V)
    requires 0 < |t| && n <= |t|
    ensures CountRange(Grow(t), 0, n, v) + CountRange(Grow(t), |t|, |t| + n, v) == CountRange(t, 0, n, v)
  {
    hide Stay, Go, CountChain, Moves;
    if n > 0 {
      CountGrowPrefix(t, n - 1, v);
      CountStayGo(t[n - 1], |t|, v);
    }
  }

  lemma {:induction false} CountShrinkPrefix<K, V>(t: seq<seq<Entry<K, V>>>, n: nat, v: V)
    requires n <= |t| / 2
    ensures CountRange(Shrink(t), 0, n, v) == CountRange(t, 0, n, v) + CountRange(t, |t| / 2, |t| / 2 + n, v)
  {
    if n > 0 {
      CountShrinkPrefix(t, n - 1, v);
      CountChainConcat(t[n - 1], t[n - 1 + |t| / 2], v);
    }
  }

  lemma CountGrow<K, V>(t: seq<seq<Entry<K, V>>>, v: V)
    requires |t| > 0
    ensures CountTable(Grow(t), v) == CountTable(t, v)
  {
    hide CountRange, Stay, Go;
    CountGrowPrefix(t, |t|, v);
    CountRangeSplit(Grow(t), |t|, 2 * |t|, v);
  }

  lemma CountShrink<K, V>(t: seq<seq<Entry<K, V>>>, v: V)
    requires |t| % 2 == 0
    ensures CountTable(Shrink(t), v) == CountTable(t, v)
  {
    hide CountRange;
    CountShrinkPrefix(t, |t| / 2, v);
    CountRangeSplit(t, |t| / 2, |t|, v);
  }

  /** A resize keeps every value as often as it was. */
  lemma CountResize<K, V>(t: seq<seq<Entry<K, V>>>, nitems: int, v: V)
    requires |t| > 0 && |t| % 2 == 0
    ensures CountTable(Resize(t, nitems), v) == CountTable(t, v)
  {
    hide CountTable, Grow, Shrink;
    CountGrow(t, v);
    CountShrink(t, v);
  }

  // ---- The operations refine a finite map ----

  lemma ResizeKeeps<K(!new), V(!new)>(t: seq<seq<Entry<K, V>>>, hash: K -> nat, m: map<K, V>, before: int, nitems: int)
    requires TableOk(t, hash) && Represents(t, hash, m)
    requires SizeOk(|t|, before) && before - 1 <= nitems <= before + 1
    ensures TableOk(Resize(t, nitems), hash) && Represents(Resize(t, nitems), hash, m)
    ensures SizeOk(|Resize(t, nitems)|, nitems)
  {
    hide Stay, Go, BucketOk;
    ResizeSize(t, before, nitems);
    GrowOk(t, hash);
    var half := HalfOf(|t|);
    ShrinkOk(t, hash, half);
    forall k, v ensures Holds(Resize(t, nitems), hash, k, v) <==> k in m && m[k] == v {
      ResizeHolds(t, hash, k, v, nitems);
      assert Holds(t, hash, k, v) <==> k in m && m[k] == v;
    }
  }

  lemma ResizeHolds<K(!new), V>(t: seq<seq<Entry<K, V>>>, hash: K -> nat, k: K, v: V, nitems: int)
    requires TableOk(t, hash) && |t| > 1
    ensures |Resize(t, nitems)| > 0
    ensures Holds(Resize(t, nitems), hash, k, v) <==> Holds(t, hash, k, v)
  {
    GrowHolds(t, hash, k, v);
    var half := HalfOf(|t|);
    forall b, i | 0 <= b < |t| && 0 <= i < |t[b]| ensures And(t[b][i].hash, |t| - 1) == b {
      assert BucketOk(t[b], b, |t|, hash);
    }
    ShrinkHolds(t, hash, k, v, half);
  }

  lemma PushRepresents<K(!new), V(!new)>(t: seq<seq<Entry<K, V>>>, hash: K -> nat, m: map<K, V>, k: K, v: V)
    requires TableOk(t, hash) && Represents(t, hash, m)
    requires var b := And(hash(k), |t| - 1); b < |t| && Place(t[b], k) == |t[b]|
    ensures var b := And(hash(k), |t| - 1);
            var t' := t[b := [Entry(k, v, hash(k))] + t[b]];
            TableOk(t', hash) && Represents(t', hash, m[k := v])
  {
    hide And, Place, Holds, TableOk;
    var b := And(hash(k), |t| - 1);
    var t' := t[b := [Entry(k, v, hash(k))] + t[b]];
    PushHolds(t, hash, k, v, k, v);
    forall j, w ensures Holds(t', hash, j, w) <==> j in m[k := v] && m[k := v][j] == w {
      PushHolds(t, hash, k, v, j, w);
      assert Holds(t, hash, j, w) <==> j in m && m[j] == w;
    }
  }

  /** Inserting into the table is inserting into the map. */
  lemma InsertKeeps<K(!new), V(!new)>(t: Table<K, V>, hash: K -> nat, m: map<K, V>, k: K, v: V)
    requires Inv(t, hash, m)
    ensures Inv(Insert(t, k, v, hash(k)), hash, m[k := v])
  {
    hide And, Place, Represents, Resize;
    var b := Bucket(t, hash(k));
    var l := t.buckets[b];
    FindIsLookup(t, hash, m, k);
    if Place(l, k) < |l| {
      PutOk(t.buckets, hash, m, k, v);
      assert m[k := v].Keys == m.Keys;
    } else {
      PushRepresents(t.buckets, hash, m, k, v);
      ResizeKeeps(t.buckets[b := [Entry(k, v, hash(k))] + l], hash, m[k := v], t.nitems, t.nitems + 1);
    }
  }

  lemma CutRepresents<K(!new), V(!new)>(t: seq<seq<Entry<K, V>>>, hash: K -> nat, m: map<K, V>, k: K)
    requires TableOk(t, hash) && Represents(t, hash, m)
    requires var b := And(hash(k), |t| - 1); b < |t| && Place(t[b], k) < |t[b]|
    ensures var b := And(hash(k), |t| - 1);
            var i := Place(t[b], k);
            var t' := t[b := t[b][..i] + t[b][i + 1..]];
            TableOk(t', hash) && Represents(t', hash, m - {k})
  {
    hide And, Place, Holds, TableOk;
    var b := And(hash(k), |t| - 1);
    var i := Place(t[b], k);
    var t' := t[b := t[b][..i] + t[b][i + 1..]];
    CutHolds(t, hash, k, k, t[b][i].val);
    forall j, w ensures Holds(t', hash, j, w) <==> j in m - {k} && (m - {k})[j] == w {
      CutHolds(t, hash, k, j, w);
      assert Holds(t, hash, j, w) <==> j in m && m[j] == w;
    }
  }

  /** Deleting from the table is deleting from the map. */
  lemma DeleteKeeps<K(!new), V(!new)>(t: Table<K, V>, hash: K -> nat, m: map<K, V>, k: K)
    requires Inv(t, hash, m)
    ensures Inv(Delete(t, k, hash(k)), hash, m - {k})
  {
    hide And, Place, Represents, Resize;
    var b := Bucket(t, hash(k));
    var l := t.buckets[b];
    var i := Place(l, k);
    FindIsLookup(t, hash, m, k);
    if i < |l| {
      CutRepresents(t.buckets, hash, m, k);
      assert m.Keys == (m - {k}).Keys + {k};
      ResizeKeeps(t.buckets[b := l[..i] + l[i + 1..]], hash, m - {k}, t.nitems, t.nitems - 1);
    } else {
      assert m - {k} == m;
    }
  }

  lemma CountInAppend<V>(vs: seq<V>, w: V, v: V)
    ensures CountIn(vs + [w], v) == CountIn(vs, v) + (if w == v then 1 else 0)
  {
    assert (vs + [w])[..|vs + [w]| - 1] == vs;
  }

  lemma InsertCounts<K(!new), V>(t: Table<K, V>, k: K, w: V, h: nat, v: V)
    requires Indexed(t) && |t.buckets| % 2 == 0
    ensures var t' := Insert(t, k, w, h);
            CountTable(t'.buckets, v) + CountIn(t'.released, v) ==
            CountTable(t.buckets, v) + CountIn(t.released, v) + (if w == v then 1 else 0)
  {
    hide CountRange, CountChain, CountIn, Grow, Shrink;
    var b := Bucket(t, h);
    var l := t.buckets[b];
    var i := Place(l, k);
    var e := Entry(k, w, h);
    if i < |l| {
      CountChainUpdate(l, i, e, v);
      CountRangeUpdate(t.buckets, b, l[i := e], |t.buckets|, v);
      CountInAppend(t.released, l[i].val, v);
    } else {
      CountChainConcat([e], l, v);
      CountOne(e, v);
      CountRangeUpdate(t.buckets, b, [e] + l, |t.buckets|, v);
      CountResize(t.buckets[b := [e] + l], t.nitems + 1, v);
    }
  }

  lemma DeleteCounts<K(!new), V>(t: Table<K, V>, k: K, h: nat, v: V)
    requires Indexed(t) && |t.buckets| % 2 == 0
    ensures var t' := Delete(t, k, h);
            CountTable(t'.buckets, v) + CountIn(t'.released, v) == CountTable(t.buckets, v) + CountIn(t.released, v)
  {
    hide CountRange, CountChain, CountIn, Grow, Shrink;
    var b := Bucket(t, h);
    var l := t.buckets[b];
    var i := Place(l, k);
    if i < |l| {
      CountChainSplit(l, i, v);
      CountRangeUpdate(t.buckets, b, l[..i] + l[i + 1..], |t.buckets|, v);
      CountResize(t.buckets[b := l[..i] + l[i + 1..]], t.nitems - 1, v);
      CountInAppend(t.released, l[i].val, v);
    }
  }

  /** The values of a chain from its head on, and of the first n buckets, as htable_free_items
      gives them to the callback. */
  function ChainValues<K, V>(l: seq<Entry<K, V>>): seq<V> {
    if l == [] then [] else ChainValues(l[..|l| - 1]) + [l[|l| - 1].val]
  }

  function TableValues<K, V>(t: seq<seq<Entry<K, V>>>, n: nat): seq<V>
    requires n <= |t|
  {
    if n == 0 then [] else TableValues(t, n - 1) + ChainValues(t[n - 1])
  }

  function FreeItems<K, V>(t: Table<K, V>): seq<V> {
    t.released + TableValues(t.buckets, |t.buckets|)
  }

  /** Values are released bucket by bucket, each bucket from the head of its chain on. */
  lemma {:induction false} ReleaseOrder<K, V>(t: seq<seq<Entry<K, V>>>, n: nat, b: nat, i: nat)
    requires b < n <= |t| && i < |t[b]|
    ensures |TableValues(t, b)| + i < |TableValues(t, n)| && TableValues(t, n)[|TableValues(t, b)| + i] == t[b][i].val
  {
    ChainOrder(t[n - 1]);
    if b < n - 1 {
      ReleaseOrder(t, n - 1, b, i);
    }
  }

  lemma {:induction false} ChainOrder<K, V>(l: seq<Entry<K, V>>)
    ensures |ChainValues(l)| == |l| && forall i :: 0 <= i < |l| ==> ChainValues(l)[i] == l[i].val
  {
    if l != [] {
      ChainOrder(l[..|l| - 1]);
    }
  }

  lemma {:induction false} CountInConcat<V>(a: seq<V>, b: seq<V>, v: V)
    ensures CountIn(a + b, v) == CountIn(a, v) + CountIn(b, v)
  {
    if b == [] {
      assert a + b == a;
    } else {
      CountInConcat(a, b[..|b| - 1], v);
      assert (a + b)[..|a + b| - 1] == a + b[..|b| - 1];
    }
  }

  lemma {:induction false} CountChainValues<K, V>(l: seq<Entry<K, V>>, v: V)
    ensures CountIn(ChainValues(l), v) == CountChain(l, v)
  {
    if l != [] {
      CountChainValues(l[..|l| - 1], v);
      CountInAppend(ChainValues(l[..|l| - 1]), l[|l| - 1].val, v);
    }
  }

  lemma {:induction false} CountTableValues<K, V>(t: seq<seq<Entry<K, V>>>, n: nat, v: V)
    requires n <= |t|
    ensures CountIn(TableValues(t, n), v) == CountRange(t, 0, n, v)
  {
    if n > 0 {
      CountTableValues(t, n - 1, v);
      CountInConcat(TableValues(t, n - 1), ChainValues(t[n - 1]), v);
      CountChainValues(t[n - 1], v);
    }
  }

  // ---- Every sequence of operations ----

  datatype Op<K, V> = Put(key: K, val: V) | Del(key: K)

  ghost predicate Even<K, V>(t: Table<K, V>) {
    Indexed(t) && |t.buckets| % 2 == 0
  }

  lemma EvenStep<K(!new), V(!new)>(t: Table<K, V>, hash: K -> nat, m: map<K, V>)
    requires Inv(t, hash, m)
    ensures Even(t)
  {
    var half := HalfOf(|t.buckets|);
  }

  ghost function Step<K, V>(t: Table<K, V>, hash: K -> nat, op: Op<K, V>): Table<K, V> {
    if !Indexed(t) then t
    else match op
      case Put(k, v) => Insert(t, k, v, hash(k))
      case Del(k) => Delete(t, k, hash(k))
  }

  ghost function After<K, V>(hash: K -> nat, run: seq<Op<K, V>>): Table<K, V> {
    if run == [] then Empty() else Step(After(hash, run[..|run| - 1]), hash, run[|run| - 1])
  }

  /** What the same operations do to a finite map, and the values they store. */
  ghost function MapAfter<K, V>(run: seq<Op<K, V>>): map<K, V> {
    if run == [] then map[]
    else
      var m := MapAfter(run[..|run| - 1]);
      match run[|run| - 1]
      case Put(k, v) => m[k := v]
      case Del(k) => m - {k}
  }

  function Stored<K, V>(run: seq<Op<K, V>>): seq<V> {
    if run == [] then []
    else
      var vs := Stored(run[..|run| - 1]);
      if run[|run| - 1].Put? then vs + [run[|run| - 1].val] else vs
  }

  lemma EmptyInv<K(!new), V(!new)>(hash: K -> nat)
    ensures Inv(Empty<K, V>(), hash, map[])
  {
    assert Pow2(3) == 8;
    var t := Empty<K, V>().buckets;
    forall b | 0 <= b < 8 ensures t[b] == [] {
    }
  }

  /** After every sequence of inserts and deletes the table stands for the map, across all resizes. */
  lemma {:induction false} RunRefinesMap<K(!new), V(!new)>(hash: K -> nat, run: seq<Op<K, V>>)
    ensures Inv(After(hash, run), hash, MapAfter(run))
  {
    if run == [] {
      EmptyInv<K, V>(hash);
    } else {
      var prefix := run[..|run| - 1];
      RunRefinesMap(hash, prefix);
      match run[|run| - 1]
      case Put(k, v) => InsertKeeps(After(hash, prefix), hash, MapAfter(prefix), k, v);
      case Del(k) => DeleteKeeps(After(hash, prefix), hash, MapAfter(prefix), k);
    }
  }

  lemma {:induction false} RunCounts<K(!new), V(!new)>(hash: K -> nat, run: seq<Op<K, V>>, v: V)
    ensures var t := After(hash, run);
            CountTable(t.buckets, v) + CountIn(t.released, v) == CountIn(Stored(run), v)
  {
    if run == [] {
      EmptyCounts<K, V>(v);
    } else {
      var prefix, op := run[..|run| - 1], run[|run| - 1];
      var t := After(hash, prefix);
      RunCounts(hash, prefix, v);
      RunRefinesMap(hash, prefix);
      EvenStep(t, hash, MapAfter(prefix));
      hide CountTable, CountIn, Insert, Delete;
      match op
      case Put(k, w) =>
        InsertCounts(t, k, w, hash(k), v);
        CountInAppend(Stored(prefix), w, v);
      case Del(k) => DeleteCounts(t, k, hash(k), v);
    }
  }

  lemma {:induction false} CountEmptyRange<K, V>(t: seq<seq<Entry<K, V>>>, n: nat, v: V)
    requires n <= |t| && forall b :: 0 <= b < |t| ==> t[b] == []
    ensures CountRange(t, 0, n, v) == 0
  {
    if n > 0 {
      CountEmptyRange(t, n - 1, v);
    }
  }

  lemma EmptyCounts<K, V>(v: V)
    ensures CountTable(Empty<K, V>().buckets, v) == 0
  {
    CountEmptyRange(Empty<K, V>().buckets, 8, v);
  }

  /** Once the table is freed, every value ever stored has been released as often as it was stored. */
  lemma ReleasedExactlyOnce<K(!new), V(!new)>(hash: K -> nat, run: seq<Op<K, V>>, v: V)
    ensures CountIn(FreeItems(After(hash, run)), v) == CountIn(Stored(run), v)
  {
    var t := After(hash, run);
    RunCounts(hash, run, v);
    CountInConcat(t.released, TableValues(t.buckets, |t.buckets|), v);
    CountTableValues(t.buckets, |t.buckets|, v);
  }
}
