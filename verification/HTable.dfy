/**
 The resizing hash table as the source keeps it: an array of chains of nodes, relinked in place.
 Every method is proved to do to the chains what the functions of HTableSpec do to lists.
 */
module HTable {
  import opened Masks
  import opened Options
  import opened HTableSpec
  import opened Chains

  class HTable<K(==), V> {
    const hash: K -> nat
    var items: array<Node?<K, V>>
    var nitems: int
    var size: nat
    var mask: nat
    /** Every value given to the before-free callback. */
    var released: seq<V>
    ghost var chains: seq<seq<Node<K, V>>>
    ghost var nodes: set<Node<K, V>>

    ghost predicate Valid()
      reads this, items, nodes
    {
      && size == items.Length == |chains| > 0 && mask == size - 1 && IsPow2(size)
      && Linked(items[..], chains, nodes)
      && Placed(chains)
      && (forall n :: n in nodes ==> n.hash == hash(n.key))
    }

    /** The table on values. */
    ghost function Contents(): Table<K, V>
      requires Valid()
      reads this, items, nodes
    {
      Table(EntriesOfAll(chains, |chains|, nodes), nitems, released)
    }

    constructor (hash: K -> nat)
      ensures this.hash == hash && fresh(items) && nodes == {}
      ensures Valid() && Contents() == Empty()
    {
      this.hash := hash;
      items := new Node?<K, V>[8](_ => null);
      nitems, size, mask, released := 0, 8, 7, [];
      chains := [[], [], [], [], [], [], [], []];
      nodes := {};
      new;
      assert Pow2(3) == 8;
      assert forall b :: 0 <= b < 8 ==> chains[b] == [] && items[b] == null;
      EntriesOfAllAre(chains, 8, nodes);
      assert forall b :: 0 <= b < 8 ==> Entries(chains[b]) == [];
    }

    /** The node that holds key k, if any, and its place: node i of chain b. */
    method Search(k: K) returns (prev: Node?<K, V>, n: Node?<K, V>, ghost b: nat, ghost i: nat)
      requires Valid()
      ensures Indexed(Contents()) && b == Bucket(Contents(), hash(k)) && b < |chains|
      ensures i == Place(Contents().buckets[b], k) && n == At(chains[b], i) && prev == At(chains[b], i - 1)
      ensures n != null ==> n in nodes && n.key == k && n.hash == hash(k)
      ensures prev != null ==> prev in nodes
      ensures if n == null then i == |Contents().buckets[b]|
              else i < |Contents().buckets[b]| && Contents().buckets[b][i] == EntryOf(n)
    {
      hide And, Placed;
      MaskBound(hash(k), size);
      b := And(hash(k), mask);
      prev, n, i := FindInChain(items[And(hash(k), mask)], k, chains[b]);
      EntriesOfAllAre(chains, |chains|, nodes);
      EntriesAre(chains[b]);
      assert Within(chains[b], nodes);
    }

    /** htable_find. */
    method Find(k: K) returns (r: Option<V>)
      requires Valid()
      ensures Indexed(Contents()) && r == HTableSpec.Find(Contents(), k, hash(k))
    {
      var prev, n, b, i := Search(k);
      EntriesOfAllAre(chains, |chains|, nodes);
      EntriesAre(chains[b]);
      r := if n == null then None else Some(n.val);
    }

    /** Gives the old value to the callback and stores the new one in place. */
    method Overwrite(n: Node<K, V>, v: V, ghost b: nat, ghost i: nat)
      requires Valid() && b < |chains| && i < |chains[b]| && n == chains[b][i]
      modifies this`released, n`val
      ensures Valid() && released == old(released) + [old(n.val)]
      ensures var t := old(Contents()).buckets; i < |t[b]| && Contents().buckets == t[b := t[b][i := Entry(n.key, v, n.hash)]]
    {
      hide Placed, IsPow2, Chain, EntriesOfAll, Entries;
      ghost var t := EntriesOfAll(chains, |chains|, nodes);
      EntriesOfAllOneOff(chains, nodes, n);
      released := released + [n.val];
      n.val := v;
      assert OneOff(chains, nodes, n, t);
      OverwriteKeeps(items[..], chains, nodes, t, b, i);
    }

    /** Puts a new node in front of its chain. */
    method Push(n: Node<K, V>, ghost b: nat)
      requires Valid() && n !in nodes && n.hash == hash(n.key)
      requires b == And(n.hash, mask) && b < size && n.next == items[b]
      modifies this`nodes, this`chains, this`nitems, items
      ensures Valid() && nodes == old(nodes) + {n} && nitems == old(nitems) + 1
      ensures var t := old(Contents()).buckets; Contents().buckets == t[b := [Entry(n.key, n.val, n.hash)] + t[b]]
    {
      hide Linked, Placed, And, IsPow2, Entries, EntriesOfAll;
      PushKeeps(items[..], chains, nodes, b, n);
      items[And(n.hash, mask)] := n;
      nitems := nitems + 1;
      nodes := nodes + {n};
      chains := chains[b := [n] + chains[b]];
      assert items[..] == old(items[..])[b := n];
    }

    /** Gives the value of a deleted entry to the callback and counts it off. */
    method Release(v: V)
      modifies this`released, this`nitems
      ensures nitems == old(nitems) - 1 && released == old(released) + [v]
    {
      released := released + [v];
      nitems := nitems - 1;
    }

    /** Takes node i out of chain b; the other chains are kept. */
    method Unchain(prev: Node?<K, V>, n: Node<K, V>, ghost b: nat, ghost i: nat)
      requires size == items.Length == |chains| && mask == size - 1
      requires Linked(items[..], chains, nodes) && Placed(chains)
      requires b < |chains| && b == And(n.hash, mask)
      requires i < |chains[b]| && n == chains[b][i] && prev == At(chains[b], i - 1)
      modifies items, (if prev == null then {} else {prev})`next
      ensures forall j {:trigger chains[j]} :: 0 <= j < |chains| ==> Within(chains[j], nodes)
      ensures forall j {:trigger chains[j]} :: 0 <= j < |chains| && j != b ==> Chain(items[j], chains[j])
      ensures Chain(items[b], chains[b][..i] + chains[b][i + 1..])
    {
      hide And, Placed;
      PlacedDistinct(chains, b);
      assert Chain(items[b], chains[b]);
      CutFromChain(items, And(n.hash, mask), prev, n, chains[b], i);
      forall j | 0 <= j < |chains| && j != b ensures Chain(items[j], chains[j]) {
        assert old(Chain(items[j], chains[j])) && items[j] == old(items[j]);
        forall x | 0 <= x < |chains[j]| ensures chains[j][x] != prev {
          Apart(chains, b, j, x);
        }
      }
    }

    /** The chains after node i of chain b is taken out. */
    method UnchainAll(prev: Node?<K, V>, n: Node<K, V>, ghost b: nat, ghost i: nat)
      requires size == items.Length == |chains| && mask == size - 1
      requires Linked(items[..], chains, nodes) && Placed(chains)
      requires b < |chains| && b == And(n.hash, mask)
      requires i < |chains[b]| && n == chains[b][i] && prev == At(chains[b], i - 1)
      modifies this`chains, items, (if prev == null then {} else {prev})`next
      ensures |chains| == size && Linked(items[..], chains, nodes) && Placed(chains)
      ensures var t := old(EntriesOfAll(chains, |chains|, nodes));
              i < |t[b]| && EntriesOfAll(chains, |chains|, nodes) == t[b := t[b][..i] + t[b][i + 1..]]
    {
      hide Placed, And, Chain, Entries, EntriesOfAll;
      Unchain(prev, n, b, i);
      CutKeeps(items[..], chains, nodes, b, i);
      chains := chains[b := chains[b][..i] + chains[b][i + 1..]];
    }

    /** Takes a node out of its chain and gives its value to the callback. */
    method Cut(prev: Node?<K, V>, n: Node<K, V>, ghost b: nat, ghost i: nat)
      requires Valid() && b < |chains| && b == And(n.hash, mask)
      requires i < |chains[b]| && n == chains[b][i] && prev == At(chains[b], i - 1)
      modifies this`released, this`chains, this`nitems, items, (if prev == null then {} else {prev})`next
      ensures Valid() && nitems == old(nitems) - 1 && released == old(released) + [n.val]
      ensures var t := old(Contents()).buckets; i < |t[b]| && Contents().buckets == t[b := t[b][..i] + t[b][i + 1..]]
    {
      hide Placed, And, IsPow2, Linked, Entries, EntriesOfAll;
      UnchainAll(prev, n, b, i);
      Release(n.val);
    }

    /** Doubles the table. */
    method Grow()
      requires Valid()
      modifies this`items, this`size, this`mask, this`chains, nodes`next
      ensures Valid() && fresh(items) && Contents().buckets == HTableSpec.Grow(old(Contents()).buckets)
    {
      hide Linked, Placed, IsPow2, And, GrownTo, GrowChains, EntriesOfAll, HTableSpec.Grow;
      GrowPlaced(chains);
      LinkedWithin(items[..], chains, nodes);
      var a := GrowItems(items, size, chains, nodes);
      MaskDouble(0, size);
      GrowLinked(a[..], chains, nodes);
      LinkedWithin(a[..], GrowChains(chains), nodes);
      GrowEntries(chains, nodes);
      Install(a, 2 * size, GrowChains(chains));
    }

    method Install(a: array<Node?<K, V>>, n: nat, ghost now: seq<seq<Node<K, V>>>)
      requires a.Length == n > 0
      modifies this`items, this`size, this`mask, this`chains
      ensures items == a && size == n && mask == n - 1 && chains == now
    {
      items := a;
      size, mask := n, n - 1;
      chains := now;
    }

    /** Halves the table. */
    method Shrink()
      requires Valid() && size > 1
      modifies this`items, this`size, this`mask, this`chains, nodes`next
      ensures Valid() && fresh(items) && Contents().buckets == HTableSpec.Shrink(old(Contents()).buckets)
    {
      hide Linked, Placed, IsPow2, And, ShrunkTo, ShrinkChains, EntriesOfAll, HTableSpec.Shrink;
      ghost var half := HalfOf(size);
      ShrinkPlaced(chains, half);
      LinkedWithin(items[..], chains, nodes);
      var a := ShrinkItems(items, size / 2, chains, nodes);
      ShrinkLinked(a[..], items[..], chains, half, nodes);
      LinkedWithin(a[..], ShrinkChains(chains), nodes);
      ShrinkEntries(chains, half, nodes);
      Install(a, size / 2, ShrinkChains(chains));
    }

    /** _htable_resize. */
    method Resize()
      requires Valid()
      modifies this`items, this`size, this`mask, this`chains, nodes`next
      ensures Valid() && (items == old(items) || fresh(items))
      ensures Contents().buckets == HTableSpec.Resize(old(Contents()).buckets, nitems)
    {
      hide Linked, Placed, IsPow2, EntriesOfAll, HTableSpec.Grow, HTableSpec.Shrink;
      if nitems < MIN_HTABLE_SIZE {
        return;
      }
      if nitems > size {
        Grow();
      } else if nitems <= size / 2 {
        Shrink();
      }
    }

    /** htable_insert: overwrites the value of a known key in place, or adds a new entry in front of its
        chain and resizes. */
    method Insert(k: K, v: V) returns (isNew: bool)
      requires Valid()
      modifies this, items, nodes
      ensures Valid() && (items == old(items) || fresh(items))
      ensures old(nodes) <= nodes && fresh(nodes - old(nodes))
      ensures old(Indexed(Contents())) && Contents() == old(HTableSpec.Insert(Contents(), k, v, hash(k)))
      ensures isNew <==> old(HTableSpec.Find(Contents(), k, hash(k))) == None
    {
      hide Linked, Placed, IsPow2, And, EntriesOfAll, HTableSpec.Resize, HTableSpec.Place;
      var prev, n, b, i := Search(k);
      if n != null {
        Overwrite(n, v, b, i);
        isNew := false;
      } else {
        Add(k, v, b);
        isNew := true;
      }
    }

    /** The second half of htable_insert: a new entry in front of its chain, then the resize. */
    method Add(k: K, v: V, ghost b: nat)
      requires Valid() && b == And(hash(k), mask) && b < size
      modifies this`nodes, this`chains, this`nitems, this`items, this`size, this`mask, items, nodes`next
      ensures Valid() && (items == old(items) || fresh(items))
      ensures old(nodes) <= nodes && fresh(nodes - old(nodes)) && nitems == old(nitems) + 1
      ensures var t := old(Contents()).buckets;
              Contents().buckets == HTableSpec.Resize(t[b := [Entry(k, v, hash(k))] + t[b]], nitems)
    {
      hide Linked, Placed, IsPow2, And, EntriesOfAll, HTableSpec.Resize;
      var n := new Node(k, v, hash(k), items[And(hash(k), mask)]);
      Push(n, b);
      Resize();
    }

    /** htable_delete. */
    method Delete(k: K) returns (found: bool)
      requires Valid()
      modifies this, items, nodes
      ensures Valid() && (items == old(items) || fresh(items)) && nodes == old(nodes)
      ensures old(Indexed(Contents())) && Contents() == old(HTableSpec.Delete(Contents(), k, hash(k)))
      ensures found <==> old(HTableSpec.Find(Contents(), k, hash(k))) != None
    {
      hide Linked, Placed, IsPow2, And, EntriesOfAll, HTableSpec.Resize, HTableSpec.Place;
      var prev, n, b, i := Search(k);
      if n != null {
        Cut(prev, n, b, i);
        Resize();
      }
      found := n != null;
    }

    /** Gives the values of one chain to the callback, from its head on. */
    method ReleaseChain(head: Node?<K, V>, ghost s: seq<Node<K, V>>)
      requires Chain(head, s)
      modifies this`released
      ensures released == old(released) + ChainValues(Entries(s))
    {
      var cur := head;
      ghost var i := 0;
      EntriesAre(s);
      while cur != null
        invariant 0 <= i <= |s| && cur == At(s, i)
        invariant released == old(released) + ChainValues(Entries(s)[..i])
        decreases |s| - i
      {
        var next := cur.next;
        assert Entries(s)[..i + 1][..i] == Entries(s)[..i];
        released := released + [cur.val];
        cur, i := next, i + 1;
      }
      assert Entries(s)[..i] == Entries(s);
    }

    /** htable_free_items; the table is not used again. */
    method FreeItems()
      requires Valid()
      modifies this`released
      ensures Valid() && released == HTableSpec.FreeItems(old(Contents()))
    {
      hide Placed, IsPow2, Chain, Entries, EntriesOfAll, ChainValues;
      ghost var t := EntriesOfAll(chains, |chains|, nodes);
      EntriesOfAllAre(chains, |chains|, nodes);
      var b := 0;
      while b < size
        invariant 0 <= b <= size
        invariant released == old(released) + TableValues(t, b)
      {
        assert t[b] == Entries(chains[b]) && Chain(items[..][b], chains[b]);
        ReleaseChain(items[b], chains[b]);
        b := b + 1;
      }
    }
  }
}
