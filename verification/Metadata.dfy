/** A message's metadata: a hash table that is created on the first insert. */
module Metadata {
  import opened Options
  import opened HTableSpec
  import opened HTable
  import Masks
  import Chains

  class Metadata<K(==, !new), V(!new)> {
    const hash: K -> nat
    var table: HTable?<K, V>
    /** The inserts so far. */
    ghost var run: seq<Op<K, V>>

    /** The finite map the metadata stands for. */
    ghost function Map(): map<K, V>
      reads this
    {
      MapAfter(run)
    }

    ghost function Parts(): set<object?>
      reads this, table
    {
      if table == null then {} else {table, table.items} + table.nodes
    }

    ghost predicate Valid()
      reads this, table, Parts()
    {
      if table == null then run == []
      else table.Valid() && table.hash == hash && table.Contents() == After(hash, run)
    }

    constructor (hash: K -> nat)
      ensures Valid() && Map() == map[] && this.hash == hash && table == null
    {
      this.hash, table, run := hash, null, [];
    }

    /** metadata_find: no table means no entry. */
    method Find(k: K) returns (r: Option<V>)
      requires Valid()
      ensures r == if k in Map() then Some(Map()[k]) else None
    {
      hide Inv, Indexed, HTableSpec.Find, HTableSpec.After;
      if table == null {
        return None;
      }
      r := table.Find(k);
      RunRefinesMap(hash, run);
      FindIsLookup(table.Contents(), hash, Map(), k);
    }

    /** metadata_insert: creates the table on first use; a missing value stores nothing. The value of a
        known key is replaced, and null is returned for it. */
    method Insert(k: K, value: Option<V>) returns (r: Option<V>)
      requires Valid()
      modifies this, Parts()
      ensures Valid() && fresh(Parts() - old(Parts()))
      ensures value.None? ==> run == old(run) && r == None
      ensures value.Some? ==>
                && run == old(run) + [HTableSpec.Put(k, value.value)] && Map() == old(Map())[k := value.value]
                && r == if k in old(Map()) then None else value
    {
      hide After, MapAfter, Indexed, Chains.Linked, Chains.Placed, Chains.EntriesOfAll, Masks.IsPow2;
      if value.None? {
        return None;
      }
      Create();
      r := Put(table, k, value.value);
    }

    /** _metadata_init, on first use. */
    method Create()
      requires Valid()
      modifies `table
      ensures Valid() && table != null && (if old(table) == null then fresh(Parts()) else table == old(table))
    {
      hide Chains.Linked, Chains.Placed, Chains.EntriesOfAll, Masks.IsPow2;
      if table == null {
        table := new HTable<K, V>(hash);
      }
    }

    /** Inserts into the table and reads the entry back. */
    method Put(t: HTable<K, V>, k: K, v: V) returns (r: Option<V>)
      requires t == table && Valid()
      modifies this`run, t, t.items, t.nodes
      ensures table == old(table) && Valid() && fresh(Parts() - old(Parts()))
      ensures run == old(run) + [HTableSpec.Put(k, v)] && Map() == old(Map())[k := v]
      ensures r == if k in old(Map()) then None else Some(v)
    {
      hide Inv, After, MapAfter, Indexed, HTableSpec.Find, HTableSpec.Insert,
           Chains.Linked, Chains.Placed, Chains.EntriesOfAll, Masks.IsPow2;
      RunRefinesMap(hash, run);
      FindIsLookup(t.Contents(), hash, Map(), k);
      PutNext(hash, run, k, v);
      var isNew := t.Insert(k, v);
      run := run + [HTableSpec.Put(k, v)];
      RunRefinesMap(hash, run);
      FindIsLookup(t.Contents(), hash, Map(), k);
      var found := t.Find(k);
      r := if isNew then found else None;
    }

    /** metadata_free: every value ever inserted, replaced ones included, has been given to the before-free
        callback exactly as often as it was inserted. */
    method Free() returns (released: seq<V>)
      requires Valid()
      modifies Parts()
      ensures forall v :: CountIn(released, v) == CountIn(Stored(run), v)
    {
      hide After, MapAfter, CountIn, Stored, HTableSpec.FreeItems, Chains.Linked, Chains.Placed, Chains.EntriesOfAll, Masks.IsPow2;
      NothingStored<K, V>();
      if table == null {
        return [];
      }
      forall v ensures CountIn(HTableSpec.FreeItems(table.Contents()), v) == CountIn(Stored(run), v) {
        ReleasedExactlyOnce(hash, run, v);
      }
      table.FreeItems();
      released := table.released;
    }
  }

  /** One more insert. */
  lemma PutNext<K(!new), V(!new)>(hash: K -> nat, run: seq<Op<K, V>>, k: K, v: V)
    ensures var next := run + [HTableSpec.Put(k, v)];
            && Indexed(After(hash, run)) && After(hash, next) == HTableSpec.Insert(After(hash, run), k, v, hash(k))
            && MapAfter(next) == MapAfter(run)[k := v]
  {
    RunRefinesMap(hash, run);
    assert (run + [HTableSpec.Put(k, v)])[..|run|] == run;
  }

  lemma NothingStored<K, V>()
    ensures Stored<K, V>([]) == []
  {
  }
}
