/**
 Chains of linked nodes, as the hash table keeps them in its buckets: searching, cutting, splitting and
 joining one chain, and what holds of all the chains of a table together.
 */
module Chains {
  import opened Masks
  import opened HTableSpec
  import opened Sequences

  class Node<K, V> {
    const key: K
    const hash: nat
    var val: V
    var next: Node?<K, V>

    constructor (key: K, val: V, hash: nat, next: Node?<K, V>)
      ensures this.key == key && this.val == val && this.hash == hash && this.next == next
    {
      this.key, this.val, this.hash, this.next := key, val, hash, next;
    }
  }

  function At<K, V>(s: seq<Node<K, V>>, i: int): (n: Node?<K, V>) {
    if 0 <= i < |s| then s[i] else null
  }

  ghost predicate Distinct<K, V>(s: seq<Node<K, V>>) {
    forall i, j :: 0 <= i < j < |s| ==> s[i] != s[j]
  }

  /** s is the chain that starts at head. */
  ghost predicate Chain<K, V>(head: Node?<K, V>, s: seq<Node<K, V>>)
    reads s`next
  {
    && head == At(s, 0)
    && (forall i {:trigger s[i].next} :: 0 <= i < |s| ==> s[i].next == At(s, i + 1))
  }

  ghost function EntryOf<K, V>(n: Node<K, V>): Entry<K, V>
    reads n`val
  {
    Entry(n.key, n.val, n.hash)
  }

  ghost function Entries<K, V>(s: seq<Node<K, V>>): (l: seq<Entry<K, V>>)
    reads s`val
    ensures |l| == |s|
  {
    if s == [] then [] else Entries(s[..|s| - 1]) + [EntryOf(s[|s| - 1])]
  }

  lemma {:induction false} EntriesAre<K, V>(s: seq<Node<K, V>>)
    ensures forall i {:trigger Entries(s)[i]} {:trigger s[i]} :: 0 <= i < |s| ==> Entries(s)[i] == EntryOf(s[i])
  {
    if s != [] {
      EntriesAre(s[..|s| - 1]);
    }
  }

  /** Follows a chain to the node with key k; prev is the node before it. */
  method FindInChain<K(==), V>(head: Node?<K, V>, k: K, ghost s: seq<Node<K, V>>)
    returns (prev: Node?<K, V>, n: Node?<K, V>, ghost i: nat)
    requires Chain(head, s)
    ensures i == Place(Entries(s), k) && n == At(s, i) && prev == At(s, i - 1)
    ensures n != null ==> n.key == k
  {
    prev, n, i := null, head, 0;
    while n != null
      invariant 0 <= i <= |s| && n == At(s, i) && prev == At(s, i - 1)
      invariant forall j :: 0 <= j < i ==> s[j].key != k
      decreases |s| - i
    {
      if n.key == k {
        EntriesAre(s);
        return;
      }
      prev, n, i := n, n.next, i + 1;
    }
    EntriesAre(s);
  }

  /** Takes node i out of chain b. */
  method CutFromChain<K, V>(a: array<Node?<K, V>>, b: nat, prev: Node?<K, V>, n: Node<K, V>,
                            ghost s: seq<Node<K, V>>, ghost i: nat)
    requires b < a.Length && Chain(a[b], s) && Distinct(s)
    requires i < |s| && n == s[i] && prev == At(s, i - 1)
    modifies a, (if prev == null then {} else {prev})`next
    ensures Chain(a[b], s[..i] + s[i + 1..])
    ensures a[..] == old(a[..])[b := a[b]]
  {
    if prev != null {
      prev.next := n.next;
    } else {
      a[b] := n.next;
    }
    ghost var r := s[..i] + s[i + 1..];
    assert forall j :: 0 <= j < |r| ==> r[j] == s[if j < i then j else j + 1];
  }

  /** The nodes of a chain that keep their bucket on doubling, and those that move up. */
  ghost function StayNodes<K, V>(s: seq<Node<K, V>>, size: nat): seq<Node<K, V>>
    requires size > 0
  {
    if s == [] then []
    else if Moves(s[0].hash, size) then StayNodes(s[1..], size)
    else [s[0]] + StayNodes(s[1..], size)
  }

  ghost function GoNodes<K, V>(s: seq<Node<K, V>>, size: nat): seq<Node<K, V>>
    requires size > 0
  {
    if s == [] then []
    else if Moves(s[0].hash, size) then GoNodes(s[1..], size) + [s[0]]
    else GoNodes(s[1..], size)
  }

  /** head leads through kept to rest. */
  ghost predicate LeadsTo<K, V>(head: Node?<K, V>, kept: seq<Node<K, V>>, rest: seq<Node<K, V>>)
    reads kept`next
  {
    && head == At(kept + rest, 0)
    && (forall i {:trigger kept[i].next} :: 0 <= i < |kept| ==> kept[i].next == At(kept + rest, i + 1))
  }

  /** The middle of splitting a chain: head leads through kept to rest, which is untouched, and
      upper leads through moved. */
  ghost predicate Splitting<K, V>(head: Node?<K, V>, upper: Node?<K, V>, kept: seq<Node<K, V>>,
                                  rest: seq<Node<K, V>>, moved: seq<Node<K, V>>)
    reads kept`next, rest`next, moved`next
  {
    && LeadsTo(head, kept, rest) && Chain(At(rest, 0), rest) && Chain(upper, moved)
    && Distinct(kept + rest + moved)
  }

  lemma DistinctParts<K, V>(kept: seq<Node<K, V>>, rest: seq<Node<K, V>>, moved: seq<Node<K, V>>)
    requires rest != [] && Distinct(kept + rest + moved)
    ensures Distinct(kept) && rest[0] !in kept && rest[0] !in rest[1..] && rest[0] !in moved
    ensures forall i :: 0 <= i < |kept| ==> kept[i] !in rest && kept[i] !in moved
  {
    var all := kept + rest + moved;
    assert forall i :: 0 <= i < |kept| ==> kept[i] == all[i];
    assert forall i :: 0 <= i < |rest| ==> rest[i] == all[|kept| + i];
    assert forall i :: 0 <= i < |moved| ==> moved[i] == all[|kept| + |rest| + i];
  }

  lemma DistinctMove<K, V>(kept: seq<Node<K, V>>, rest: seq<Node<K, V>>, moved: seq<Node<K, V>>)
    requires rest != [] && Distinct(kept + rest + moved)
    ensures Distinct(kept + rest[1..] + ([rest[0]] + moved))
  {
    var q, r := kept + rest + moved, kept + rest[1..] + ([rest[0]] + moved);
    var a, n := |kept|, |kept| + |rest| - 1;
    forall i, j | 0 <= i < j < |r| ensures r[i] != r[j] {
      var i' := if i < a || i > n then i else if i == n then a else i + 1;
      var j' := if j < a || j > n then j else if j == n then a else j + 1;
      assert r[i] == q[i'] && r[j] == q[j'];
    }
  }

  /** Takes the first node of rest out of the chain. */
  method SkipFirst<K, V>(a: array<Node?<K, V>>, b: nat, prev: Node?<K, V>, cur: Node<K, V>,
                         ghost kept: seq<Node<K, V>>, ghost rest: seq<Node<K, V>>)
    requires b < a.Length && rest != [] && cur == rest[0] && prev == At(kept, |kept| - 1) && Distinct(kept)
    requires LeadsTo(a[b], kept, rest) && Chain(cur, rest)
    modifies a, (if prev == null then {} else {prev})`next
    ensures LeadsTo(a[b], kept, rest[1..])
    ensures forall j :: 0 <= j < a.Length && j != b ==> a[j] == old(a[j])
  {
    assert cur.next == At(rest, 1);
    if prev == null {
      a[b] := cur.next;
    } else {
      prev.next := cur.next;
    }
  }

  method PushFront<K, V>(a: array<Node?<K, V>>, up: nat, cur: Node<K, V>, ghost moved: seq<Node<K, V>>)
    requires up < a.Length && Chain(a[up], moved) && cur !in moved
    modifies a, cur`next
    ensures Chain(a[up], [cur] + moved)
    ensures forall j :: 0 <= j < a.Length && j != up ==> a[j] == old(a[j])
  {
    cur.next := a[up];
    a[up] := cur;
  }

  lemma ChainTail<K, V>(head: Node?<K, V>, s: seq<Node<K, V>>)
    requires s != [] && Chain(head, s)
    ensures s[0].next == At(s, 1) == At(s[1..], 0) && Chain(At(s[1..], 0), s[1..])
  {
  }

  /** One step of the split: the first node of rest goes to the front of moved. */
  method MoveUp<K, V>(a: array<Node?<K, V>>, b: nat, up: nat, prev: Node?<K, V>, cur: Node<K, V>,
                      ghost kept: seq<Node<K, V>>, ghost rest: seq<Node<K, V>>, ghost moved: seq<Node<K, V>>)
    returns (next: Node?<K, V>)
    requires b < up < a.Length
    requires rest != [] && cur == rest[0] && prev == At(kept, |kept| - 1)
    requires Splitting(a[b], a[up], kept, rest, moved)
    modifies a, cur`next, (if prev == null then {} else {prev})`next
    ensures next == At(rest, 1)
    ensures Splitting(a[b], a[up], kept, rest[1..], [cur] + moved)
    ensures forall j :: 0 <= j < a.Length && j != b && j != up ==> a[j] == old(a[j])
  {
    hide Distinct, Chain, LeadsTo;
    DistinctMove(kept, rest, moved);
    DistinctParts(kept, rest, moved);
    ChainTail(cur, rest);
    next := cur.next;
    SkipFirst(a, b, prev, cur, kept, rest);
    PushFront(a, up, cur, moved);
  }

  /** The other step: the first node of rest stays. */
  lemma Keep<K, V>(head: Node?<K, V>, upper: Node?<K, V>, kept: seq<Node<K, V>>, rest: seq<Node<K, V>>,
                   moved: seq<Node<K, V>>)
    requires rest != [] && Splitting(head, upper, kept, rest, moved)
    ensures Splitting(head, upper, kept + [rest[0]], rest[1..], moved)
    ensures rest[0].next == At(rest, 1)
  {
    assert (kept + [rest[0]]) + rest[1..] == kept + rest;
  }

  /** What is kept and moved so far, with what the rest will give, makes up the split of s. */
  ghost predicate Progress<K, V>(s: seq<Node<K, V>>, size: nat, kept: seq<Node<K, V>>, rest: seq<Node<K, V>>,
                                 moved: seq<Node<K, V>>)
    requires size > 0
  {
    StayNodes(s, size) == kept + StayNodes(rest, size) && GoNodes(s, size) == GoNodes(rest, size) + moved
  }

  lemma ProgressStep<K, V>(s: seq<Node<K, V>>, size: nat, kept: seq<Node<K, V>>, rest: seq<Node<K, V>>,
                           moved: seq<Node<K, V>>)
    requires size > 0 && rest != [] && Progress(s, size, kept, rest, moved)
    ensures if Moves(rest[0].hash, size) then Progress(s, size, kept, rest[1..], [rest[0]] + moved)
            else Progress(s, size, kept + [rest[0]], rest[1..], moved)
  {
    hide Moves, StayNodes, GoNodes;
    SplitFirst(rest, size);
    Assoc(kept, [rest[0]], StayNodes(rest[1..], size));
    Assoc(GoNodes(rest[1..], size), [rest[0]], moved);
  }

  lemma SplitFirst<K, V>(s: seq<Node<K, V>>, size: nat)
    requires size > 0 && s != []
    ensures StayNodes(s, size) == if Moves(s[0].hash, size) then StayNodes(s[1..], size) else [s[0]] + StayNodes(s[1..], size)
    ensures GoNodes(s, size) == if Moves(s[0].hash, size) then GoNodes(s[1..], size) + [s[0]] else GoNodes(s[1..], size)
  {
    hide Moves;
  }

  lemma SplitStart<K, V>(head: Node?<K, V>, upper: Node?<K, V>, s: seq<Node<K, V>>, size: nat)
    requires size > 0 && Splitting(head, upper, [], s, [])
    ensures head == At(s, 0) && Progress(s, size, [], s, [])
  {
    assert [] + s == s;
  }

  lemma ProgressDone<K, V>(s: seq<Node<K, V>>, size: nat, kept: seq<Node<K, V>>, moved: seq<Node<K, V>>)
    requires size > 0 && Progress(s, size, kept, [], moved)
    ensures kept == StayNodes(s, size) && moved == GoNodes(s, size)
  {
  }

  /** Splits chain b of a table of the given size into what stays and what moves up by size. */
  method SplitChain<K, V>(a: array<Node?<K, V>>, b: nat, size: nat, ghost s: seq<Node<K, V>>)
    requires b < size && a.Length == 2 * size
    requires Splitting(a[b], a[b + size], [], s, [])
    requires forall i :: 0 <= i < |s| && Moves(s[i].hash, size) ==> And(s[i].hash, 2 * size - 1) == b + size
    modifies a, s`next
    ensures Splitting(a[b], a[b + size], StayNodes(s, size), [], GoNodes(s, size))
    ensures forall j :: 0 <= j < a.Length && j != b && j != b + size ==> a[j] == old(a[j])
  {
    hide Splitting, Progress, StayNodes, GoNodes, And, Moves;
    var prev: Node?<K, V> := null;
    var cur := a[b];
    ghost var p := 0;
    ghost var kept: seq<Node<K, V>>, moved: seq<Node<K, V>> := [], [];
    SplitStart(a[b], a[b + size], s, size);
    assert s[0..] == s;
    while cur != null
      invariant 0 <= p <= |s| && cur == At(s, p)
      invariant Progress(s, size, kept, s[p..], moved)
      invariant prev == At(kept, |kept| - 1) && (prev != null ==> prev in s)
      invariant Splitting(a[b], a[b + size], kept, s[p..], moved)
      invariant forall j :: 0 <= j < a.Length && j != b && j != b + size ==> a[j] == old(a[j])
      decreases |s| - p
    {
      assert s[p..][0] == cur && s[p..][1..] == s[p + 1..];
      ProgressStep(s, size, kept, s[p..], moved);
      if Moves(cur.hash, size) {
        cur := MoveUp(a, b, And(cur.hash, 2 * size - 1), prev, cur, kept, s[p..], moved);
        moved := [s[p]] + moved;
      } else {
        Keep(a[b], a[b + size], kept, s[p..], moved);
        prev, cur := cur, cur.next;
        kept := kept + [s[p]];
      }
      p := p + 1;
    }
    assert s[p..] == [];
    ProgressDone(s, size, kept, moved);
  }

  /** Appends chain u to chain b: walks to the last node and links the first node of u behind it. */
  method JoinChain<K, V>(a: array<Node?<K, V>>, b: nat, upper: Node?<K, V>, ghost s: seq<Node<K, V>>,
                         ghost u: seq<Node<K, V>>)
    requires b < a.Length && Chain(a[b], s) && Chain(upper, u) && Distinct(s + u)
    modifies a, s`next
    ensures Chain(a[b], s + u)
    ensures forall j :: 0 <= j < a.Length && j != b ==> a[j] == old(a[j])
  {
    if upper == null {
      assert s + u == s;
    } else if a[b] == null {
      a[b] := upper;
      assert s + u == u;
    } else {
      var cur := a[b];
      ghost var i := 0;
      while cur.next != null
        invariant 0 <= i < |s| && cur == s[i]
        invariant Chain(a[b], s)
        decreases |s| - i
      {
        cur, i := cur.next, i + 1;
      }
      assert forall j :: 0 <= j < |s| ==> (s + u)[j] == s[j];
      assert forall j :: 0 <= j < |u| ==> (s + u)[|s| + j] == u[j];
      cur.next := upper;
    }
  }

  // ---- All chains of a table ----

  /** Every node is in the chain its hash selects, once. */
  ghost predicate Placed<K, V>(chains: seq<seq<Node<K, V>>>) {
    && (forall b, i :: 0 <= b < |chains| && 0 <= i < |chains[b]| ==> And(chains[b][i].hash, |chains| - 1) == b)
    && (forall b :: 0 <= b < |chains| ==> Distinct(chains[b]))
  }

  ghost predicate Within<K, V>(s: seq<Node<K, V>>, nodes: set<Node<K, V>>) {
    forall i :: 0 <= i < |s| ==> s[i] in nodes
  }

  /** The heads lead through the chains. */
  ghost predicate Linked<K, V>(heads: seq<Node?<K, V>>, chains: seq<seq<Node<K, V>>>, nodes: set<Node<K, V>>)
    reads nodes`next
  {
    && |heads| == |chains|
    && (forall b {:trigger chains[b]} :: 0 <= b < |chains| ==> Within(chains[b], nodes) && Chain(heads[b], chains[b]))
  }

  ghost function EntriesOfAll<K, V>(chains: seq<seq<Node<K, V>>>, n: nat, nodes: set<Node<K, V>>): (t: seq<seq<Entry<K, V>>>)
    requires n <= |chains| && forall b {:trigger chains[b]} :: 0 <= b < |chains| ==> Within(chains[b], nodes)
    reads nodes`val
    ensures |t| == n
  {
    if n == 0 then [] else EntriesOfAll(chains, n - 1, nodes) + [Entries(chains[n - 1])]
  }

  lemma {:induction false} EntriesOfAllAre<K, V>(chains: seq<seq<Node<K, V>>>, n: nat, nodes: set<Node<K, V>>)
    requires n <= |chains| && forall b {:trigger chains[b]} :: 0 <= b < |chains| ==> Within(chains[b], nodes)
    ensures forall b {:trigger chains[b]} :: 0 <= b < n ==> EntriesOfAll(chains, n, nodes)[b] == Entries(chains[b])
  {
    if n > 0 {
      EntriesOfAllAre(chains, n - 1, nodes);
    }
  }

  /** Chains of different buckets share no node. */
  lemma Apart<K, V>(chains: seq<seq<Node<K, V>>>, b: nat, j: nat, i: nat)
    requires Placed(chains) && b < |chains| && j < |chains| && b != j && i < |chains[j]|
    ensures chains[j][i] !in chains[b]
  {
    hide And;
    assert And(chains[j][i].hash, |chains| - 1) == j;
  }

  /** t is what the chains held before the value of node i of chain b changed. */
  ghost predicate OneOff<K, V>(chains: seq<seq<Node<K, V>>>, nodes: set<Node<K, V>>, n: Node<K, V>,
                               t: seq<seq<Entry<K, V>>>)
    requires forall b {:trigger chains[b]} :: 0 <= b < |chains| ==> Within(chains[b], nodes)
    reads nodes`val
  {
    && |t| == |chains|
    && (forall j :: 0 <= j < |chains| ==> |t[j]| == |chains[j]|)
    && (forall j, x :: 0 <= j < |chains| && 0 <= x < |chains[j]| && chains[j][x] in nodes && chains[j][x] != n ==>
          t[j][x] == Entry(chains[j][x].key, chains[j][x].val, chains[j][x].hash))
  }

  lemma EntriesOfAllOneOff<K, V>(chains: seq<seq<Node<K, V>>>, nodes: set<Node<K, V>>, n: Node<K, V>)
    requires forall b {:trigger chains[b]} :: 0 <= b < |chains| ==> Within(chains[b], nodes)
    ensures OneOff(chains, nodes, n, EntriesOfAll(chains, |chains|, nodes))
  {
    EntriesOfAllAre(chains, |chains|, nodes);
    forall j | 0 <= j < |chains| {
      EntriesAre(chains[j]);
    }
  }

  lemma OverwriteKeeps<K, V>(heads: seq<Node?<K, V>>, chains: seq<seq<Node<K, V>>>, nodes: set<Node<K, V>>,
                             t: seq<seq<Entry<K, V>>>, b: nat, i: nat)
    requires Linked(heads, chains, nodes) && Placed(chains)
    requires b < |chains| && i < |chains[b]|
    requires OneOff(chains, nodes, chains[b][i], t)
    ensures var n := chains[b][i];
            EntriesOfAll(chains, |chains|, nodes) == t[b := t[b][i := Entry(n.key, n.val, n.hash)]]
  {
    hide And;
    var n := chains[b][i];
    EntriesOfAllAre(chains, |chains|, nodes);
    EntriesAre(chains[b]);
    assert Within(chains[b], nodes) && Distinct(chains[b]);
    assert Entries(chains[b]) == t[b][i := Entry(n.key, n.val, n.hash)];
    forall j | 0 <= j < |chains| && j != b ensures Entries(chains[j]) == t[j] {
      EntriesAre(chains[j]);
      assert Within(chains[j], nodes);
      forall x | 0 <= x < |chains[j]| ensures chains[j][x] != n {
        Apart(chains, b, j, x);
      }
    }
  }

  /** Replacing one chain replaces one bucket. */
  lemma EntriesOfAllUpdate<K, V>(chains: seq<seq<Node<K, V>>>, nodes: set<Node<K, V>>, b: nat, r: seq<Node<K, V>>,
                                 more: set<Node<K, V>>)
    requires forall j {:trigger chains[j]} :: 0 <= j < |chains| ==> Within(chains[j], nodes)
    requires b < |chains| && Within(r, more) && nodes <= more
    ensures forall j {:trigger chains[b := r][j]} :: 0 <= j < |chains| ==> Within(chains[b := r][j], more)
    ensures EntriesOfAll(chains, |chains|, nodes)[b] == Entries(chains[b])
    ensures EntriesOfAll(chains[b := r], |chains|, more) == EntriesOfAll(chains, |chains|, nodes)[b := Entries(r)]
  {
    hide Entries, EntriesOfAll;
    var chains' := chains[b := r];
    EntriesOfAllAre(chains, |chains|, nodes);
    forall j | 0 <= j < |chains| ensures Within(chains'[j], more) {
      assert Within(chains[j], nodes);
    }
    EntriesOfAllAre(chains', |chains|, more);
    forall j | 0 <= j < |chains|
      ensures EntriesOfAll(chains', |chains|, more)[j] == EntriesOfAll(chains, |chains|, nodes)[b := Entries(r)][j] {
      assert EntriesOfAll(chains', |chains|, more)[j] == Entries(chains'[j]);
      assert EntriesOfAll(chains, |chains|, nodes)[j] == Entries(chains[j]);
    }
  }

  /** A fresh node in front of chain b. */
  lemma PushKeeps<K, V>(heads: seq<Node?<K, V>>, chains: seq<seq<Node<K, V>>>, nodes: set<Node<K, V>>, b: nat,
                        n: Node<K, V>)
    requires Linked(heads, chains, nodes) && Placed(chains) && b < |chains|
    requires n !in nodes && n.next == heads[b] && And(n.hash, |chains| - 1) == b
    ensures var t := EntriesOfAll(chains, |chains|, nodes);
            var chains' := chains[b := [n] + chains[b]];
            && Linked(heads[b := n], chains', nodes + {n}) && Placed(chains')
            && EntriesOfAll(chains', |chains|, nodes + {n}) == t[b := [EntryOf(n)] + t[b]]
  {
    hide And, Entries, EntriesOfAll;
    var chains' := chains[b := [n] + chains[b]];
    assert Within(chains[b], nodes) && Chain(heads[b], chains[b]);
    assert Distinct([n] + chains[b]);
    EntriesOne(n);
    EntriesJoin([n], chains[b]);
    forall j | 0 <= j < |chains| ensures Within(chains'[j], nodes + {n}) && Chain(heads[b := n][j], chains'[j]) {
      assert Within(chains[j], nodes) && Chain(heads[j], chains[j]);
    }
    EntriesOfAllUpdate(chains, nodes, b, [n] + chains[b], nodes + {n});
  }

  lemma CutEntries<K, V>(s: seq<Node<K, V>>, i: nat)
    requires i < |s|
    ensures Entries(s[..i] + s[i + 1..]) == Entries(s)[..i] + Entries(s)[i + 1..]
  {
    hide Entries;
    EntriesJoin(s[..i], s[i + 1..]);
    EntriesJoin(s[..i], s[i..]);
    EntriesJoin(s[..i + 1], s[i + 1..]);
    assert s == s[..i] + s[i..] == s[..i + 1] + s[i + 1..];
  }

  lemma CutPlaced<K, V>(chains: seq<seq<Node<K, V>>>, b: nat, i: nat)
    requires Placed(chains) && b < |chains| && i < |chains[b]|
    ensures Placed(chains[b := chains[b][..i] + chains[b][i + 1..]])
  {
    hide And;
    var s := chains[b];
    var r := s[..i] + s[i + 1..];
    assert Distinct(s);
    assert forall j :: 0 <= j < |r| ==> r[j] == s[if j < i then j else j + 1];
  }

  /** The chains without node i of chain b. */
  lemma CutKeeps<K, V>(heads: seq<Node?<K, V>>, chains: seq<seq<Node<K, V>>>, nodes: set<Node<K, V>>, b: nat, i: nat)
    requires |heads| == |chains| && Placed(chains) && b < |chains| && i < |chains[b]|
    requires forall j {:trigger chains[j]} :: 0 <= j < |chains| ==> Within(chains[j], nodes)
    requires forall j {:trigger chains[j]} :: 0 <= j < |chains| && j != b ==> Chain(heads[j], chains[j])
    requires Chain(heads[b], chains[b][..i] + chains[b][i + 1..])
    ensures var t := EntriesOfAll(chains, |chains|, nodes);
            var chains' := chains[b := chains[b][..i] + chains[b][i + 1..]];
            && Linked(heads, chains', nodes) && Placed(chains') && i < |t[b]|
            && EntriesOfAll(chains', |chains|, nodes) == t[b := t[b][..i] + t[b][i + 1..]]
  {
    hide And, Placed, Entries, EntriesOfAll, Chain;
    var s := chains[b];
    var r := s[..i] + s[i + 1..];
    assert Within(r, nodes) by {
      assert Within(s, nodes);
      assert forall j :: 0 <= j < |r| ==> r[j] == s[if j < i then j else j + 1];
    }
    CutPlaced(chains, b, i);
    CutEntries(s, i);
    EntriesOfAllUpdate(chains, nodes, b, r, nodes);
  }

  // ---- Doubling and halving ----

  ghost function GrowChains<K, V>(chains: seq<seq<Node<K, V>>>): (g: seq<seq<Node<K, V>>>)
    requires |chains| > 0
    ensures |g| == 2 * |chains|
  {
    seq(2 * |chains|, b requires 0 <= b < 2 * |chains| =>
      if b < |chains| then StayNodes(chains[b], |chains|) else GoNodes(chains[b - |chains|], |chains|))
  }

  ghost function ShrinkChains<K, V>(chains: seq<seq<Node<K, V>>>): (g: seq<seq<Node<K, V>>>)
    ensures |g| == |chains| / 2
  {
    seq(|chains| / 2, b requires 0 <= b < |chains| / 2 => chains[b] + chains[b + |chains| / 2])
  }

  lemma {:induction false} SplitMembers<K, V>(s: seq<Node<K, V>>, size: nat)
    requires size > 0
    ensures forall i :: 0 <= i < |StayNodes(s, size)| ==> StayNodes(s, size)[i] in s && !Moves(StayNodes(s, size)[i].hash, size)
    ensures forall i :: 0 <= i < |GoNodes(s, size)| ==> GoNodes(s, size)[i] in s && Moves(GoNodes(s, size)[i].hash, size)
  {
    hide Moves;
    if s != [] {
      SplitMembers(s[1..], size);
    }
  }

  lemma EntriesJoin<K, V>(s: seq<Node<K, V>>, u: seq<Node<K, V>>)
    ensures Entries(s + u) == Entries(s) + Entries(u)
  {
    EntriesAre(s + u);
    EntriesAre(s);
    EntriesAre(u);
  }

  lemma EntriesOne<K, V>(n: Node<K, V>)
    ensures Entries([n]) == [EntryOf(n)]
  {
  }

  lemma {:induction false} EntriesSplit<K, V>(s: seq<Node<K, V>>, size: nat)
    requires size > 0
    ensures Entries(StayNodes(s, size)) == Stay(Entries(s), size)
    ensures Entries(GoNodes(s, size)) == Go(Entries(s), size)
  {
    hide Moves;
    assert s == [] ==> Entries(s) == [];
    if s != [] {
      EntriesSplit(s[1..], size);
      EntriesOne(s[0]);
      EntriesJoin([s[0]], StayNodes(s[1..], size));
      EntriesJoin(GoNodes(s[1..], size), [s[0]]);
      EntriesAre(s);
      EntriesAre(s[1..]);
      assert Entries(s)[1..] == Entries(s[1..]) && Entries(s)[0] == EntryOf(s[0]);
    }
  }

  lemma PlacedDistinct<K, V>(chains: seq<seq<Node<K, V>>>, b: nat)
    requires Placed(chains) && b < |chains|
    ensures Distinct(chains[b])
  {
  }

  // ---- Doubling, bucket by bucket ----

  /** Chain j when the first b buckets are split. */
  ghost function Midway<K, V>(chains: seq<seq<Node<K, V>>>, b: nat, j: nat): seq<Node<K, V>>
    requires j < 2 * |chains|
  {
    var size := |chains|;
    if j < size then (if j < b then StayNodes(chains[j], size) else chains[j])
    else if j - size < b then GoNodes(chains[j - size], size) else []
  }

  /** s is the chain that starts at head, and is made of the given nodes. */
  ghost predicate ChainIn<K, V>(head: Node?<K, V>, s: seq<Node<K, V>>, nodes: set<Node<K, V>>)
    reads nodes`next
  {
    Within(s, nodes) && Chain(head, s)
  }

  ghost predicate GrownTo<K, V>(heads: seq<Node?<K, V>>, chains: seq<seq<Node<K, V>>>, b: nat, nodes: set<Node<K, V>>)
    reads nodes`next
  {
    && |heads| == 2 * |chains|
    && (forall j :: 0 <= j < 2 * |chains| ==> ChainIn(heads[j], Midway(chains, b, j), nodes))
  }

  lemma MidwayWithin<K, V>(chains: seq<seq<Node<K, V>>>, b: nat, j: nat, nodes: set<Node<K, V>>)
    requires j < 2 * |chains|
    requires forall c {:trigger chains[c]} :: 0 <= c < |chains| ==> Within(chains[c], nodes)
    ensures Within(Midway(chains, b, j), nodes)
    ensures forall i :: 0 <= i < |Midway(chains, b, j)| ==> Midway(chains, b, j)[i] in chains[if j < |chains| then j else j - |chains|]
  {
    hide Moves, StayNodes, GoNodes;
    SplitMembers(chains[if j < |chains| then j else j - |chains|], |chains|);
  }

  lemma MidwayApart<K, V>(chains: seq<seq<Node<K, V>>>, b: nat, j: nat, nodes: set<Node<K, V>>)
    requires Placed(chains) && b < |chains| && j < 2 * |chains| && j != b && j != b + |chains|
    requires forall c {:trigger chains[c]} :: 0 <= c < |chains| ==> Within(chains[c], nodes)
    ensures Midway(chains, b + 1, j) == Midway(chains, b, j)
    ensures forall i :: 0 <= i < |Midway(chains, b, j)| ==> Midway(chains, b, j)[i] !in chains[b]
  {
    hide Placed, Moves, StayNodes, GoNodes;
    MidwayWithin(chains, b, j, nodes);
    OtherApart(chains, b, if j < |chains| then j else j - |chains|);
  }

  lemma SplitReady<K, V>(head: Node?<K, V>, s: seq<Node<K, V>>)
    requires Chain(head, s) && Distinct(s)
    ensures Splitting(head, null, [], s, [])
  {
    assert [] + s == s && s + [] == s;
  }

  lemma SplitDone<K, V>(head: Node?<K, V>, upper: Node?<K, V>, kept: seq<Node<K, V>>, moved: seq<Node<K, V>>)
    requires Splitting(head, upper, kept, [], moved)
    ensures Chain(head, kept) && Chain(upper, moved)
  {
    assert kept + [] == kept;
  }

  /** Where the moving nodes of bucket b go. */
  lemma MovesUp<K, V>(chains: seq<seq<Node<K, V>>>, b: nat)
    requires Placed(chains) && b < |chains| && IsPow2(|chains|)
    ensures forall i :: 0 <= i < |chains[b]| && Moves(chains[b][i].hash, |chains|) ==>
              And(chains[b][i].hash, 2 * |chains| - 1) == b + |chains|
  {
    hide And;
    forall i | 0 <= i < |chains[b]| {
      MaskDouble(chains[b][i].hash, |chains|);
    }
  }

  /** Splits bucket b and leaves the rest. */
  method GrowBucket<K, V>(a: array<Node?<K, V>>, b: nat, size: nat, ghost chains: seq<seq<Node<K, V>>>,
                          ghost nodes: set<Node<K, V>>)
    requires b < size == |chains| && a.Length == 2 * size && IsPow2(size)
    requires Placed(chains) && GrownTo(a[..], chains, b, nodes)
    requires forall c {:trigger chains[c]} :: 0 <= c < |chains| ==> Within(chains[c], nodes)
    modifies a, chains[b]`next
    ensures GrownTo(a[..], chains, b + 1, nodes)
  {
    hide Placed, Moves, And, IsPow2, StayNodes, GoNodes, Splitting;
    ghost var s := chains[b];
    assert a[..][b] == a[b] && a[..][b + size] == a[b + size];
    PlacedDistinct(chains, b);
    ChainOfNone(a[b + size]);
    SplitReady(a[b], s);
    MovesUp(chains, b);
    SplitChain(a, b, size, s);
    SplitDone(a[b], a[b + size], StayNodes(s, size), GoNodes(s, size));
    ghost var heads := a[..];
    forall j | 0 <= j < 2 * |chains| ensures ChainIn(heads[j], Midway(chains, b + 1, j), nodes) {
      MidwayWithin(chains, b + 1, j, nodes);
      if j == b {
        assert Midway(chains, b + 1, j) == StayNodes(s, size);
      } else if j == b + size {
        assert Midway(chains, b + 1, j) == GoNodes(s, size);
      } else {
        MidwayApart(chains, b, j, nodes);
        assert old(a[..][j]) == heads[j];
        assert old(ChainIn(a[..][j], Midway(chains, b, j), nodes));
      }
    }
  }

  lemma ChainOfNone<K, V>(head: Node?<K, V>)
    ensures Chain(head, []) <==> head == null
  {
  }

  /** The doubled table: the first half is copied, the second half filled with null, and every chain
      of the first half is split. */
  method GrowItems<K, V>(items: array<Node?<K, V>>, size: nat, ghost chains: seq<seq<Node<K, V>>>,
                         ghost nodes: set<Node<K, V>>)
    returns (a: array<Node?<K, V>>)
    requires size == items.Length == |chains| > 0 && IsPow2(size)
    requires Linked(items[..], chains, nodes) && Placed(chains)
    modifies nodes`next
    ensures fresh(a) && a.Length == 2 * size && GrownTo(a[..], chains, size, nodes)
  {
    hide Placed, IsPow2, Midway, Chain;
    a := new Node?<K, V>[2 * size](i requires 0 <= i < 2 * size reads items => if i < items.Length then items[i] else null);
    GrowStart(items[..], a[..], chains, nodes);
    var b := 0;
    while b < size
      invariant 0 <= b <= size
      invariant GrownTo(a[..], chains, b, nodes)
    {
      assert Within(chains[b], nodes);
      GrowBucket(a, b, size, chains, nodes);
      b := b + 1;
    }
  }

  lemma GrowStart<K, V>(heads: seq<Node?<K, V>>, a: seq<Node?<K, V>>, chains: seq<seq<Node<K, V>>>,
                        nodes: set<Node<K, V>>)
    requires Linked(heads, chains, nodes) && |a| == 2 * |chains|
    requires forall j :: 0 <= j < |a| ==> a[j] == (if j < |heads| then heads[j] else null)
    ensures GrownTo(a, chains, 0, nodes)
  {
    forall j | 0 <= j < 2 * |chains| ensures ChainIn(a[j], Midway(chains, 0, j), nodes) {
      if j < |chains| {
        assert Within(chains[j], nodes) && Chain(heads[j], chains[j]);
      }
    }
  }

  // ---- Halving, bucket by bucket ----

  /** Chain j of the lower half when the first b buckets are joined with their upper ones. */
  ghost function Joined<K, V>(chains: seq<seq<Node<K, V>>>, half: nat, b: nat, j: nat): seq<Node<K, V>>
    requires |chains| == 2 * half && j < half
  {
    if j < b then chains[j] + chains[j + half] else chains[j]
  }

  ghost predicate ShrunkTo<K, V>(low: seq<Node?<K, V>>, heads: seq<Node?<K, V>>, chains: seq<seq<Node<K, V>>>,
                                 half: nat, b: nat, nodes: set<Node<K, V>>)
    reads nodes`next
  {
    && |low| == half && |heads| == |chains| == 2 * half
    && (forall j {:trigger chains[j]} :: 0 <= j < |chains| ==> Within(chains[j], nodes))
    && (forall j :: 0 <= j < half ==> ChainIn(low[j], Joined(chains, half, b, j), nodes))
    && (forall j :: half + b <= j < 2 * half ==> ChainIn(heads[j], chains[j], nodes))
  }

  lemma OtherApart<K, V>(chains: seq<seq<Node<K, V>>>, b: nat, j: nat)
    requires Placed(chains) && b < |chains| && j < |chains| && b != j
    ensures forall i :: 0 <= i < |chains[j]| ==> chains[j][i] !in chains[b]
  {
    hide Placed;
    forall i | 0 <= i < |chains[j]| {
      Apart(chains, b, j, i);
    }
  }

  lemma JoinedApart<K, V>(chains: seq<seq<Node<K, V>>>, half: nat, b: nat, j: nat)
    requires Placed(chains) && |chains| == 2 * half && b < half && j < half && j != b
    ensures Joined(chains, half, b + 1, j) == Joined(chains, half, b, j)
    ensures forall i :: 0 <= i < |Joined(chains, half, b, j)| ==> Joined(chains, half, b, j)[i] !in chains[b]
  {
    hide Placed;
    OtherApart(chains, b, j);
    OtherApart(chains, b, j + half);
  }

  lemma JoinDistinct<K, V>(chains: seq<seq<Node<K, V>>>, b: nat, j: nat)
    requires Placed(chains) && b < j < |chains|
    ensures Distinct(chains[b] + chains[j])
  {
    hide And;
    OtherApart(chains, b, j);
    assert Distinct(chains[b]) && Distinct(chains[j]);
    var r := chains[b] + chains[j];
    forall i, k | 0 <= i < k < |r| ensures r[i] != r[k] {
      if i < |chains[b]| <= k {
        assert r[k] == chains[j][k - |chains[b]|] && r[i] in chains[b];
      }
    }
  }

  /** Joins bucket b with the one half a table above it and leaves the rest. */
  method ShrinkBucket<K, V>(a: array<Node?<K, V>>, b: nat, items: array<Node?<K, V>>, half: nat,
                            ghost chains: seq<seq<Node<K, V>>>, ghost nodes: set<Node<K, V>>)
    requires a != items && a.Length == half && items.Length == 2 * half && b < half
    requires Placed(chains) && ShrunkTo(a[..], items[..], chains, half, b, nodes)
    modifies a, chains[b]`next
    ensures ShrunkTo(a[..], items[..], chains, half, b + 1, nodes)
  {
    hide Placed;
    assert a[..][b] == a[b] && items[..][b + half] == items[b + half];
    JoinDistinct(chains, b, b + half);
    JoinChain(a, b, items[b + half], chains[b], chains[b + half]);
    ghost var low, heads := a[..], items[..];
    forall j | 0 <= j < half ensures ChainIn(low[j], Joined(chains, half, b + 1, j), nodes) {
      if j == b {
        assert Within(chains[b], nodes) && Within(chains[b + half], nodes);
      } else {
        JoinedApart(chains, half, b, j);
        assert old(a[..][j]) == low[j];
        assert old(ChainIn(a[..][j], Joined(chains, half, b, j), nodes));
      }
    }
    forall j | half + b + 1 <= j < 2 * half ensures ChainIn(heads[j], chains[j], nodes) {
      OtherApart(chains, b, j);
      assert old(items[..][j]) == heads[j];
      assert old(ChainIn(items[..][j], chains[j], nodes));
    }
  }

  /** The halved table: the first half is copied and every chain of the second half is appended to its
      lower one. */
  method ShrinkItems<K, V>(items: array<Node?<K, V>>, half: nat, ghost chains: seq<seq<Node<K, V>>>,
                           ghost nodes: set<Node<K, V>>)
    returns (a: array<Node?<K, V>>)
    requires items.Length == |chains| == 2 * half
    requires Linked(items[..], chains, nodes) && Placed(chains)
    modifies nodes`next
    ensures fresh(a) && a.Length == half && ShrunkTo(a[..], items[..], chains, half, half, nodes)
  {
    hide Placed, Joined, Chain;
    a := new Node?<K, V>[half](i requires 0 <= i < half reads items => if i < items.Length then items[i] else null);
    ShrinkStart(items[..], a[..], chains, half, nodes);
    var b := 0;
    while b < half
      invariant 0 <= b <= half
      invariant ShrunkTo(a[..], items[..], chains, half, b, nodes)
    {
      assert Within(chains[b], nodes);
      ShrinkBucket(a, b, items, half, chains, nodes);
      b := b + 1;
    }
  }

  lemma ShrinkStart<K, V>(heads: seq<Node?<K, V>>, a: seq<Node?<K, V>>, chains: seq<seq<Node<K, V>>>, half: nat,
                          nodes: set<Node<K, V>>)
    requires Linked(heads, chains, nodes) && |a| == half && |chains| == 2 * half
    requires forall j :: 0 <= j < |a| ==> a[j] == heads[j]
    ensures ShrunkTo(a, heads, chains, half, 0, nodes)
  {
    forall j | 0 <= j < half ensures ChainIn(a[j], Joined(chains, half, 0, j), nodes) {
      assert Within(chains[j], nodes) && Chain(heads[j], chains[j]);
    }
    forall j | half <= j < 2 * half ensures ChainIn(heads[j], chains[j], nodes) {
      assert Within(chains[j], nodes);
    }
  }

  // ---- The chains after a resize ----

  lemma DistinctMore<K, V>(n: Node<K, V>, s: seq<Node<K, V>>)
    requires Distinct(s) && n !in s
    ensures Distinct([n] + s) && Distinct(s + [n])
  {
  }

  lemma {:induction false} SplitDistinct<K, V>(s: seq<Node<K, V>>, size: nat)
    requires size > 0 && Distinct(s)
    ensures Distinct(StayNodes(s, size)) && Distinct(GoNodes(s, size))
  {
    hide Moves;
    if s != [] {
      var stay, go := StayNodes(s[1..], size), GoNodes(s[1..], size);
      SplitDistinct(s[1..], size);
      SplitMembers(s[1..], size);
      assert forall i :: 0 <= i < |s[1..]| ==> s[1..][i] != s[0];
      if Moves(s[0].hash, size) {
        DistinctMore(s[0], go);
      } else {
        DistinctMore(s[0], stay);
      }
    }
  }

  lemma GrowPlaced<K, V>(chains: seq<seq<Node<K, V>>>)
    requires |chains| > 0 && Placed(chains) && IsPow2(|chains|)
    ensures Placed(GrowChains(chains))
  {
    hide And, StayNodes, GoNodes, IsPow2;
    var g := GrowChains(chains);
    forall b | 0 <= b < |g| ensures Distinct(g[b]) {
      SplitDistinct(chains[if b < |chains| then b else b - |chains|], |chains|);
    }
    forall b, i | 0 <= b < |g| && 0 <= i < |g[b]| ensures And(g[b][i].hash, |g| - 1) == b {
      var c := if b < |chains| then b else b - |chains|;
      SplitMembers(chains[c], |chains|);
      MaskDouble(g[b][i].hash, |chains|);
    }
  }

  lemma GrowLinked<K, V>(heads: seq<Node?<K, V>>, chains: seq<seq<Node<K, V>>>, nodes: set<Node<K, V>>)
    requires |chains| > 0 && GrownTo(heads, chains, |chains|, nodes)
    ensures Linked(heads, GrowChains(chains), nodes)
  {
    hide Chain;
    var g := GrowChains(chains);
    forall j {:trigger g[j]} | 0 <= j < |g| ensures Within(g[j], nodes) && Chain(heads[j], g[j]) {
      assert ChainIn(heads[j], Midway(chains, |chains|, j), nodes) && Midway(chains, |chains|, j) == g[j];
    }
  }

  /** The entries after doubling are those of HTableSpec.Grow. */
  lemma GrowEntries<K, V>(chains: seq<seq<Node<K, V>>>, nodes: set<Node<K, V>>)
    requires |chains| > 0
    requires forall c {:trigger chains[c]} :: 0 <= c < |chains| ==> Within(chains[c], nodes)
    requires forall c {:trigger GrowChains(chains)[c]} :: 0 <= c < 2 * |chains| ==> Within(GrowChains(chains)[c], nodes)
    ensures EntriesOfAll(GrowChains(chains), 2 * |chains|, nodes) == Grow(EntriesOfAll(chains, |chains|, nodes))
  {
    hide StayNodes, GoNodes, Stay, Go, Entries, EntriesOfAll;
    var g, size := GrowChains(chains), |chains|;
    var t := EntriesOfAll(chains, size, nodes);
    EntriesOfAllAre(chains, size, nodes);
    EntriesOfAllAre(g, 2 * size, nodes);
    forall b | 0 <= b < 2 * size ensures EntriesOfAll(g, 2 * size, nodes)[b] == Grow(t)[b] {
      var c := if b < size then b else b - size;
      assert EntriesOfAll(g, 2 * size, nodes)[b] == Entries(g[b]) && t[c] == Entries(chains[c]);
      GrowEntriesAt(chains, t, b);
    }
  }

  lemma GrowEntriesAt<K, V>(chains: seq<seq<Node<K, V>>>, t: seq<seq<Entry<K, V>>>, b: nat)
    requires 0 < |chains| == |t| && b < 2 * |chains|
    requires var c := if b < |chains| then b else b - |chains|; t[c] == Entries(chains[c])
    ensures Entries(GrowChains(chains)[b]) == Grow(t)[b]
  {
    hide StayNodes, GoNodes, Stay, Go, Entries;
    EntriesSplit(chains[if b < |chains| then b else b - |chains|], |chains|);
  }

  lemma ShrinkPlaced<K, V>(chains: seq<seq<Node<K, V>>>, half: nat)
    requires |chains| == 2 * half && half > 0 && Placed(chains) && IsPow2(half)
    ensures Placed(ShrinkChains(chains))
  {
    hide And, IsPow2;
    var g := ShrinkChains(chains);
    forall b | 0 <= b < |g| ensures Distinct(g[b]) {
      JoinDistinct(chains, b, b + half);
    }
    forall b, i | 0 <= b < |g| && 0 <= i < |g[b]| ensures And(g[b][i].hash, |g| - 1) == b {
      MaskDouble(g[b][i].hash, half);
      MaskBound(g[b][i].hash, half);
    }
  }

  lemma ShrinkLinked<K, V>(low: seq<Node?<K, V>>, heads: seq<Node?<K, V>>, chains: seq<seq<Node<K, V>>>, half: nat,
                           nodes: set<Node<K, V>>)
    requires ShrunkTo(low, heads, chains, half, half, nodes)
    ensures Linked(low, ShrinkChains(chains), nodes)
  {
    hide Chain;
    var g := ShrinkChains(chains);
    forall j {:trigger g[j]} | 0 <= j < |g| ensures Within(g[j], nodes) && Chain(low[j], g[j]) {
      assert ChainIn(low[j], Joined(chains, half, half, j), nodes) && Joined(chains, half, half, j) == g[j];
    }
  }

  /** The entries after halving are those of HTableSpec.Shrink. */
  lemma ShrinkEntries<K, V>(chains: seq<seq<Node<K, V>>>, half: nat, nodes: set<Node<K, V>>)
    requires |chains| == 2 * half
    requires forall c {:trigger chains[c]} :: 0 <= c < |chains| ==> Within(chains[c], nodes)
    requires forall c {:trigger ShrinkChains(chains)[c]} :: 0 <= c < half ==> Within(ShrinkChains(chains)[c], nodes)
    ensures EntriesOfAll(ShrinkChains(chains), half, nodes) == Shrink(EntriesOfAll(chains, |chains|, nodes))
  {
    hide Entries, EntriesOfAll;
    var g := ShrinkChains(chains);
    var t := EntriesOfAll(chains, |chains|, nodes);
    EntriesOfAllAre(chains, |chains|, nodes);
    EntriesOfAllAre(g, half, nodes);
    forall b | 0 <= b < half ensures EntriesOfAll(g, half, nodes)[b] == Shrink(t)[b] {
      EntriesJoin(chains[b], chains[b + half]);
      assert EntriesOfAll(g, half, nodes)[b] == Entries(g[b]) && t[b] == Entries(chains[b]) && t[b + half] == Entries(chains[b + half]);
    }
  }

  lemma LinkedWithin<K, V>(heads: seq<Node?<K, V>>, chains: seq<seq<Node<K, V>>>, nodes: set<Node<K, V>>)
    requires Linked(heads, chains, nodes)
    ensures forall b {:trigger chains[b]} :: 0 <= b < |chains| ==> Within(chains[b], nodes)
  {
  }
}
