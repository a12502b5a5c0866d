/**
 The shared queue as the source keeps it: every message node sits in a doubly linked global list
 and in the singly linked chain of its lane. One method is one critical section of the mutex.
 */
module Queue {
  import opened QueueSpec

  class Node {
    const msg: Message
    var next: Node?
    var prev: Node?
    var xnext: Node?

    constructor (msg: Message)
      ensures this.msg == msg && next == null && prev == null && xnext == null
    {
      this.msg := msg;
      next, prev, xnext := null, null, null;
    }
  }

  /** A lane (the source's Xmark record without its condition variables) with its key in the tree. */
  class LaneRecord {
    const mark: uint32
    var first: Node?
    var last: Node?
    var count: int

    constructor (mark: uint32)
      ensures this.mark == mark && first == null && last == null && count == 0
    {
      this.mark := mark;
      first, last, count := null, null, 0;
    }
  }

  function At(s: seq<Node>, i: int): (n: Node?) {
    if 0 <= i < |s| then s[i] else null
  }

  /** The nodes s carry the messages q, each node once. */
  ghost predicate Carries(s: seq<Node>, q: seq<Message>) {
    && |s| == |q|
    && (forall i :: 0 <= i < |s| ==> s[i].msg == q[i])
    && (forall i, j :: 0 <= i < j < |s| ==> s[i] != s[j])
  }

  /** s is the doubly linked list between first and last. */
  ghost predicate GlobalList(s: seq<Node>, first: Node?, last: Node?)
    reads s`next, s`prev
  {
    && first == At(s, 0) && last == At(s, |s| - 1)
    && (forall i {:trigger s[i].next} :: 0 <= i < |s| ==> s[i].next == At(s, i + 1))
    && (forall i {:trigger s[i].prev} :: 0 <= i < |s| ==> s[i].prev == At(s, i - 1))
  }

  /** s is the doubly linked list between first and last, except that its links pass over node f. */
  ghost predicate Spliced(s: seq<Node>, f: nat, first: Node?, last: Node?)
    reads s`next, s`prev
  {
    && first == At(s, if f == 0 then 1 else 0) && last == At(s, if f == |s| - 1 then f - 1 else |s| - 1)
    && (forall i {:trigger s[i].next} :: 0 <= i < |s| && i != f ==> s[i].next == At(s, if i + 1 == f then f + 1 else i + 1))
    && (forall i {:trigger s[i].prev} :: 0 <= i < |s| && i != f ==> s[i].prev == At(s, if i - 1 == f then f - 1 else i - 1))
  }

  lemma AtAfterTake(s: seq<Node>, f: nat, p: int)
    requires f < |s| && p != f && p <= |s|
    ensures At(Without(s, f), Shift(f, p)) == At(s, p)
  {
  }

  lemma SplicedAt(s: seq<Node>, f: nat, first: Node?, last: Node?, i: nat)
    requires f < |s| && Spliced(s, f, first, last) && i < |s| - 1
    ensures Without(s, f)[i].next == At(Without(s, f), i + 1)
    ensures Without(s, f)[i].prev == At(Without(s, f), i - 1)
  {
    var p := if i < f then i else i + 1;
    assert s[p].next == At(s, if p + 1 == f then f + 1 else p + 1);
    assert s[p].prev == At(s, if p - 1 == f then f - 1 else p - 1);
    AtAfterTake(s, f, if p + 1 == f then f + 1 else p + 1);
    AtAfterTake(s, f, if p - 1 == f then f - 1 else p - 1);
  }

  lemma SplicedIsGlobalList(s: seq<Node>, f: nat, first: Node?, last: Node?)
    requires f < |s| && Spliced(s, f, first, last)
    ensures GlobalList(Without(s, f), first, last)
  {
    var r := Without(s, f);
    AtAfterTake(s, f, if f == 0 then 1 else 0);
    AtAfterTake(s, f, if f == |s| - 1 then f - 1 else |s| - 1);
    hide Without, Spliced;
    forall i {:trigger r[i].next} {:trigger r[i].prev} | 0 <= i < |r|
      ensures r[i].next == At(r, i + 1) && r[i].prev == At(r, i - 1)
    {
      SplicedAt(s, f, first, last, i);
    }
  }

  /** Every node of s points to its successor in its own lane. */
  ghost predicate LaneLinks(s: seq<Node>, q: seq<Message>)
    requires |s| == |q|
    reads s`xnext
  {
    forall i {:trigger s[i].xnext} :: 0 <= i < |s| ==> s[i].xnext == At(s, NextOf(q, i))
  }

  /** x holds the two ends and the size of its lane. */
  ghost predicate LaneEnds(x: LaneRecord, s: seq<Node>, q: seq<Message>)
    requires |s| == |q|
    reads x
  {
    && x.first == At(s, FirstOf(q, x.mark))
    && x.last == At(s, LastOf(q, x.mark))
    && x.count == |Lane(q, x.mark)|
  }

  /** Where node i of s + [n] has to point: only the old end of n's lane changes. */
  ghost function SuccessorAfterLink(s: seq<Node>, q: seq<Message>, n: Node, i: nat): Node?
    requires i <= |q|
  {
    if i == LastOf(q, n.msg.mark) then n else if i == |q| then null else At(s, NextOf(q, i))
  }

  lemma SuccessorsAfterLink(s: seq<Node>, q: seq<Message>, n: Node, i: nat)
    requires |s| == |q| && i <= |q|
    ensures At(s + [n], NextOf(q + [n.msg], i)) == SuccessorAfterLink(s, q, n, i)
  {
    NextAfterLink(q, n.msg, i);
    if i < |q| && q[i].mark == n.msg.mark && NextOf(q, i) == |q| {
      LastUnique(q, n.msg.mark, i);
    }
  }

  lemma LanesAfterLink(s: seq<Node>, q: seq<Message>, n: Node, k: uint32)
    requires |s| == |q| && k != n.msg.mark
    ensures At(s + [n], FirstOf(q + [n.msg], k)) == At(s, FirstOf(q, k))
    ensures At(s + [n], LastOf(q + [n.msg], k)) == At(s, LastOf(q, k))
    ensures Lane(q + [n.msg], k) == Lane(q, k)
  {
    FirstAfterLink(q, n.msg, k);
    LastAfterLink(q, n.msg, k);
    LaneAfterLink(q, n.msg, k);
  }

  /** What happens to the ends of lane j when the oldest message of lane k is taken. */
  lemma LanesAfterTake(s: seq<Node>, q: seq<Message>, k: uint32, j: uint32)
    requires |s| == |q| && FirstOf(q, k) < |q|
    ensures var f := FirstOf(q, k);
            var s', q' := Without(s, f), Without(q, f);
            && At(s', FirstOf(q', j)) == At(s, if j == k then NextOf(q, f) else FirstOf(q, j))
            && At(s', LastOf(q', j)) == (if j == k && NextOf(q, f) == |q| then null else At(s, LastOf(q, j)))
            && |Lane(q', j)| == |Lane(q, j)| - (if j == k then 1 else 0)
  {
    hide Lane;
    FirstAfterTake(q, k, j);
    LastAfterTake(q, k, j);
    LaneWithoutFirst(q, k, j);
  }

  /** xtree holds a lane for every mark of q, and each lane's ends and size. */
  ghost predicate Lanes(xtree: map<uint32, LaneRecord>, s: seq<Node>, q: seq<Message>)
    requires |s| == |q|
    reads xtree.Values
  {
    && (forall i :: 0 <= i < |q| ==> q[i].mark in xtree)
    && (forall k {:trigger xtree[k]} :: k in xtree ==> xtree[k].mark == k && LaneEnds(xtree[k], s, q))
  }

  lemma OpenLanes(xtree: map<uint32, LaneRecord>, s: seq<Node>, q: seq<Message>)
    requires |s| == |q| && Lanes(xtree, s, q)
    ensures forall i :: 0 <= i < |q| ==> q[i].mark in xtree
    ensures forall k {:trigger xtree[k]} :: k in xtree ==> xtree[k].mark == k && LaneEnds(xtree[k], s, q)
  {
  }

  lemma OtherLanesAfterLink(xtree: map<uint32, LaneRecord>, s: seq<Node>, q: seq<Message>, n: Node)
    requires |s| == |q| && n.msg.mark in xtree && forall i :: 0 <= i < |q| ==> q[i].mark in xtree
    requires forall k {:trigger xtree[k]} :: k in xtree ==> xtree[k].mark == k && (k != n.msg.mark ==> LaneEnds(xtree[k], s, q))
    requires LaneEnds(xtree[n.msg.mark], s + [n], q + [n.msg])
    ensures Lanes(xtree, s + [n], q + [n.msg])
  {
    forall k | k in xtree && k != n.msg.mark ensures LaneEnds(xtree[k], s + [n], q + [n.msg]) {
      LanesAfterLink(s, q, n, k);
    }
  }

  lemma OtherLanesAfterTake(xtree: map<uint32, LaneRecord>, s: seq<Node>, q: seq<Message>, x: LaneRecord)
    requires |s| == |q| && x.mark in xtree && xtree[x.mark] == x && FirstOf(q, x.mark) < |q|
    requires forall i :: 0 <= i < |q| ==> q[i].mark in xtree
    requires forall k {:trigger xtree[k]} :: k in xtree ==> xtree[k].mark == k && (k != x.mark ==> LaneEnds(xtree[k], s, q))
    requires LaneEnds(x, Without(s, FirstOf(q, x.mark)), Without(q, FirstOf(q, x.mark)))
    ensures Lanes(xtree, Without(s, FirstOf(q, x.mark)), Without(q, FirstOf(q, x.mark)))
  {
    forall k | k in xtree && k != x.mark
      ensures LaneEnds(xtree[k], Without(s, FirstOf(q, x.mark)), Without(q, FirstOf(q, x.mark)))
    {
      LanesAfterTake(s, q, x.mark, k);
    }
  }

  /** Taking the oldest message of a lane leaves every other node's lane successor in place. */
  lemma SuccessorsAfterTake(s: seq<Node>, q: seq<Message>, k: uint32)
    requires Carries(s, q) && LaneLinks(s, q) && FirstOf(q, k) < |q|
    ensures LaneLinks(Without(s, FirstOf(q, k)), Without(q, FirstOf(q, k)))
  {
    var f := FirstOf(q, k);
    var s', q' := Without(s, f), Without(q, f);
    forall i | 0 <= i < |s'| ensures s'[i].xnext == At(s', NextOf(q', i)) {
      NextAfterTake(q, k, i);
      var p := if i < f then i else i + 1;
      assert s'[i] == s[p] && s[p].xnext == At(s, NextOf(q, p));
    }
  }

  /** The messages met by following lane pointers from n through the nodes s, at most `fuel` of them. */
  ghost function Follow(s: seq<Node>, n: Node?, fuel: nat): seq<Message>
    reads s`xnext
  {
    if n == null || n !in s || fuel == 0 then [] else [n.msg] + Follow(s, n.xnext, fuel - 1)
  }

  lemma {:induction false} FollowIsLane(s: seq<Node>, q: seq<Message>, k: uint32, i: nat, fuel: nat)
    requires Carries(s, q) && LaneLinks(s, q)
    requires i <= |q| && (i < |q| ==> q[i].mark == k) && fuel >= |q| - i
    ensures Follow(s, At(s, i), fuel) == Lane(q[i..], k)
    decreases fuel
  {
    if i < |q| {
      assert s[i].xnext == At(s, NextOf(q, i));
      FollowIsLane(s, q, k, NextOf(q, i), fuel - 1);
      LaneUnfold(q, i);
    }
  }

  class Queue {
    var first: Node?
    var last: Node?
    var length: int
    var added: int
    var delivered: int
    /** The binary tree of lanes, as a map from mark to lane. */
    var xtree: map<uint32, LaneRecord>
    /** The nodes of the global list and the messages they carry, oldest first. */
    ghost var nodes: seq<Node>
    ghost var contents: seq<Message>

    ghost predicate Valid()
      reads this, nodes, xtree.Values
    {
      && |nodes| == |contents| && Carries(nodes, contents)
      && GlobalList(nodes, first, last)
      && LaneLinks(nodes, contents)
      && Lanes(xtree, nodes, contents)
      && length == |contents|
    }

    constructor ()
      ensures Valid() && contents == [] && xtree == map[]
      ensures length == 0 && added == 0 && delivered == 0
    {
      first, last, length, added, delivered := null, null, 0, 0, 0;
      xtree := map[];
      nodes := [];
      contents := [];
    }

    method NewLane(mark: uint32) returns (x: LaneRecord)
      requires |nodes| == |contents| && Lanes(xtree, nodes, contents) && mark !in xtree
      modifies this`xtree
      ensures Lanes(xtree, nodes, contents) && fresh(x) && xtree == old(xtree)[mark := x]
    {
      x := new LaneRecord(mark);
      LaneWithoutFirst(contents, mark, mark);
      xtree := xtree[mark := x];
    }

    /** Finds the lane of a mark and creates an empty one when there is none. */
    method FindLane(mark: uint32) returns (x: LaneRecord)
      requires Valid()
      modifies this`xtree
      ensures Valid() && mark in xtree && xtree[mark] == x
      ensures if mark in old(xtree) then xtree == old(xtree) else fresh(x) && xtree == old(xtree)[mark := x]
    {
      hide GlobalList, LaneLinks, Lanes;
      if mark in xtree {
        x := xtree[mark];
      } else {
        x := NewLane(mark);
      }
    }

    /** Appends a node to the global list. */
    method LinkGlobal(n: Node)
      requires Carries(nodes, contents) && GlobalList(nodes, first, last) && n !in nodes
      requires n.next == null && n.prev == null
      modifies this`first, this`last, n`prev, nodes`next
      ensures Carries(nodes + [n], contents + [n.msg]) && GlobalList(nodes + [n], first, last)
    {
      if last == null {
        last := n;
        first := n;
      } else {
        n.prev := last;
        last.next := n;
        last := n;
      }
    }

    /** Counts a linked message; says whether the queue was empty before it. */
    method CountAdded(ghost n: Node) returns (wakeAny: bool)
      modifies this`length, this`added, this`nodes, this`contents
      ensures nodes == old(nodes) + [n] && contents == old(contents) + [n.msg]
      ensures length == old(length) + 1 && added == old(added) + 1
      ensures wakeAny <==> old(length) == 0
    {
      wakeAny := length == 0;
      length := length + 1;
      added := added + 1;
      nodes, contents := nodes + [n], contents + [n.msg];
    }

    /** Appends a node to the chain of its lane and counts it; says whether the lane was empty. */
    method LinkLane(x: LaneRecord, n: Node) returns (wakeLane: bool)
      requires Carries(nodes, contents) && LaneLinks(nodes, contents)
      requires LaneEnds(x, nodes, contents) && x.mark == n.msg.mark
      requires n !in nodes && n.xnext == null
      modifies x, nodes`xnext
      ensures LaneLinks(nodes + [n], contents + [n.msg])
      ensures LaneEnds(x, nodes + [n], contents + [n.msg])
      ensures wakeLane <==> Lane(contents, n.msg.mark) == []
    {
      FirstAfterLink(contents, n.msg, n.msg.mark);
      LastAfterLink(contents, n.msg, n.msg.mark);
      LaneAfterLink(contents, n.msg, n.msg.mark);
      forall i | 0 <= i <= |contents|
        ensures At(nodes + [n], NextOf(contents + [n.msg], i)) == SuccessorAfterLink(nodes, contents, n, i)
      {
        SuccessorsAfterLink(nodes, contents, n, i);
      }
      if x.last == null {
        x.last := n;
        x.first := n;
      } else {
        x.last.xnext := n;
        x.last := n;
      }
      wakeLane := x.count == 0;
      x.count := x.count + 1;
    }

    /** The lane half of linking a node: its own lane grows, the others stay. */
    method LinkLanes(x: LaneRecord, n: Node) returns (wakeLane: bool)
      requires Carries(nodes, contents) && LaneLinks(nodes, contents) && Lanes(xtree, nodes, contents)
      requires n !in nodes && n.xnext == null
      requires n.msg.mark in xtree && x == xtree[n.msg.mark]
      modifies x, nodes`xnext
      ensures LaneLinks(nodes + [n], contents + [n.msg])
      ensures Lanes(xtree, nodes + [n], contents + [n.msg])
      ensures wakeLane <==> Lane(contents, n.msg.mark) == []
    {
      hide LaneLinks, LaneEnds, Lane;
      OpenLanes(xtree, nodes, contents);
      wakeLane := LinkLane(x, n);
      OtherLanesAfterLink(xtree, nodes, contents, n);
    }

    /** Links a node into its lane and into the global list, with the counters and the broadcasts. */
    method Link(x: LaneRecord, n: Node) returns (wakeAny: bool, wakeLane: bool)
      requires Valid() && n !in nodes && n.msg.mark in xtree && x == xtree[n.msg.mark]
      requires n.next == null && n.prev == null && n.xnext == null
      modifies this`first, this`last, this`length, this`added, this`nodes, this`contents
      modifies x, nodes`xnext, n`prev, nodes`next
      ensures Valid() && contents == old(contents) + [n.msg]
      ensures wakeAny <==> old(contents) == []
      ensures wakeLane <==> Lane(old(contents), n.msg.mark) == []
      ensures added == old(added) + 1
    {
      hide Carries, GlobalList, LaneLinks, Lanes;
      wakeLane := LinkLanes(x, n);
      LinkGlobal(n);
      wakeAny := CountAdded(n);
    }

    /** queue_add's critical section from the wait loop's test on: a full queue makes the caller
        wait, otherwise the message is linked. The flags say which condition variables are broadcast. */
    method TryAdd(m: Message) returns (linked: bool, wakeAny: bool, wakeLane: bool)
      requires Valid()
      modifies this, nodes, xtree.Values
      ensures Valid()
      ensures AddResult(linked, wakeAny, wakeLane, contents) == AddStep(old(contents), m)
      ensures added == old(added) + (if linked then 1 else 0) && delivered == old(delivered)
      ensures xtree.Keys == old(xtree).Keys + {m.mark}
    {
      hide Carries, GlobalList, LaneLinks, Lanes;
      var x := FindLane(m.mark);
      linked, wakeAny, wakeLane := length <= MAX_QUEUE_SIZE, false, false;
      if linked {
        var n := new Node(m);
        wakeAny, wakeLane := Link(x, n);
      }
    }

    /** Removes the head of a non-empty lane's chain. When the lane runs empty, resetting the count changes
        nothing, but resetting the end is needed: it still points to the removed node. */
    method UnlinkLane(x: LaneRecord) returns (n: Node)
      requires Carries(nodes, contents) && LaneLinks(nodes, contents) && LaneEnds(x, nodes, contents)
      requires x.first != null
      modifies x
      ensures FirstOf(contents, x.mark) < |contents| && n == nodes[FirstOf(contents, x.mark)]
      ensures LaneEnds(x, Without(nodes, FirstOf(contents, x.mark)), Without(contents, FirstOf(contents, x.mark)))
      ensures x.first == null ==> old(x.last) == n
    {
      LanesAfterTake(nodes, contents, x.mark, x.mark);
      n := x.first;
      x.first := x.first.xnext;
      x.count := x.count - 1;
      if x.first == null {
        LastUnique(contents, x.mark, FirstOf(contents, x.mark));
        x.last := null;
        LaneWithoutFirst(Without(contents, FirstOf(contents, x.mark)), x.mark, x.mark);
        assert x.count == 0;
        x.count := 0;
      }
    }

    /** The lane half of taking a message: its own lane loses its head, the others stay. */
    method UnlinkLanes(x: LaneRecord) returns (n: Node)
      requires Carries(nodes, contents) && LaneLinks(nodes, contents) && Lanes(xtree, nodes, contents)
      requires x.mark in xtree && x == xtree[x.mark] && x.first != null
      modifies x
      ensures FirstOf(contents, x.mark) < |contents| && n == nodes[FirstOf(contents, x.mark)]
      ensures n.msg == contents[FirstOf(contents, x.mark)]
      ensures Lanes(xtree, Without(nodes, FirstOf(contents, x.mark)), Without(contents, FirstOf(contents, x.mark)))
    {
      hide LaneLinks, IsFirst, IsLast, Without;
      n := UnlinkLane(x);
      OtherLanesAfterTake(xtree, nodes, contents, x);
    }

    /** Splices node f out of the global list. */
    method UnlinkGlobal(n: Node, ghost f: nat)
      requires Carries(nodes, contents) && GlobalList(nodes, first, last)
      requires f < |nodes| && n == nodes[f]
      modifies this`first, this`last, nodes`next, nodes`prev
      ensures Spliced(nodes, f, first, last)
    {
      var next, prev := n.next, n.prev;
      if next != null {
        next.prev := prev;
      } else {
        last := prev;
      }
      if prev != null {
        prev.next := next;
      } else {
        first := next;
      }
    }

    /** Counts a taken message. The reset at the end never changes a value. */
    method CountDelivered(ghost f: nat)
      requires Carries(nodes, contents) && f < |contents| && length == |contents|
      requires GlobalList(Without(nodes, f), first, last)
      modifies this`last, this`length, this`delivered, this`nodes, this`contents
      ensures last == old(last) && delivered == old(delivered) + 1
      ensures nodes == Without(old(nodes), f) && contents == Without(old(contents), f)
      ensures length == |contents| && |nodes| == |contents| && Carries(nodes, contents)
    {
      length := length - 1;
      delivered := delivered + 1;
      if first == null {
        assert last == null && length == 0;
        last := null;
        length := 0;
      }
      nodes, contents := Without(nodes, f), Without(contents, f);
    }

    /** The global half of taking a message. */
    method RemoveGlobal(n: Node, ghost f: nat)
      requires Carries(nodes, contents) && GlobalList(nodes, first, last) && length == |contents|
      requires f < |nodes| && n == nodes[f]
      modifies this`first, this`last, this`length, this`delivered, this`nodes, this`contents, nodes`next, nodes`prev
      ensures delivered == old(delivered) + 1 && length == |contents| && |nodes| == |contents|
      ensures nodes == Without(old(nodes), f) && contents == Without(old(contents), f)
      ensures Carries(nodes, contents) && GlobalList(nodes, first, last)
    {
      hide GlobalList, Spliced;
      UnlinkGlobal(n, f);
      SplicedIsGlobalList(nodes, f, first, last);
      CountDelivered(f);
    }

    /** Takes the oldest message of a non-empty lane out of its lane and of the global list. */
    method Unlink(x: LaneRecord) returns (m: Message)
      requires Valid() && x.mark in xtree && x == xtree[x.mark] && x.first != null
      modifies x, this`first, this`last, this`length, this`delivered, this`nodes, this`contents, nodes`next, nodes`prev
      ensures Valid() && delivered == old(delivered) + 1
      ensures FirstOf(old(contents), x.mark) < |old(contents)|
      ensures m == old(contents)[FirstOf(old(contents), x.mark)]
      ensures contents == Without(old(contents), FirstOf(old(contents), x.mark))
    {
      hide Carries, GlobalList, Spliced, LaneLinks, Lanes, IsFirst;
      ghost var f := FirstOf(contents, x.mark);
      var n := UnlinkLanes(x);
      SuccessorsAfterTake(nodes, contents, x.mark);
      RemoveGlobal(n, f);
      m := n.msg;
    }

    /** The tests of the two wait loops read the emptiness of the queue and of the lane. */
    lemma EmptyTests(mark: uint32)
      requires Valid() && mark in xtree
      ensures first == null <==> contents == []
      ensures xtree[mark].mark == mark && (xtree[mark].first == null <==> FirstOf(contents, mark) == |contents|)
    {
    }

    /** Following the chain of a lane visits exactly the messages of the global list with its mark, in
        list order, and ends: the chain has no cycle and its recorded count is the number visited. */
    lemma LaneChain(mark: uint32, fuel: nat)
      requires Valid() && mark in xtree && fuel >= |contents|
      ensures Follow(nodes, xtree[mark].first, fuel) == Lane(contents, mark)
      ensures xtree[mark].count == |Lane(contents, mark)|
    {
      var i := FirstOf(contents, mark);
      FollowIsLane(nodes, contents, mark, i, fuel);
      LaneSkip(contents, mark, 0, i);
      assert contents[0..] == contents;
    }

    /** One pass through queue_get's critical section, from the point where the caller's first loop
        (waitingForLane is false) or its second one tests its condition. */
    method TryGet(mark: uint32, waitingForLane: bool) returns (r: GetOutcome)
      requires Valid()
      modifies this, nodes, xtree.Values
      ensures Valid() && added == old(added)
      ensures GetResult(r, contents) == GetStep(old(contents), mark, waitingForLane)
      ensures delivered == old(delivered) + (if r.Taken? then 1 else 0)
      ensures xtree.Keys == old(xtree).Keys + {mark}
    {
      hide Carries, GlobalList, LaneLinks, Lanes;
      var x := FindLane(mark);
      EmptyTests(mark);
      if !waitingForLane && first == null {
        r := WaitForAny;
      } else if x.first == null {
        r := WaitForLane;
      } else {
        var m := Unlink(x);
        r := Taken(m);
      }
    }

    method Length() returns (n: int)
      requires Valid()
      ensures n == |contents|
    {
      n := length;
    }

    /** Reads and resets the counter of added messages. */
    method TakeAdded() returns (n: int)
      requires Valid()
      modifies this`added
      ensures Valid() && n == old(added) && added == 0
    {
      n := added;
      added := 0;
    }

    /** Reads and resets the counter of delivered messages. */
    method TakeDelivered() returns (n: int)
      requires Valid()
      modifies this`delivered
      ensures Valid() && n == old(delivered) && delivered == 0
    {
      n := delivered;
      delivered := 0;
    }
  }
}
