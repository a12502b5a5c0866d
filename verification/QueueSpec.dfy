/**
 The value-level view of the shared queue: a sequence of messages in the order they
 were linked, and for every mark the lane of messages that carry it.
 */
module QueueSpec {

  const MAX_QUEUE_SIZE := 100000

  type uint32 = x: int | 0 <= x < 0x1_0000_0000

  /** One message. `id` names the consume call that made it and never changes; `partition` and
      `offset` are the Kafka envelope kept in the metadata; hooks may rewrite `mark` and `body`.
      `mark` is the message's xmark as the lane lookup receives it, see ToMark. */
  datatype Message = Message(id: nat, partition: nat, offset: int, mark: uint32, body: seq<bv8>)

  /** The lookup's conversion of a signed 64-bit xmark to an unsigned 32-bit lane key. */
  function ToMark(xmark: int): uint32 {
    xmark % 0x1_0000_0000
  }

  /** The messages of q that carry mark k, in queue order. */
  function Lane(q: seq<Message>, k: uint32): seq<Message> {
    if q == [] then []
    else if q[|q| - 1].mark == k then Lane(q[..|q| - 1], k) + [q[|q| - 1]]
    else Lane(q[..|q| - 1], k)
  }

  /** i is the position of the oldest message of lane k at or after position a; |q| stands for none. */
  ghost predicate IsFirst(q: seq<Message>, k: uint32, a: nat, i: nat) {
    && a <= i <= |q|
    && (i < |q| ==> q[i].mark == k)
    && (forall j :: a <= j < i ==> q[j].mark != k)
  }

  /** i is the position of the newest message of lane k; -1 stands for none. */
  ghost predicate IsLast(q: seq<Message>, k: uint32, i: int) {
    && -1 <= i < |q|
    && (i >= 0 ==> q[i].mark == k)
    && (forall j :: i < j < |q| ==> q[j].mark != k)
  }

  lemma {:induction false} FirstExists(q: seq<Message>, k: uint32, a: nat)
    requires a <= |q|
    ensures exists i: nat :: IsFirst(q, k, a, i)
    decreases |q| - a
  {
    if a == |q| || q[a].mark == k {
      assert IsFirst(q, k, a, a);
    } else {
      FirstExists(q, k, a + 1);
      var i: nat :| IsFirst(q, k, a + 1, i);
      assert IsFirst(q, k, a, i);
    }
  }

  lemma {:induction false} LastExists(q: seq<Message>, k: uint32)
    ensures exists i :: IsLast(q, k, i)
  {
    if q == [] || q[|q| - 1].mark == k {
      assert IsLast(q, k, |q| - 1);
    } else {
      LastExists(q[..|q| - 1], k);
      var i :| IsLast(q[..|q| - 1], k, i);
      assert IsLast(q, k, i);
    }
  }

  /** The position of the oldest message of lane k, or |q| when the lane is empty. */
  ghost function FirstOf(q: seq<Message>, k: uint32): (i: nat)
    ensures IsFirst(q, k, 0, i)
  {
    FirstExists(q, k, 0);
    var i: nat :| IsFirst(q, k, 0, i);
    i
  }

  /** The position of the newest message of lane k, or -1 when the lane is empty. */
  ghost function LastOf(q: seq<Message>, k: uint32): (i: int)
    ensures IsLast(q, k, i)
  {
    LastExists(q, k);
    var i :| IsLast(q, k, i);
    i
  }

  /** The position of the next message in the lane of message i, or |q| when there is none. */
  ghost function NextOf(q: seq<Message>, i: nat): (j: nat)
    requires i < |q|
    ensures IsFirst(q, q[i].mark, i + 1, j)
  {
    FirstExists(q, q[i].mark, i + 1);
    var j: nat :| IsFirst(q, q[i].mark, i + 1, j);
    j
  }

  /** q without the element at position i. */
  function Without<T>(q: seq<T>, i: nat): seq<T>
    requires i < |q|
  {
    q[..i] + q[i + 1..]
  }

  lemma {:induction false} LaneConcat(a: seq<Message>, b: seq<Message>, k: uint32)
    ensures Lane(a + b, k) == Lane(a, k) + Lane(b, k)
  {
    if b == [] {
      assert a + b == a;
    } else {
      LaneConcat(a, b[..|b| - 1], k);
      assert (a + b)[..|a + b| - 1] == a + b[..|b| - 1];
    }
  }

  lemma {:induction false} LaneOfOthers(a: seq<Message>, k: uint32)
    requires forall j :: 0 <= j < |a| ==> a[j].mark != k
    ensures Lane(a, k) == []
  {
    if a != [] {
      LaneOfOthers(a[..|a| - 1], k);
    }
  }

  /** A lane holds exactly the queue's messages with its mark. */
  lemma {:induction false} LaneMembers(q: seq<Message>, k: uint32, m: Message)
    ensures m in Lane(q, k) <==> m in q && m.mark == k
  {
    if q != [] {
      LaneMembers(q[..|q| - 1], k, m);
      assert q == q[..|q| - 1] + [q[|q| - 1]];
    }
  }

  /** Taking the oldest message of lane k shortens that lane by its head and leaves every other
      lane as it was; the lane is empty exactly when there is no such message. */
  lemma LaneWithoutFirst(q: seq<Message>, k: uint32, j: uint32)
    ensures Lane(q, k) == [] <==> FirstOf(q, k) == |q|
    ensures FirstOf(q, k) < |q| ==>
              Lane(q, k)[0] == q[FirstOf(q, k)] &&
              Lane(Without(q, FirstOf(q, k)), j) == (if j == k then Lane(q, k)[1..] else Lane(q, j))
  {
    var i := FirstOf(q, k);
    if i == |q| {
      LaneOfOthers(q, k);
    } else {
      var a, b := q[..i], q[i + 1..];
      assert q == a + [q[i]] + b;
      LaneConcat(a + [q[i]], b, j);
      LaneConcat(a, [q[i]], j);
      LaneConcat(a, b, j);
      LaneConcat(a + [q[i]], b, k);
      LaneConcat(a, [q[i]], k);
      LaneOfOthers(a, k);
      assert [q[i]][..0] == [];
      assert Lane([q[i]], k) == [q[i]];
      assert j != k ==> Lane([q[i]], j) == [];
    }
  }

  /** Skipping messages of other lanes does not change a lane. */
  lemma LaneSkip(q: seq<Message>, k: uint32, a: nat, b: nat)
    requires a <= b <= |q| && forall j :: a <= j < b ==> q[j].mark != k
    ensures Lane(q[a..], k) == Lane(q[b..], k)
  {
    assert q[a..] == q[a..b] + q[b..];
    LaneConcat(q[a..b], q[b..], k);
    LaneOfOthers(q[a..b], k);
  }

  /** A lane is its message i followed by the lane from the next one on. */
  lemma LaneUnfold(q: seq<Message>, i: nat)
    requires i < |q|
    ensures Lane(q[i..], q[i].mark) == [q[i]] + Lane(q[NextOf(q, i)..], q[i].mark)
  {
    assert q[i..] == [q[i]] + q[i + 1..];
    LaneConcat([q[i]], q[i + 1..], q[i].mark);
    assert [q[i]][..0] == [];
    LaneSkip(q, q[i].mark, i + 1, NextOf(q, i));
  }

  /** Linking a message lengthens its own lane at the end and leaves every other lane as it was. */
  lemma LaneAfterLink(q: seq<Message>, m: Message, j: uint32)
    ensures Lane(q + [m], j) == if m.mark == j then Lane(q, j) + [m] else Lane(q, j)
  {
    assert (q + [m])[..|q + [m]| - 1] == q;
  }

  /** A lane's first position is determined by its description, and so is the last one. */
  lemma FirstUnique(q: seq<Message>, k: uint32, a: nat, i: nat, j: nat)
    requires IsFirst(q, k, a, i) && IsFirst(q, k, a, j)
    ensures i == j
  {
  }

  lemma LastUnique(q: seq<Message>, k: uint32, i: int)
    requires IsLast(q, k, i)
    ensures LastOf(q, k) == i
  {
  }

  lemma FirstAfterLink(q: seq<Message>, m: Message, k: uint32)
    ensures FirstOf(q + [m], k) == if FirstOf(q, k) < |q| || m.mark == k then FirstOf(q, k) else |q| + 1
  {
    var i := FirstOf(q, k);
    FirstUnique(q + [m], k, 0, FirstOf(q + [m], k), if i < |q| || m.mark == k then i else |q| + 1);
  }

  lemma LastAfterLink(q: seq<Message>, m: Message, k: uint32)
    ensures LastOf(q + [m], k) == if m.mark == k then |q| else LastOf(q, k)
  {
    LastUnique(q + [m], k, if m.mark == k then |q| else LastOf(q, k));
  }

  lemma NextAfterLink(q: seq<Message>, m: Message, i: nat)
    requires i <= |q|
    ensures NextOf(q + [m], i) ==
      if i < |q| && (NextOf(q, i) < |q| || m.mark == q[i].mark) then NextOf(q, i) else |q| + 1
  {
    var r := q + [m];
    FirstUnique(r, r[i].mark, i + 1, NextOf(r, i),
                if i < |q| && (NextOf(q, i) < |q| || m.mark == q[i].mark) then NextOf(q, i) else |q| + 1);
  }

  /** The new position, after removing position f, of what stood at position i. */
  function Shift(f: nat, i: int): int {
    if i > f then i - 1 else i
  }

  lemma FirstAfterTake(q: seq<Message>, k: uint32, j: uint32)
    requires FirstOf(q, k) < |q|
    ensures var f := FirstOf(q, k);
            FirstOf(Without(q, f), j) == Shift(f, if j == k then NextOf(q, f) else FirstOf(q, j))
  {
    var f := FirstOf(q, k);
    var i := if j == k then NextOf(q, f) else FirstOf(q, j);
    FirstUnique(Without(q, f), j, 0, FirstOf(Without(q, f), j), Shift(f, i));
  }

  lemma LastAfterTake(q: seq<Message>, k: uint32, j: uint32)
    requires FirstOf(q, k) < |q|
    ensures var f := FirstOf(q, k);
            LastOf(Without(q, f), j) == if LastOf(q, j) == f then -1 else Shift(f, LastOf(q, j))
  {
    var f := FirstOf(q, k);
    LastUnique(Without(q, f), j, if LastOf(q, j) == f then -1 else Shift(f, LastOf(q, j)));
  }

  lemma NextAfterTake(q: seq<Message>, k: uint32, i: nat)
    requires FirstOf(q, k) < |q| && i < |q| - 1
    ensures var f := FirstOf(q, k);
            var p := if i < f then i else i + 1;
            NextOf(q, p) != f && NextOf(Without(q, f), i) == Shift(f, NextOf(q, p))
  {
    var f := FirstOf(q, k);
    var p := if i < f then i else i + 1;
    var r := Without(q, f);
    assert r[i] == q[p];
    FirstUnique(r, r[i].mark, i + 1, NextOf(r, i), Shift(f, NextOf(q, p)));
  }

  /** What queue_add's critical section does from the wait loop's test on: whether the message is
      linked, which condition variables are broadcast, and the queue afterwards. */
  datatype AddResult = AddResult(linked: bool, wakeAny: bool, wakeLane: bool, queue: seq<Message>)

  function AddStep(q: seq<Message>, m: Message): AddResult {
    if |q| > MAX_QUEUE_SIZE then AddResult(false, false, false, q)
    else AddResult(true, q == [], Lane(q, m.mark) == [], q + [m])
  }

  /** What one pass through queue_get's critical section does, and the queue afterwards. */
  datatype GetOutcome = WaitForAny | WaitForLane | Taken(msg: Message)
  datatype GetResult = GetResult(outcome: GetOutcome, queue: seq<Message>)

  /** The caller is in its first wait loop, or in its second one when waitingForLane is set. */
  ghost function GetStep(q: seq<Message>, k: uint32, waitingForLane: bool): GetResult {
    if !waitingForLane && q == [] then GetResult(WaitForAny, q)
    else if FirstOf(q, k) == |q| then GetResult(WaitForLane, q)
    else GetResult(Taken(q[FirstOf(q, k)]), Without(q, FirstOf(q, k)))
  }
}
