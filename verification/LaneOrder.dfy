/** Messages of one lane leave the queue in the order in which they were added, in every run. */
module LaneOrder {
  import opened Options
  import opened QueueSpec
  import opened Protocol
  import opened Conservation

  // ---- No message is linked twice ----

  /** The linked messages have different ids, and no consumer holds one of them any more. */
  ghost predicate LinkedOnce(s: State) {
    && (forall i :: 0 <= i < |s.linked| ==> Gone(s, s.linked[i]))
    && (forall i, j :: 0 <= i < j < |s.linked| ==> s.linked[i].id != s.linked[j].id)
  }

  ghost predicate Gone(s: State, m: Message) {
    m.id < |s.consumed| && CountConsumers(s.consumers, m.id) == 0
  }

  /** No step but a poll puts a message into a consumer's hand, and a poll only a new one. */
  lemma HandsShrink(s: State, a: Action, id: nat)
    requires Hands(s) && id < |s.consumed|
    ensures CountConsumers(Next(s, a).consumers, id) <= CountConsumers(s.consumers, id)
    ensures |s.consumed| <= |Next(s, a).consumed|
  {
    hide Lane, ToMark, CountConsumers;
    match a
    case CheckConsuming(c) =>
      if c < |s.consumers| {
        CountConsumersUpdate(s.consumers, c, s.consumers[c].(pc := if s.consuming then CPoll else CDone), id);
      }
    case Poll(c, polled) =>
      if c < |s.consumers| {
        assert ConsumerHolds(s.consumers[c]);
        CountConsumersUpdate(s.consumers, c, DoPoll(s, c, polled).consumers[c], id);
      }
    case ConsumerHook(c, v) =>
      if c < |s.consumers| {
        CountConsumersUpdate(s.consumers, c, DoConsumerHook(s, c, v).consumers[c], id);
      }
    case Add(c) =>
      if c < |s.consumers| {
        CountConsumersUpdate(s.consumers, c, DoAdd(s, c).consumers[c], id);
      }
    case Get(p) => CountConsumersWoken(s.consumers, id);
    case _ =>
  }

  /** The message that an add links was in one hand only, and is in none afterwards. */
  lemma LinkLeavesHands(s: State, c: nat)
    requires Conserved(s) && c < |s.consumers| && s.consumers[c].hand.Some?
    ensures var id := s.consumers[c].hand.value.id;
            id < |s.consumed| && CountConsumers(s.consumers, id) == 1
            && CountConsumers(s.consumers[c := Consumer(CTop, None)], id) == 0
  {
    hide CountConsumers, Count, CountProducers;
    var id := s.consumers[c].hand.value.id;
    CountConsumersUpdate(s.consumers, c, Consumer(CTop, None), id);
    assert Places(s, id) <= 1;
  }

  lemma StepKeepsLinkedOnce(s: State, a: Action)
    requires LinkedOnce(s) && Hands(s) && Conserved(s)
    ensures LinkedOnce(Next(s, a))
  {
    hide CountConsumers, Conserved, Hands, Lane;
    forall i | 0 <= i < |s.linked| ensures Gone(Next(s, a), s.linked[i]) {
      HandsShrink(s, a, s.linked[i].id);
    }
    if a.Add? && a.c < |s.consumers| && s.consumers[a.c].hand.Some? {
      LinkLeavesHands(s, a.c);
    }
  }

  lemma {:induction false} NothingLinkedTwice(n: nat, lanes: seq<uint32>, run: seq<Action>)
    ensures LinkedOnce(After(Start(n, lanes), run))
  {
    hide Next, Hands, Conserved;
    if run != [] {
      NothingLinkedTwice(n, lanes, run[..|run| - 1]);
      EveryRun(n, lanes, run[..|run| - 1]);
      StepKeepsLinkedOnce(After(Start(n, lanes), run[..|run| - 1]), run[|run| - 1]);
    }
  }

  // ---- Positions in a lane ----

  /** Message i of q stands in its lane behind the lane's messages before it. */
  lemma LaneAt(q: seq<Message>, i: nat)
    requires i < |q|
    ensures var k := q[i].mark;
            |Lane(q[..i], k)| < |Lane(q, k)| && Lane(q, k)[|Lane(q[..i], k)|] == q[i]
  {
    hide Lane;
    var k := q[i].mark;
    assert q == q[..i] + q[i..];
    LaneConcat(q[..i], q[i..], k);
    LaneUnfold(q, i);
  }

  lemma LaneGrows(q: seq<Message>, i: nat, j: nat, k: uint32)
    requires i <= j <= |q|
    ensures |Lane(q[..i], k)| <= |Lane(q[..j], k)|
    ensures i < j && q[i].mark == k ==> |Lane(q[..i], k)| < |Lane(q[..j], k)|
  {
    hide Lane;
    assert q[..j] == q[..i] + q[i..j];
    LaneConcat(q[..i], q[i..j], k);
    if i < j && q[i].mark == k {
      assert q[..j][..i] == q[..i];
      LaneAt(q[..j], i);
    }
  }

  /** Where message x of a lane stands in the queue. */
  lemma {:induction false} LaneSource(q: seq<Message>, k: uint32, x: nat) returns (i: nat)
    requires x < |Lane(q, k)|
    ensures i < |q| && q[i] == Lane(q, k)[x] && q[i].mark == k && |Lane(q[..i], k)| == x
  {
    var init := q[..|q| - 1];
    if x < |Lane(init, k)| {
      i := LaneSource(init, k, x);
      assert q[..i] == init[..i];
    } else {
      i := |q| - 1;
    }
  }

  /** Messages of one lane stand in the queue as they stand in the lane. */
  lemma LaneInOrder(q: seq<Message>, k: uint32, x: nat, y: nat) returns (a: nat, b: nat)
    requires x < y < |Lane(q, k)|
    ensures a < b < |q| && q[a] == Lane(q, k)[x] && q[b] == Lane(q, k)[y]
  {
    hide Lane;
    a := LaneSource(q, k, x);
    b := LaneSource(q, k, y);
    if b <= a {
      LaneGrows(q, b, a, k);
    }
  }

  /** When message j of a lane has been taken, every message added to that lane before it was taken earlier. */
  lemma TakenInOrder(n: nat, lanes: seq<uint32>, run: seq<Action>, i: nat, j: nat) returns (a: nat, b: nat)
    requires var s := After(Start(n, lanes), run);
             i < j < |s.linked| && s.linked[i].mark == s.linked[j].mark && s.linked[j] in s.taken
    ensures var s := After(Start(n, lanes), run);
            a < b < |s.taken| && s.taken[a] == s.linked[i] && s.taken[b] == s.linked[j]
  {
    hide After, Start, Hands, Conserved, Counted, Gone;
    var s := After(Start(n, lanes), run);
    EveryRun(n, lanes, run);
    NothingLinkedTwice(n, lanes, run);
    a, b := TakenInOrderAt(s, i, j);
  }

  lemma TakenInOrderAt(s: State, i: nat, j: nat) returns (a: nat, b: nat)
    requires Fifo(s) && LinkedOnce(s)
    requires i < j < |s.linked| && s.linked[i].mark == s.linked[j].mark && s.linked[j] in s.taken
    ensures a < b < |s.taken| && s.taken[a] == s.linked[i] && s.taken[b] == s.linked[j]
  {
    hide Lane, Gone;
    var k := s.linked[j].mark;
    LaneMembers(s.taken, k, s.linked[j]);
    var y :| 0 <= y < |Lane(s.taken, k)| && Lane(s.taken, k)[y] == s.linked[j];
    assert Lane(s.linked, k) == Lane(s.taken, k) + Lane(s.queue, k);
    var j' := LaneSource(s.linked, k, y);
    assert j' == j;
    LaneAt(s.linked, i);
    LaneGrows(s.linked, i, j, k);
    a, b := LaneInOrder(s.taken, k, |Lane(s.linked[..i], k)|, y);
  }
}
