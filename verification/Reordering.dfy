/**
 The conditions under which stored offsets are in order are exact: with two producers on one lane, or with
 producer-side hooks that move a producer to another lane, some run stores a later offset before an
 earlier one of the same partition.
 */
module Reordering {
  import opened Options
  import opened QueueSpec
  import opened Protocol
  import opened Kafka

  /** The offsets stored for each partition increase. */
  ghost predicate StoredInOrder(s: State) {
    forall i, j :: 0 <= i < j < |s.stored| && s.stored[i].partition == s.stored[j].partition ==>
      s.stored[i].offset < s.stored[j].offset
  }

  /** A run that is routed on the consumers' side and, if keep is set, on the producers' side too. */
  ghost predicate Allowed(s: State, a: Action, r: Route, keep: bool) {
    RoutedIn(s, a, r) && (keep ==> KeepsLane(s, a))
  }

  ghost predicate AllowedRun(start: State, run: seq<Action>, r: Route, keep: bool) {
    forall i :: 0 <= i < |run| ==> Allowed(After(start, run[..i]), run[i], r, keep)
  }

  ghost predicate Reaches(start: State, run: seq<Action>, s: State, r: Route, keep: bool) {
    After(start, run) == s && AllowedRun(start, run, r, keep)
  }

  lemma Go(start: State, run: seq<Action>, s: State, a: Action, t: State, r: Route, keep: bool)
    requires Reaches(start, run, s, r, keep) && Allowed(s, a, r, keep) && Next(s, a) == t
    ensures Reaches(start, run + [a], t, r, keep)
  {
    hide Next, Allowed;
    var next := run + [a];
    assert next[..|run|] == run;
    forall i | 0 <= i < |next| ensures Allowed(After(start, next[..i]), next[i], r, keep) {
      if i < |run| {
        assert next[..i] == run[..i];
      }
    }
  }

  /** No thread waits, and consumer 0 stands at the top of its loop. */
  ghost predicate Calm(s: State) {
    && s.consuming && |s.consumers| > 0 && s.consumers[0] == Consumer(CTop, None) && |s.queue| <= 2
    && (forall c :: 0 <= c < |s.consumers| ==> !s.consumers[c].pc.CWait?)
    && (forall p :: 0 <= p < |s.producers| ==> !s.producers[p].pc.PWaitAny? && !s.producers[p].pc.PWaitLane?)
  }

  lemma NobodyToWake(s: State, wakeAny: bool, wakeLane: bool, k: uint32)
    requires Calm(s)
    ensures Broadcast(s.producers, wakeAny, wakeLane, k) == s.producers && WakeAdders(s.consumers) == s.consumers
  {
  }

  lemma MarkOf(k: uint32)
    ensures ToMark(k) == k
  {
  }

  /** Partition part may be polled next by consumer 0, with offset off. */
  ghost predicate Open(s: State, r: Route, part: nat, off: int, k: uint32) {
    && part in r.owner && r.owner[part] == 0 && part in r.lane && r.lane[part] == k
    && (forall i :: 0 <= i < |s.consumed| && s.consumed[i].partition == part ==> s.consumed[i].offset < off)
  }

  function Fresh(s: State, part: nat, off: int, k: uint32): Message {
    Message(|s.consumed|, part, off, k, [])
  }

  function Filled(s: State, m: Message): State {
    s.(queue := s.queue + [m], added := s.added + 1, consumed := s.consumed + [m], linked := s.linked + [m])
  }

  /** Consumer 0 polls a message and adds it. */
  lemma Fill(start: State, run: seq<Action>, s: State, r: Route, keep: bool, part: nat, off: int, k: uint32)
    returns (more: seq<Action>)
    requires Reaches(start, run, s, r, keep) && Calm(s) && Open(s, r, part, off, k)
    ensures Reaches(start, more, Filled(s, Fresh(s, part, off, k)), r, keep)
  {
    hide Reaches, ToMark, Broadcast, Lane;
    MarkOf(k);
    var m := Fresh(s, part, off, k);
    var s1 := s.(consumers := s.consumers[0 := Consumer(CPoll, None)]);
    Go(start, run, s, CheckConsuming(0), s1, r, keep);
    var s2 := s.(consumers := s.consumers[0 := Consumer(CHook, Some(m))], consumed := s.consumed + [m]);
    Go(start, run + [CheckConsuming(0)], s1, Poll(0, Got(part, off, k, [])), s2, r, keep);
    more := run + [CheckConsuming(0)] + [Poll(0, Got(part, off, k, []))];
    more := Link(start, more, s, s2, m, r, keep);
  }

  lemma Link(start: State, run: seq<Action>, s: State, s2: State, m: Message, r: Route, keep: bool)
    returns (more: seq<Action>)
    requires Calm(s) && s2 == s.(consumers := s.consumers[0 := Consumer(CHook, Some(m))], consumed := s.consumed + [m])
    requires Reaches(start, run, s2, r, keep) && m.partition in r.lane && r.lane[m.partition] == m.mark && m.body == []
    ensures Reaches(start, more, Filled(s, m), r, keep)
  {
    hide Reaches, ToMark, Broadcast, Lane;
    MarkOf(m.mark);
    var accept := ConsumerHook(0, Accept(m.mark, []));
    var s3 := s2.(consumers := s.consumers[0 := Consumer(CAdd, Some(m))]);
    Go(start, run, s2, accept, s3, r, keep);
    var res := AddStep(s.queue, m);
    NobodyToWake(s, res.wakeAny, res.wakeLane, m.mark);
    assert s.consumers[0 := Consumer(CTop, None)] == s.consumers;
    Go(start, run + [accept], s3, Add(0), Filled(s, m), r, keep);
    more := run + [accept] + [Add(0)];
  }

  function Took(s: State, p: nat): State
    requires p < |s.producers| && s.queue != []
  {
    s.(queue := s.queue[1..], delivered := s.delivered + 1, taken := s.taken + [s.queue[0]],
       producers := s.producers[p := Producer(s.producers[p].lane, PHook, Some(s.queue[0]))])
  }

  /** Producer p takes the message at the head of the queue. */
  lemma Take(start: State, run: seq<Action>, s: State, r: Route, keep: bool, p: nat) returns (more: seq<Action>)
    requires Reaches(start, run, s, r, keep) && s.consuming && p < |s.producers| && s.queue != []
    requires s.producers[p].pc == PTop(Ok) && s.producers[p].hand == None && s.queue[0].mark == s.producers[p].lane
    requires WakeAdders(s.consumers) == s.consumers
    ensures Reaches(start, more, Took(s, p), r, keep)
  {
    hide Reaches, WakeAdders;
    var t := s.producers[p];
    var s1 := s.(producers := s.producers[p := t.(pc := PGet)]);
    Go(start, run, s, CheckDone(p), s1, r, keep);
    FirstUnique(s.queue, t.lane, 0, FirstOf(s.queue, t.lane), 0);
    assert Without(s.queue, 0) == s.queue[1..];
    Go(start, run + [CheckDone(p)], s1, Get(p), Took(s, p), r, keep);
    more := run + [CheckDone(p)] + [Get(p)];
  }

  function Finished(s: State, p: nat, m: Message): State
    requires p < |s.producers|
  {
    s.(producers := s.producers[p := Producer(m.mark, PTop(Ok), None)], produced := s.produced + [m], stored := s.stored + [m])
  }

  /** Producer p's hooks leave its message with a mark, it produces the message, and its offset is stored. */
  lemma Finish(start: State, run: seq<Action>, s: State, r: Route, keep: bool, p: nat, m: Message)
    returns (more: seq<Action>)
    requires Reaches(start, run, s, r, keep) && p < |s.producers| && s.producers[p].pc == PHook
    requires s.producers[p].hand.Some? && m == s.producers[p].hand.value.(mark := m.mark, body := [])
    requires keep ==> m.mark == s.producers[p].lane
    ensures Reaches(start, more, Finished(s, p, m), r, keep)
  {
    hide Reaches, ToMark;
    MarkOf(m.mark);
    var accept := ProducerHook(p, Accept(m.mark, []));
    var s1 := s.(producers := s.producers[p := Producer(m.mark, PProduce, Some(m))]);
    Go(start, run, s, accept, s1, r, keep);
    var s2 := s.(producers := s.producers[p := Producer(m.mark, PCallback, Some(m))], produced := s.produced + [m]);
    Go(start, run + [accept], s1, Produce(p), s2, r, keep);
    Go(start, run + [accept] + [Produce(p)], s2, Callback(p), Finished(s, p, m), r, keep);
    more := run + [accept] + [Produce(p)] + [Callback(p)];
  }

  /** Two messages of one partition are queued. */
  lemma FillTwo(start: State, run: seq<Action>, s: State, r: Route, keep: bool, part: nat, k: uint32)
    returns (more: seq<Action>, t: State, a: Message, b: Message)
    requires Reaches(start, run, s, r, keep) && Calm(s) && s.queue == [] && Open(s, r, part, 0, k)
    ensures Reaches(start, more, t, r, keep) && t.queue == [a, b] && a.mark == b.mark == k && a.body == b.body == []
    ensures a.partition == b.partition == part && a.offset == 0 && b.offset == 1
    ensures Calm(t) && t.producers == s.producers && t.stored == s.stored
  {
    hide Reaches;
    a := Fresh(s, part, 0, k);
    more := Fill(start, run, s, r, keep, part, 0, k);
    var s1 := Filled(s, a);
    b := Fresh(s1, part, 1, k);
    more := Fill(start, more, s1, r, keep, part, 1, k);
    t := Filled(s1, b);
  }

  /** Producers x and y, both on lane k, take one message each, and y is done first. */
  lemma Overtake(start: State, run: seq<Action>, s: State, r: Route, keep: bool, x: nat, y: nat, part: nat, k: uint32)
    returns (more: seq<Action>, t: State)
    requires Reaches(start, run, s, r, keep) && Calm(s) && s.queue == [] && Open(s, r, part, 0, k)
    requires x < |s.producers| && y < |s.producers| && x != y
    requires s.producers[x] == s.producers[y] == Producer(k, PTop(Ok), None)
    ensures Reaches(start, more, t, r, keep) && !StoredInOrder(t)
  {
    hide Reaches;
    var s2, a, b;
    more, s2, a, b := FillTwo(start, run, s, r, keep, part, k);
    NobodyToWake(s2, false, false, k);
    more := Take(start, more, s2, r, keep, x);
    var s3 := Took(s2, x);
    more := Take(start, more, s3, r, keep, y);
    more, t := FinishTwo(start, more, Took(s3, y), r, keep, x, y, a, b);
  }

  lemma FinishTwo(start: State, run: seq<Action>, s: State, r: Route, keep: bool, x: nat, y: nat, a: Message,
                  b: Message)
    returns (more: seq<Action>, t: State)
    requires Reaches(start, run, s, r, keep) && x < |s.producers| && y < |s.producers| && x != y
    requires s.producers[x] == Producer(a.mark, PHook, Some(a)) && s.producers[y] == Producer(b.mark, PHook, Some(b))
    requires a.body == b.body == [] && a.partition == b.partition && a.offset < b.offset
    ensures Reaches(start, more, t, r, keep) && !StoredInOrder(t)
  {
    hide Reaches;
    more := Finish(start, run, s, r, keep, y, b);
    var s1 := Finished(s, y, b);
    more := Finish(start, more, s1, r, keep, x, a);
    t := Finished(s1, x, a);
    var n := |s.stored|;
    assert t.stored[n] == b && t.stored[n + 1] == a;
  }

  lemma StartReaches(n: nat, lanes: seq<uint32>, r: Route, keep: bool)
    requires n > 0
    ensures var s := Start(n, lanes); Reaches(s, [], s, r, keep) && Calm(s)
  {
  }

  /** Two producers on one lane can store offsets in the wrong order, though every hook keeps to the route. */
  lemma SharedLaneReorders(n: nat, lanes: seq<uint32>, x: nat, y: nat) returns (r: Route, run: seq<Action>)
    requires n > 0 && x < y < |lanes| && lanes[x] == lanes[y]
    ensures RoutedRun(Start(n, lanes), run, r) && !StoredInOrder(After(Start(n, lanes), run))
  {
    hide StoredInOrder, Calm;
    r := Route(map[0 := 0], map[0 := lanes[x]]);
    var s := Start(n, lanes);
    StartReaches(n, lanes, r, true);
    var t;
    run, t := Overtake(s, [], s, r, true, x, y, 0, lanes[x]);
    forall i | 0 <= i < |run| ensures Routed(After(s, run[..i]), run[i], r) {
      assert Allowed(After(s, run[..i]), run[i], r, true);
    }
  }

  /** With two producers, hooks that move one of them can do the same, whatever the lanes are: producer 0
      joins producer 1 on its lane. */
  lemma MovingHooksReorder(n: nat, lanes: seq<uint32>) returns (r: Route, run: seq<Action>)
    requires n > 0 && |lanes| > 1
    ensures AllowedRun(Start(n, lanes), run, r, false) && !StoredInOrder(After(Start(n, lanes), run))
  {
    hide StoredInOrder, AllowedRun;
    r := Route(map[0 := 0, 1 := 0], map[0 := lanes[0], 1 := lanes[1]]);
    var s := Start(n, lanes);
    StartReaches(n, lanes, r, false);
    var t;
    run, t := Join(s, [], s, r, lanes[0], lanes[1]);
    run, t := Overtake(s, run, t, r, false, 0, 1, 1, lanes[1]);
  }

  /** Producer 0 takes a message of partition 0, and its hook moves it to lane k. */
  lemma Join(start: State, run: seq<Action>, s: State, r: Route, j: uint32, k: uint32)
    returns (more: seq<Action>, t: State)
    requires Reaches(start, run, s, r, false) && Calm(s) && s.queue == [] && s.consumed == [] && |s.producers| > 1
    requires s.producers[0] == Producer(j, PTop(Ok), None) && s.producers[1] == Producer(k, PTop(Ok), None)
    requires 0 in r.owner && r.owner[0] == 0 && 0 in r.lane && r.lane[0] == j
    ensures Reaches(start, more, t, r, false) && Calm(t) && t.queue == [] && |t.producers| == |s.producers|
    ensures t.producers[0] == t.producers[1] == Producer(k, PTop(Ok), None)
    ensures forall i :: 0 <= i < |t.consumed| ==> t.consumed[i].partition == 0
  {
    hide Reaches;
    var m := Fresh(s, 0, 0, j);
    more := Fill(start, run, s, r, false, 0, 0, j);
    var s1 := Filled(s, m);
    NobodyToWake(s1, false, false, j);
    more := Take(start, more, s1, r, false, 0);
    var s2 := Took(s1, 0);
    var m' := m.(mark := k);
    more := Finish(start, more, s2, r, false, 0, m');
    t := Finished(s2, 0, m');
  }

  /** Every routed run stores the offsets of each partition in order if and only if no two producers share
      a lane. */
  lemma OrderedIffOneProducerPerLane(n: nat, lanes: seq<uint32>)
    requires n > 0
    ensures OneProducerPerLane(lanes) <==>
            forall r, run :: RoutedRun(Start(n, lanes), run, r) ==> StoredInOrder(After(Start(n, lanes), run))
  {
    hide RoutedRun, After, Start;
    if OneProducerPerLane(lanes) {
      forall r, run | RoutedRun(Start(n, lanes), run, r) ensures StoredInOrder(After(Start(n, lanes), run)) {
        RoutedRunsAreOrdered(n, lanes, r, run);
      }
    } else {
      var x, y :| 0 <= x < y < |lanes| && lanes[x] == lanes[y];
      var r, run := SharedLaneReorders(n, lanes, x, y);
    }
  }

  lemma RoutedRunsAreOrdered(n: nat, lanes: seq<uint32>, r: Route, run: seq<Action>)
    requires OneProducerPerLane(lanes) && RoutedRun(Start(n, lanes), run, r)
    ensures StoredInOrder(After(Start(n, lanes), run))
  {
    hide RoutedRun, After, Start;
    var q := After(Start(n, lanes), run).stored;
    forall i, j | 0 <= i < j < |q| && q[i].partition == q[j].partition ensures q[i].offset < q[j].offset {
      StoredOffsetsIncrease(n, lanes, r, run, i, j);
    }
  }

  /** When nothing is demanded of the producers' hooks, that is so if and only if there is at most one
      producer. */
  lemma OrderedIffOneProducer(n: nat, lanes: seq<uint32>)
    requires n > 0
    ensures |lanes| <= 1 <==>
            forall r, run :: AllowedRun(Start(n, lanes), run, r, false) ==> StoredInOrder(After(Start(n, lanes), run))
  {
    hide After, Start, AllowedRun, RoutedRun;
    if |lanes| <= 1 {
      forall r, run | AllowedRun(Start(n, lanes), run, r, false) ensures StoredInOrder(After(Start(n, lanes), run)) {
        LoneProducer(n, lanes, r, run);
        RoutedRunsAreOrdered(n, lanes, r, run);
      }
    } else {
      var r, run := MovingHooksReorder(n, lanes);
    }
  }

  lemma LoneProducer(n: nat, lanes: seq<uint32>, r: Route, run: seq<Action>)
    requires |lanes| <= 1 && AllowedRun(Start(n, lanes), run, r, false)
    ensures RoutedRun(Start(n, lanes), run, r)
  {
    var start := Start(n, lanes);
    forall i | 0 <= i < |run| ensures Routed(After(start, run[..i]), run[i], r) {
      assert Allowed(After(start, run[..i]), run[i], r, false);
      SameProducers(start, run[..i]);
    }
  }

  lemma {:induction false} SameProducers(s: State, run: seq<Action>)
    ensures |After(s, run).producers| == |s.producers|
  {
    if run != [] {
      SameProducers(s, run[..|run| - 1]);
    }
  }
}
