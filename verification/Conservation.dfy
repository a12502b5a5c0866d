/**
 Where every message is, in every run: in one consumer's hand, in the queue, in one producer's hand,
 produced, or rejected by a hook. Lanes are first-in first-out, and the counters agree with that.
 */
module Conservation {
  import opened Options
  import opened QueueSpec
  import opened Protocol
  import opened Sequences

  /** How often id occurs in a sequence of messages. */
  function Count(q: seq<Message>, id: nat): nat {
    if q == [] then 0 else Count(q[..|q| - 1], id) + (if q[|q| - 1].id == id then 1 else 0)
  }

  function InHand(hand: Option<Message>, id: nat): nat {
    if hand.Some? && hand.value.id == id then 1 else 0
  }

  /** A produced message still in a producer's hand counts as produced. */
  function Pending(t: Producer, id: nat): nat {
    if t.pc.PCallback? then 0 else InHand(t.hand, id)
  }

  function CountConsumers(cs: seq<Consumer>, id: nat): nat {
    if cs == [] then 0 else CountConsumers(cs[..|cs| - 1], id) + InHand(cs[|cs| - 1].hand, id)
  }

  function CountProducers(ps: seq<Producer>, id: nat): nat {
    if ps == [] then 0 else CountProducers(ps[..|ps| - 1], id) + Pending(ps[|ps| - 1], id)
  }

  /** How often id occurs over all places. */
  function Places(s: State, id: nat): nat {
    CountConsumers(s.consumers, id) + Count(s.queue, id) + CountProducers(s.producers, id)
    + Count(s.produced, id) + Count(s.rejected, id)
  }

  lemma {:induction false} CountConcat(a: seq<Message>, b: seq<Message>, id: nat)
    ensures Count(a + b, id) == Count(a, id) + Count(b, id)
  {
    if b == [] {
      assert a + b == a;
    } else {
      CountConcat(a, b[..|b| - 1], id);
      assert (a + b)[..|a + b| - 1] == a + b[..|b| - 1];
    }
  }

  lemma CountAppend(q: seq<Message>, m: Message, id: nat)
    ensures Count(q + [m], id) == Count(q, id) + (if m.id == id then 1 else 0)
  {
    assert (q + [m])[..|q + [m]| - 1] == q;
  }

  lemma CountWithout(q: seq<Message>, i: nat, id: nat)
    requires i < |q|
    ensures Count(q, id) == Count(Without(q, i), id) + (if q[i].id == id then 1 else 0)
  {
    assert q == q[..i] + [q[i]] + q[i + 1..];
    CountConcat(q[..i] + [q[i]], q[i + 1..], id);
    CountAppend(q[..i], q[i], id);
    CountConcat(q[..i], q[i + 1..], id);
  }

  lemma {:induction false} CountConsumersUpdate(cs: seq<Consumer>, c: nat, t: Consumer, id: nat)
    requires c < |cs|
    ensures CountConsumers(cs[c := t], id) == CountConsumers(cs, id) - InHand(cs[c].hand, id) + InHand(t.hand, id)
  {
    var r := cs[c := t];
    if c == |cs| - 1 {
      assert r[..|r| - 1] == cs[..|cs| - 1];
    } else {
      CountConsumersUpdate(cs[..|cs| - 1], c, t, id);
      assert r[..|r| - 1] == cs[..|cs| - 1][c := t];
    }
  }

  lemma {:induction false} CountProducersUpdate(ps: seq<Producer>, p: nat, t: Producer, id: nat)
    requires p < |ps|
    ensures CountProducers(ps[p := t], id) == CountProducers(ps, id) - Pending(ps[p], id) + Pending(t, id)
  {
    var r := ps[p := t];
    if p == |ps| - 1 {
      assert r[..|r| - 1] == ps[..|ps| - 1];
    } else {
      CountProducersUpdate(ps[..|ps| - 1], p, t, id);
      assert r[..|r| - 1] == ps[..|ps| - 1][p := t];
    }
  }

  lemma {:induction false} CountConsumersWoken(cs: seq<Consumer>, id: nat)
    ensures CountConsumers(WakeAdders(cs), id) == CountConsumers(cs, id)
  {
    if cs != [] {
      CountConsumersWoken(cs[..|cs| - 1], id);
      assert WakeAdders(cs)[..|cs| - 1] == WakeAdders(cs[..|cs| - 1]);
    }
  }

  lemma {:induction false} CountProducersWoken(ps: seq<Producer>, any: bool, lane: bool, k: uint32, id: nat)
    ensures CountProducers(Broadcast(ps, any, lane, k), id) == CountProducers(ps, id)
  {
    if ps != [] {
      CountProducersWoken(ps[..|ps| - 1], any, lane, k, id);
      assert Broadcast(ps, any, lane, k)[..|ps| - 1] == Broadcast(ps[..|ps| - 1], any, lane, k);
    }
  }

  // ---- What every step keeps ----

  ghost predicate ConsumerHolds(t: Consumer) {
    t.hand.Some? <==> t.pc.CHook? || t.pc.CAdd? || t.pc.CWait?
  }

  ghost predicate ProducerHolds(t: Producer) {
    t.hand.Some? <==> t.pc.PHook? || t.pc.PProduce? || t.pc.PCallback?
  }

  /** A thread holds a message exactly between getting it and giving it up; in particular a thread
      that has left its loop, or stands at its top, holds none. */
  ghost predicate Hands(s: State) {
    && (forall c :: 0 <= c < |s.consumers| ==> ConsumerHolds(s.consumers[c]))
    && (forall p :: 0 <= p < |s.producers| ==> ProducerHolds(s.producers[p]))
  }

  /** All places together hold each consumed message once and nothing else; a message's id is its
      place in the order of consumption. */
  ghost predicate Conserved(s: State) {
    && (forall i :: 0 <= i < |s.consumed| ==> s.consumed[i].id == i)
    && (forall id: nat :: Places(s, id) == if id < |s.consumed| then 1 else 0)
  }

  /** The messages taken from a lane are a prefix of those linked into it: the rest is the lane. */
  ghost predicate Fifo(s: State) {
    forall k :: Lane(s.linked, k) == Lane(s.taken, k) + Lane(s.queue, k)
  }

  /** The resettable counters and what was read from them account for every link and every take. */
  ghost predicate Counted(s: State) {
    && s.reportedAdded + s.added == |s.linked|
    && s.reportedDelivered + s.delivered == |s.taken|
    && |s.linked| - |s.taken| == |s.queue|
  }

  lemma ConsumerStepKeepsHands(s: State, a: Action)
    requires Hands(s) && (a.CheckConsuming? || a.Poll? || a.ConsumerHook? || a.Add?)
    ensures Hands(Next(s, a))
  {
    hide ToMark, Lane;
  }

  lemma ProducerStepKeepsHands(s: State, a: Action)
    requires Hands(s) && (a.CheckDone? || a.Get? || a.TimeOut? || a.ProducerHook? || a.Produce? || a.Callback?)
    ensures Hands(Next(s, a))
  {
    hide ToMark, GetStep;
  }

  lemma StepKeepsHands(s: State, a: Action)
    requires Hands(s)
    ensures Hands(Next(s, a))
  {
    hide ToMark, Lane, AddStep, GetStep, ConsumerHolds, ProducerHolds;
    match a
    case Stop =>
    case ReadAdded =>
    case ReadDelivered =>
    case CheckConsuming(_) => ConsumerStepKeepsHands(s, a);
    case Poll(_, _) => ConsumerStepKeepsHands(s, a);
    case ConsumerHook(_, _) => ConsumerStepKeepsHands(s, a);
    case Add(_) => ConsumerStepKeepsHands(s, a);
    case _ => ProducerStepKeepsHands(s, a);
  }

  lemma StepKeepsCounts(s: State, a: Action)
    requires Counted(s)
    ensures Counted(Next(s, a))
  {
    hide ToMark, Lane;
  }

  lemma LinkKeepsFifo(linked: seq<Message>, taken: seq<Message>, q: seq<Message>, m: Message, k: uint32)
    requires Lane(linked, k) == Lane(taken, k) + Lane(q, k)
    ensures Lane(linked + [m], k) == Lane(taken, k) + Lane(q + [m], k)
  {
    hide Lane;
    LaneAfterLink(q, m, k);
    LaneAfterLink(linked, m, k);
    Assoc(Lane(taken, k), Lane(q, k), [m]);
  }

  lemma TakeKeepsFifo(linked: seq<Message>, taken: seq<Message>, q: seq<Message>, j: uint32, k: uint32)
    requires Lane(linked, k) == Lane(taken, k) + Lane(q, k) && FirstOf(q, j) < |q|
    ensures Lane(linked, k) == Lane(taken + [q[FirstOf(q, j)]], k) + Lane(Without(q, FirstOf(q, j)), k)
  {
    hide Lane, FirstOf, Without;
    LaneWithoutFirst(q, j, k);
    LaneAfterLink(taken, q[FirstOf(q, j)], k);
    if j == k {
      MoveHead(Lane(taken, k), Lane(q, k));
    }
  }

  lemma AddKeepsFifo(s: State, c: nat, k: uint32)
    requires Fifo(s) && c < |s.consumers|
    ensures var t := DoAdd(s, c); Lane(t.linked, k) == Lane(t.taken, k) + Lane(t.queue, k)
  {
    hide Lane;
    if s.consumers[c].hand.Some? {
      LinkKeepsFifo(s.linked, s.taken, s.queue, s.consumers[c].hand.value, k);
    }
  }

  lemma GetKeepsFifo(s: State, p: nat, k: uint32)
    requires Fifo(s) && p < |s.producers|
    ensures var t := DoGet(s, p); Lane(t.linked, k) == Lane(t.taken, k) + Lane(t.queue, k)
  {
    hide Lane, FirstOf;
    if FirstOf(s.queue, s.producers[p].lane) < |s.queue| {
      TakeKeepsFifo(s.linked, s.taken, s.queue, s.producers[p].lane, k);
    }
  }

  lemma StepKeepsFifo(s: State, a: Action)
    requires Fifo(s)
    ensures Fifo(Next(s, a))
  {
    match a
    case Add(c) =>
      if c < |s.consumers| {
        forall k ensures Lane(Next(s, a).linked, k) == Lane(Next(s, a).taken, k) + Lane(Next(s, a).queue, k) {
          AddKeepsFifo(s, c, k);
        }
      }
    case Get(p) =>
      if p < |s.producers| {
        forall k ensures Lane(Next(s, a).linked, k) == Lane(Next(s, a).taken, k) + Lane(Next(s, a).queue, k) {
          GetKeepsFifo(s, p, k);
        }
      }
    case _ =>
  }

  lemma CheckKeepsPlaces(s: State, c: nat, p: nat, id: nat)
    ensures c < |s.consumers| ==> Places(DoCheckConsuming(s, c), id) == Places(s, id)
    ensures p < |s.producers| && Hands(s) ==> Places(DoCheckDone(s, p), id) == Places(s, id)
    ensures p < |s.producers| && Hands(s) ==> Places(DoTimeOut(s, p), id) == Places(s, id)
  {
    hide Count, CountConsumers, CountProducers;
    if c < |s.consumers| {
      CountConsumersUpdate(s.consumers, c, s.consumers[c].(pc := if s.consuming then CPoll else CDone), id);
    }
    if p < |s.producers| && Hands(s) {
      var t := s.producers[p];
      assert ProducerHolds(t);
      CountProducersUpdate(s.producers, p, DoCheckDone(s, p).producers[p], id);
      CountProducersUpdate(s.producers, p, t.(pc := PTop(TimedOut)), id);
    }
  }

  lemma PollKeepsPlaces(s: State, c: nat, polled: Polled, id: nat)
    requires Hands(s) && c < |s.consumers|
    ensures var t := DoPoll(s, c, polled);
            Places(t, id) == Places(s, id) + (if |s.consumed| <= id < |t.consumed| then 1 else 0)
  {
    hide Count, CountConsumers, CountProducers, ToMark;
    assert ConsumerHolds(s.consumers[c]);
    CountConsumersUpdate(s.consumers, c, DoPoll(s, c, polled).consumers[c], id);
  }

  lemma ConsumerHookKeepsPlaces(s: State, c: nat, v: Verdict, id: nat)
    requires c < |s.consumers|
    ensures Places(DoConsumerHook(s, c, v), id) == Places(s, id)
  {
    hide Count, CountConsumers, CountProducers, ToMark;
    CountConsumersUpdate(s.consumers, c, DoConsumerHook(s, c, v).consumers[c], id);
    if s.consumers[c].hand.Some? {
      CountAppend(s.rejected, s.consumers[c].hand.value, id);
    }
  }

  lemma AddKeepsPlaces(s: State, c: nat, id: nat)
    requires c < |s.consumers|
    ensures Places(DoAdd(s, c), id) == Places(s, id)
  {
    hide Count, CountConsumers, CountProducers, Lane;
    var t := s.consumers[c];
    if t.hand.Some? {
      var r := AddStep(s.queue, t.hand.value);
      CountConsumersUpdate(s.consumers, c, Consumer(CTop, None), id);
      CountConsumersUpdate(s.consumers, c, t.(pc := CWait(false)), id);
      CountAppend(s.queue, t.hand.value, id);
      CountProducersWoken(s.producers, r.wakeAny, r.wakeLane, t.hand.value.mark, id);
    }
  }

  lemma GetKeepsPlaces(s: State, p: nat, id: nat)
    requires Hands(s) && p < |s.producers|
    ensures Places(DoGet(s, p), id) == Places(s, id)
  {
    hide Count, CountConsumers, CountProducers, Lane;
    var t := s.producers[p];
    assert ProducerHolds(t);
    CountProducersUpdate(s.producers, p, DoGet(s, p).producers[p], id);
    if FirstOf(s.queue, t.lane) < |s.queue| {
      CountWithout(s.queue, FirstOf(s.queue, t.lane), id);
    }
    CountConsumersWoken(s.consumers, id);
  }

  lemma ProducerHookKeepsPlaces(s: State, p: nat, v: Verdict, id: nat)
    requires p < |s.producers|
    ensures Places(DoProducerHook(s, p, v), id) == Places(s, id)
  {
    hide Count, CountConsumers, CountProducers, ToMark;
    CountProducersUpdate(s.producers, p, DoProducerHook(s, p, v).producers[p], id);
    if s.producers[p].hand.Some? {
      CountAppend(s.rejected, s.producers[p].hand.value, id);
    }
  }

  lemma ProduceKeepsPlaces(s: State, p: nat, id: nat)
    requires p < |s.producers|
    ensures Places(DoProduce(s, p), id) == Places(s, id)
    ensures Places(DoCallback(s, p), id) == Places(s, id)
  {
    hide Count, CountConsumers, CountProducers;
    CountProducersUpdate(s.producers, p, DoProduce(s, p).producers[p], id);
    CountProducersUpdate(s.producers, p, DoCallback(s, p).producers[p], id);
    if s.producers[p].hand.Some? {
      CountAppend(s.produced, s.producers[p].hand.value, id);
    }
  }

  lemma StepKeepsPlaces(s: State, a: Action, id: nat)
    requires Hands(s)
    ensures var t := Next(s, a);
            Places(t, id) == Places(s, id) + (if |s.consumed| <= id < |t.consumed| then 1 else 0)
  {
    hide Count, CountConsumers, CountProducers, Lane, FirstOf;
    match a
    case Stop =>
    case ReadAdded =>
    case ReadDelivered =>
    case CheckConsuming(c) => CheckKeepsPlaces(s, c, 0, id);
    case CheckDone(p) => CheckKeepsPlaces(s, 0, p, id);
    case TimeOut(p) => CheckKeepsPlaces(s, 0, p, id);
    case Poll(c, polled) => if c < |s.consumers| { PollKeepsPlaces(s, c, polled, id); }
    case ConsumerHook(c, v) => if c < |s.consumers| { ConsumerHookKeepsPlaces(s, c, v, id); }
    case Add(c) => if c < |s.consumers| { AddKeepsPlaces(s, c, id); }
    case Get(p) => if p < |s.producers| { GetKeepsPlaces(s, p, id); }
    case ProducerHook(p, v) => if p < |s.producers| { ProducerHookKeepsPlaces(s, p, v, id); }
    case Produce(p) => if p < |s.producers| { ProduceKeepsPlaces(s, p, id); }
    case Callback(p) => if p < |s.producers| { ProduceKeepsPlaces(s, p, id); }
  }

  lemma StepKeepsConserved(s: State, a: Action)
    requires Hands(s) && Conserved(s)
    ensures Conserved(Next(s, a))
  {
    forall id: nat ensures Places(Next(s, a), id) == if id < |Next(s, a).consumed| then 1 else 0 {
      StepKeepsPlaces(s, a, id);
      ConsumedGrows(s, a);
    }
    ConsumedGrows(s, a);
  }

  lemma ConsumedGrows(s: State, a: Action)
    ensures var t := Next(s, a);
            t.consumed == s.consumed ||
            (|t.consumed| == |s.consumed| + 1 && t.consumed[..|s.consumed|] == s.consumed &&
             t.consumed[|s.consumed|].id == |s.consumed|)
  {
  }

  lemma {:induction false} StartPlaces(n: nat, lanes: seq<uint32>, id: nat)
    ensures Places(Start(n, lanes), id) == 0
    decreases n + |lanes|
  {
    var s := Start(n, lanes);
    if n > 0 {
      StartPlaces(n - 1, lanes, id);
      assert s.consumers[..n - 1] == Start(n - 1, lanes).consumers;
    } else if lanes != [] {
      StartPlaces(n, lanes[..|lanes| - 1], id);
      assert s.producers[..|lanes| - 1] == Start(n, lanes[..|lanes| - 1]).producers;
    }
  }

  /** Over every run: no message is lost or duplicated, no thread leaves its loop with one in hand,
      lanes are first-in first-out, and added minus delivered is the queue's length. */
  lemma {:induction false} EveryRun(n: nat, lanes: seq<uint32>, run: seq<Action>)
    ensures var s := After(Start(n, lanes), run); Hands(s) && Conserved(s) && Fifo(s) && Counted(s)
  {
    var start := Start(n, lanes);
    if run == [] {
      forall id: nat ensures Places(start, id) == 0 {
        StartPlaces(n, lanes, id);
      }
    } else {
      var s, a := After(start, run[..|run| - 1]), run[|run| - 1];
      EveryRun(n, lanes, run[..|run| - 1]);
      StepKeepsHands(s, a);
      StepKeepsConserved(s, a);
      StepKeepsFifo(s, a);
      StepKeepsCounts(s, a);
    }
  }
}
