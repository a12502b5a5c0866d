/**
 Transactional Kafka: a message's callback stores its offset after producer_produce. When every partition
 is polled by one consumer thread and routed to one lane, no lane has two producer threads, and no
 producer-side hook moves a producer to another lane, an offset is stored only after all earlier messages
 of its partition were produced (or rejected by a hook), so the stored offsets of a partition only increase.
 */
module Kafka {
  import opened Options
  import opened QueueSpec
  import opened Protocol
  import opened Conservation
  import opened Sequences

  /** Which consumer thread polls a partition, and the lane its messages are routed to. */
  datatype Route = Route(owner: map<nat, nat>, lane: map<nat, uint32>)

  /** An action that respects the route on the consumers' side: a partition is polled by its owner, in
      offset order, and the hooks leave the message with its partition's lane. */
  ghost predicate RoutedIn(s: State, a: Action, r: Route) {
    && (a.Poll? && a.polled.Got? ==>
          && a.polled.partition in r.owner && r.owner[a.polled.partition] == a.c
          && a.polled.partition in r.lane
          && (forall i :: 0 <= i < |s.consumed| && s.consumed[i].partition == a.polled.partition ==>
                s.consumed[i].offset < a.polled.offset))
    && (a.ConsumerHook? && a.verdict.Accept? && a.c < |s.consumers| && s.consumers[a.c].hand.Some? ==>
          && s.consumers[a.c].hand.value.partition in r.lane
          && ToMark(a.verdict.xmark) == r.lane[s.consumers[a.c].hand.value.partition])
  }

  /** Where there are several producers, their hooks leave them on their lanes. */
  ghost predicate KeepsLane(s: State, a: Action) {
    a.ProducerHook? && a.p < |s.producers| && |s.producers| > 1 ==> ToMark(a.verdict.xmark) == s.producers[a.p].lane
  }

  ghost predicate Routed(s: State, a: Action, r: Route) {
    RoutedIn(s, a, r) && KeepsLane(s, a)
  }

  ghost predicate RoutedRun(s: State, run: seq<Action>, r: Route) {
    forall i :: 0 <= i < |run| ==> Routed(After(s, run[..i]), run[i], r)
  }

  ghost predicate OneProducerPerLane(lanes: seq<uint32>) {
    forall i, j :: 0 <= i < j < |lanes| ==> lanes[i] != lanes[j]
  }

  // ---- The pipeline: every message that was neither rejected nor lost, furthest first ----

  function Hand(t: Consumer): seq<Message> {
    if t.hand.Some? then [t.hand.value] else []
  }

  function Unproduced(t: Producer): seq<Message> {
    if t.hand.Some? && !t.pc.PCallback? then [t.hand.value] else []
  }

  function ConsumerHands(cs: seq<Consumer>): (hs: seq<seq<Message>>)
    ensures |hs| == |cs|
  {
    seq(|cs|, i requires 0 <= i < |cs| => Hand(cs[i]))
  }

  function ProducerHands(ps: seq<Producer>): (hs: seq<seq<Message>>)
    ensures |hs| == |ps|
  {
    seq(|ps|, i requires 0 <= i < |ps| => Unproduced(ps[i]))
  }

  function Waiting(s: State): seq<Message> {
    Flatten(ProducerHands(s.producers)) + s.queue + Flatten(ConsumerHands(s.consumers))
  }

  function Pipeline(s: State): seq<Message> {
    s.produced + Waiting(s)
  }

  /** If x and y are of the same partition, x was consumed first. */
  ghost predicate Before(x: Message, y: Message) {
    x.partition == y.partition ==> x.id < y.id
  }

  ghost predicate InOrder(q: seq<Message>) {
    forall i, j :: 0 <= i < j < |q| ==> Before(q[i], q[j])
  }

  ghost predicate Unrelated(x: Message, q: seq<Message>) {
    forall i :: 0 <= i < |q| ==> q[i].partition != x.partition
  }

  lemma DropKeepsOrder(a: seq<Message>, x: Message, b: seq<Message>)
    requires InOrder(a + [x] + b)
    ensures InOrder(a + b)
  {
    var q, r := a + [x] + b, a + b;
    forall i, j | 0 <= i < j < |r| ensures Before(r[i], r[j]) {
      var i', j' := if i < |a| then i else i + 1, if j < |a| then j else j + 1;
      assert r[i] == q[i'] && r[j] == q[j'];
    }
  }

  lemma InsertKeepsOrder(a: seq<Message>, x: Message, b: seq<Message>)
    requires InOrder(a + b) && Unrelated(x, b)
    requires forall i :: 0 <= i < |a| ==> Before(a[i], x)
    ensures InOrder(a + [x] + b)
  {
    var q, r := a + b, a + [x] + b;
    forall i, j | 0 <= i < j < |r| ensures Before(r[i], r[j]) {
      if i != |a| && j != |a| {
        var i', j' := if i < |a| then i else i - 1, if j < |a| then j else j - 1;
        assert r[i] == q[i'] && r[j] == q[j'];
      }
    }
  }

  /** A message may move forward past messages of other partitions. */
  lemma MoveKeepsOrder(a: seq<Message>, b: seq<Message>, x: Message, c: seq<Message>)
    requires InOrder(a + b + [x] + c) && Unrelated(x, b)
    ensures InOrder(a + [x] + b + c)
  {
    var q, r := a + b + [x] + c, a + [x] + b + c;
    forall i, j | 0 <= i < j < |r| ensures Before(r[i], r[j]) {
      var i' := if i < |a| || i > |a| + |b| then i else if i == |a| then |a| + |b| else i - 1;
      var j' := if j < |a| || j > |a| + |b| then j else if j == |a| then |a| + |b| else j - 1;
      assert r[i] == q[i'] && r[j] == q[j'];
    }
  }

  /** A hook may change a message's mark and body, not its place in the order. */
  lemma RewriteKeepsOrder(a: seq<Message>, x: Message, y: Message, b: seq<Message>)
    requires InOrder(a + [x] + b) && x.id == y.id && x.partition == y.partition
    ensures InOrder(a + [y] + b)
  {
    var q, r := a + [x] + b, a + [y] + b;
    forall i, j | 0 <= i < j < |r| ensures Before(r[i], r[j]) {
      assert Before(q[i], q[j]);
    }
  }

  /** The pipeline of a state whose consumer c is replaced by t. */
  lemma ConsumerSplit(s: State, c: nat, t: Consumer)
    requires c < |s.consumers|
    ensures var hs := ConsumerHands(s.consumers);
            Flatten(ConsumerHands(s.consumers[c := t])) == Flatten(hs[..c]) + Hand(t) + Flatten(hs[c + 1..])
  {
    var hs := ConsumerHands(s.consumers[c := t]);
    FlattenSplit(hs, c);
    assert hs[..c] == ConsumerHands(s.consumers)[..c] && hs[c + 1..] == ConsumerHands(s.consumers)[c + 1..];
  }

  lemma ProducerSplit(s: State, p: nat, t: Producer)
    requires p < |s.producers|
    ensures var hs := ProducerHands(s.producers);
            Flatten(ProducerHands(s.producers[p := t])) == Flatten(hs[..p]) + Unproduced(t) + Flatten(hs[p + 1..])
  {
    var hs := ProducerHands(s.producers[p := t]);
    FlattenSplit(hs, p);
    assert hs[..p] == ProducerHands(s.producers)[..p] && hs[p + 1..] == ProducerHands(s.producers)[p + 1..];
  }

  // ---- Routing ----

  /** m is, up to what hooks may change, the consumed message with its id. */
  ghost predicate Genuine(m: Message, consumed: seq<Message>) {
    m.id < |consumed| && consumed[m.id].partition == m.partition && consumed[m.id].offset == m.offset
  }

  ghost predicate ConsumerRouted(t: Consumer, c: nat, r: Route, consumed: seq<Message>) {
    t.hand.Some? ==>
      var m := t.hand.value;
      && Genuine(m, consumed)
      && m.partition in r.owner && r.owner[m.partition] == c && m.partition in r.lane
      && (t.pc.CAdd? || t.pc.CWait? ==> m.mark == r.lane[m.partition])
  }

  ghost predicate ProducerRouted(t: Producer, r: Route, consumed: seq<Message>) {
    t.hand.Some? ==>
      var m := t.hand.value;
      Genuine(m, consumed) && m.partition in r.lane
  }

  /** The producer is still on its lane, and what it holds was routed there. */
  ghost predicate OnLane(t: Producer, lane: uint32, r: Route) {
    t.lane == lane && (t.hand.Some? && t.hand.value.partition in r.lane ==> r.lane[t.hand.value.partition] == lane)
  }

  ghost predicate MessageRouted(m: Message, r: Route, consumed: seq<Message>) {
    Genuine(m, consumed) && m.partition in r.lane && m.mark == r.lane[m.partition]
  }

  ghost predicate Routes(s: State, lanes: seq<uint32>, r: Route) {
    && (forall c :: 0 <= c < |s.consumers| ==> ConsumerRouted(s.consumers[c], c, r, s.consumed))
    && (forall i :: 0 <= i < |s.queue| ==> MessageRouted(s.queue[i], r, s.consumed))
    && |s.producers| == |lanes|
    && (forall p :: 0 <= p < |s.producers| ==> ProducerRouted(s.producers[p], r, s.consumed))
    && (|lanes| > 1 ==> forall p :: 0 <= p < |s.producers| ==> OnLane(s.producers[p], lanes[p], r))
    && (forall i :: 0 <= i < |s.produced| ==> Genuine(s.produced[i], s.consumed))
  }

  lemma PollKeepsRoutes(s: State, a: Action, lanes: seq<uint32>, r: Route)
    requires Routes(s, lanes, r) && Routed(s, a, r) && Hands(s) && a.Poll?
    ensures Routes(Next(s, a), lanes, r)
  {
    hide ToMark;
  }

  lemma HookKeepsRoutes(s: State, a: Action, lanes: seq<uint32>, r: Route)
    requires Routes(s, lanes, r) && Routed(s, a, r) && (a.ConsumerHook? || a.ProducerHook?)
    ensures Routes(Next(s, a), lanes, r)
  {
    hide ToMark;
  }

  lemma AddKeepsRoutes(s: State, c: nat, lanes: seq<uint32>, r: Route)
    requires Routes(s, lanes, r) && c < |s.consumers|
    ensures Routes(DoAdd(s, c), lanes, r)
  {
    hide Lane;
  }

  lemma GetKeepsRoutes(s: State, p: nat, lanes: seq<uint32>, r: Route)
    requires Routes(s, lanes, r) && p < |s.producers|
    ensures Routes(DoGet(s, p), lanes, r)
  {
  }

  lemma StepKeepsRoutes(s: State, a: Action, lanes: seq<uint32>, r: Route)
    requires Routes(s, lanes, r) && Routed(s, a, r) && Hands(s)
    ensures Routes(Next(s, a), lanes, r)
  {
    match a
    case Poll(_, _) => PollKeepsRoutes(s, a, lanes, r);
    case ConsumerHook(_, _) => HookKeepsRoutes(s, a, lanes, r);
    case ProducerHook(_, _) => HookKeepsRoutes(s, a, lanes, r);
    case Add(c) => if c < |s.consumers| { AddKeepsRoutes(s, c, lanes, r); }
    case Get(p) => if p < |s.producers| { GetKeepsRoutes(s, p, lanes, r); }
    case _ =>
  }

  lemma UnrelatedFlatten(m: Message, hs: seq<seq<Message>>)
    requires forall i :: 0 <= i < |hs| ==> Unrelated(m, hs[i])
    ensures Unrelated(m, Flatten(hs))
  {
    var q: seq<Message> := Flatten(hs);
    forall j | 0 <= j < |q| ensures q[j].partition != m.partition {
      var i := FlattenMember(hs, j);
      assert Unrelated(m, hs[i]);
    }
  }

  /** No other consumer holds a message of a partition that consumer c owns. */
  lemma OtherConsumersUnrelated(s: State, lanes: seq<uint32>, r: Route, c: nat, m: Message)
    requires Routes(s, lanes, r) && c < |s.consumers|
    requires m.partition in r.owner && r.owner[m.partition] == c
    ensures var hs := ConsumerHands(s.consumers); Unrelated(m, Flatten(hs[..c])) && Unrelated(m, Flatten(hs[c + 1..]))
  {
    var hs := ConsumerHands(s.consumers);
    forall i | 0 <= i < |hs| && i != c ensures Unrelated(m, hs[i]) {
      assert ConsumerRouted(s.consumers[i], i, r, s.consumed);
    }
    UnrelatedFlatten(m, hs[..c]);
    UnrelatedFlatten(m, hs[c + 1..]);
  }

  /** No other producer holds a message of a partition that is routed to producer p's lane. */
  lemma OtherProducersUnrelated(s: State, lanes: seq<uint32>, r: Route, p: nat, m: Message)
    requires Routes(s, lanes, r) && OneProducerPerLane(lanes) && p < |s.producers|
    requires m.partition in r.lane && (|lanes| > 1 ==> r.lane[m.partition] == s.producers[p].lane)
    ensures var hs := ProducerHands(s.producers); Unrelated(m, Flatten(hs[..p])) && Unrelated(m, Flatten(hs[p + 1..]))
  {
    var hs := ProducerHands(s.producers);
    forall i | 0 <= i < |hs| && i != p ensures Unrelated(m, hs[i]) {
      assert ProducerRouted(s.producers[i], r, s.consumed) && lanes[i] != lanes[p];
      assert OnLane(s.producers[i], lanes[i], r) && OnLane(s.producers[p], lanes[p], r);
    }
    UnrelatedFlatten(m, hs[..p]);
    UnrelatedFlatten(m, hs[p + 1..]);
  }

  lemma PipelineGenuine(s: State, lanes: seq<uint32>, r: Route, j: nat)
    requires Routes(s, lanes, r) && j < |Pipeline(s)|
    ensures Genuine(Pipeline(s)[j], s.consumed)
  {
    hide Flatten;
    var P, C := Flatten(ProducerHands(s.producers)), Flatten(ConsumerHands(s.consumers));
    var k := j - |s.produced|;
    if k < 0 {
    } else if k < |P| {
      var i := FlattenMember(ProducerHands(s.producers), k);
      assert ProducerRouted(s.producers[i], r, s.consumed);
    } else if k < |P| + |s.queue| {
      assert MessageRouted(s.queue[k - |P|], r, s.consumed);
    } else {
      var i := FlattenMember(ConsumerHands(s.consumers), k - |P| - |s.queue|);
      assert ConsumerRouted(s.consumers[i], i, r, s.consumed);
    }
  }

  // ---- Every step keeps the pipeline in order ----

  lemma PollKeepsOrder(s: State, c: nat, polled: Polled, lanes: seq<uint32>, r: Route)
    requires InOrder(Pipeline(s)) && Routes(s, lanes, r) && Hands(s)
    requires c < |s.consumers| && Routed(s, Poll(c, polled), r)
    ensures InOrder(Pipeline(DoPoll(s, c, polled)))
  {
    hide InOrder, Flatten;
    var t := s.consumers[c];
    var t' := DoPoll(s, c, polled).consumers[c];
    var hs := ConsumerHands(s.consumers);
    ConsumerSplit(s, c, t);
    ConsumerSplit(s, c, t');
    assert s.consumers[c := t] == s.consumers && ConsumerHolds(t);
    if t.pc.CPoll? && polled.Got? {
      var m := t'.hand.value;
      var P, C0, C1 := Flatten(ProducerHands(s.producers)), Flatten(hs[..c]), Flatten(hs[c + 1..]);
      RegroupArrive(s.produced, P, s.queue, C0, [], C1);
      RegroupArrive(s.produced, P, s.queue, C0, [m], C1);
      OtherConsumersUnrelated(s, lanes, r, c, m);
      var a := s.produced + P + s.queue + C0;
      assert a + [] + C1 == a + C1;
      forall j | 0 <= j < |a| ensures Before(a[j], m) {
        PipelineGenuine(s, lanes, r, j);
        assert Pipeline(s)[j] == a[j];
      }
      InsertKeepsOrder(a, m, C1);
    }
  }

  lemma AddKeepsOrder(s: State, c: nat, lanes: seq<uint32>, r: Route)
    requires InOrder(Pipeline(s)) && Routes(s, lanes, r) && c < |s.consumers|
    ensures InOrder(Pipeline(DoAdd(s, c)))
  {
    hide InOrder, Flatten;
    var t := s.consumers[c];
    var hs := ConsumerHands(s.consumers);
    ConsumerSplit(s, c, t);
    assert s.consumers[c := t] == s.consumers;
    if (t.pc.CAdd? || t.pc.CWait?) && t.hand.Some? {
      var m := t.hand.value;
      var res := AddStep(s.queue, m);
      if res.linked {
        ConsumerSplit(s, c, Consumer(CTop, None));
        assert ProducerHands(Broadcast(s.producers, res.wakeAny, res.wakeLane, m.mark)) == ProducerHands(s.producers);
        var P, C0, C1 := Flatten(ProducerHands(s.producers)), Flatten(hs[..c]), Flatten(hs[c + 1..]);
        RegroupLink(s.produced, P, s.queue, C0, [m], C1);
        assert ConsumerRouted(t, c, r, s.consumed);
        OtherConsumersUnrelated(s, lanes, r, c, m);
        MoveKeepsOrder(s.produced + P + s.queue, C0, m, C1);
      } else {
        ConsumerSplit(s, c, t.(pc := CWait(false)));
      }
    }
  }

  lemma ConsumerHookKeepsOrder(s: State, c: nat, v: Verdict)
    requires InOrder(Pipeline(s)) && c < |s.consumers|
    ensures InOrder(Pipeline(DoConsumerHook(s, c, v)))
  {
    hide InOrder, Flatten;
    var t := s.consumers[c];
    var t' := DoConsumerHook(s, c, v).consumers[c];
    var hs := ConsumerHands(s.consumers);
    ConsumerSplit(s, c, t);
    ConsumerSplit(s, c, t');
    assert s.consumers[c := t] == s.consumers;
    if t.pc.CHook? && t.hand.Some? {
      var P, C0, C1 := Flatten(ProducerHands(s.producers)), Flatten(hs[..c]), Flatten(hs[c + 1..]);
      var a := s.produced + P + s.queue + C0;
      RegroupArrive(s.produced, P, s.queue, C0, [t.hand.value], C1);
      RegroupArrive(s.produced, P, s.queue, C0, Hand(t'), C1);
      if v.Accept? {
        RewriteKeepsOrder(a, t.hand.value, t'.hand.value, C1);
      } else {
        assert a + [] + C1 == a + C1;
        DropKeepsOrder(a, t.hand.value, C1);
      }
    }
  }

  lemma GetKeepsOrder(s: State, p: nat, lanes: seq<uint32>, r: Route)
    requires InOrder(Pipeline(s)) && Routes(s, lanes, r) && OneProducerPerLane(lanes) && Hands(s)
    requires p < |s.producers|
    ensures InOrder(Pipeline(DoGet(s, p)))
  {
    hide InOrder, Flatten;
    var t := s.producers[p];
    var t' := DoGet(s, p).producers[p];
    var hs := ProducerHands(s.producers);
    ProducerSplit(s, p, t);
    ProducerSplit(s, p, t');
    assert s.producers[p := t] == s.producers && ProducerHolds(t);
    var f := FirstOf(s.queue, t.lane);
    if (t.pc.PGet? || t.pc.PWaitAny? || t.pc.PWaitLane?) && f < |s.queue| {
      var m, Q0, Q1 := s.queue[f], s.queue[..f], s.queue[f + 1..];
      var P0, P1, C := Flatten(hs[..p]), Flatten(hs[p + 1..]), Flatten(ConsumerHands(s.consumers));
      assert ConsumerHands(WakeAdders(s.consumers)) == ConsumerHands(s.consumers);
      assert s.queue == Q0 + [m] + Q1;
      RegroupTake(s.produced, P0, P1, Q0, [m], Q1, C);
      assert MessageRouted(m, r, s.consumed);
      OtherProducersUnrelated(s, lanes, r, p, m);
      assert Unrelated(m, Q0) by {
        forall i | 0 <= i < f ensures s.queue[i].partition != m.partition {
          assert MessageRouted(s.queue[i], r, s.consumed);
        }
      }
      MoveKeepsOrder(s.produced + P0, P1 + Q0, m, Q1 + C);
    }
  }

  lemma ProducerHookKeepsOrder(s: State, p: nat, v: Verdict)
    requires InOrder(Pipeline(s)) && p < |s.producers|
    ensures InOrder(Pipeline(DoProducerHook(s, p, v)))
  {
    hide InOrder, Flatten;
    var t := s.producers[p];
    var t' := DoProducerHook(s, p, v).producers[p];
    var hs := ProducerHands(s.producers);
    ProducerSplit(s, p, t);
    ProducerSplit(s, p, t');
    assert s.producers[p := t] == s.producers;
    if t.pc.PHook? && t.hand.Some? {
      var P0, P1, C := Flatten(hs[..p]), Flatten(hs[p + 1..]), Flatten(ConsumerHands(s.consumers));
      RegroupProduce(s.produced, P0, [t.hand.value], P1, s.queue, C);
      if v.Accept? {
        RegroupProduce(s.produced, P0, [t'.hand.value], P1, s.queue, C);
        RewriteKeepsOrder(s.produced + P0, t.hand.value, t'.hand.value, P1 + s.queue + C);
      } else {
        DropKeepsOrder(s.produced + P0, t.hand.value, P1 + s.queue + C);
      }
    }
  }

  lemma ProduceKeepsOrder(s: State, p: nat, lanes: seq<uint32>, r: Route)
    requires InOrder(Pipeline(s)) && Routes(s, lanes, r) && OneProducerPerLane(lanes)
    requires p < |s.producers|
    ensures InOrder(Pipeline(DoProduce(s, p)))
  {
    hide InOrder, Flatten;
    var t := s.producers[p];
    var t' := t.(pc := PCallback);
    var hs := ProducerHands(s.producers);
    ProducerSplit(s, p, t);
    ProducerSplit(s, p, t');
    assert s.producers[p := t] == s.producers;
    if t.pc.PProduce? && t.hand.Some? {
      var m := t.hand.value;
      var P0, P1, C := Flatten(hs[..p]), Flatten(hs[p + 1..]), Flatten(ConsumerHands(s.consumers));
      RegroupProduce(s.produced, P0, [m], P1, s.queue, C);
      assert ProducerRouted(t, r, s.consumed) && (|lanes| > 1 ==> OnLane(t, lanes[p], r));
      OtherProducersUnrelated(s, lanes, r, p, m);
      MoveKeepsOrder(s.produced, P0, m, P1 + s.queue + C);
    }
  }

  /** The remaining actions move no message along the pipeline. */
  lemma QuietStepKeepsPipeline(s: State, a: Action)
    requires Hands(s)
    requires a.Stop? || a.ReadAdded? || a.ReadDelivered? || a.CheckConsuming? || a.CheckDone? || a.TimeOut? || a.Callback?
    ensures Pipeline(Next(s, a)) == Pipeline(s)
  {
    hide Flatten;
    assert ConsumerHands(Next(s, a).consumers) == ConsumerHands(s.consumers);
    assert ProducerHands(Next(s, a).producers) == ProducerHands(s.producers) by {
      forall p | 0 <= p < |s.producers| ensures Unproduced(Next(s, a).producers[p]) == Unproduced(s.producers[p]) {
        assert ProducerHolds(s.producers[p]);
      }
    }
  }

  lemma StepKeepsOrder(s: State, a: Action, lanes: seq<uint32>, r: Route)
    requires InOrder(Pipeline(s)) && Routes(s, lanes, r) && OneProducerPerLane(lanes) && Hands(s) && Routed(s, a, r)
    ensures InOrder(Pipeline(Next(s, a)))
  {
    hide InOrder, Pipeline, Routed, Hands, Routes;
    match a
    case Poll(c, polled) => if c < |s.consumers| { PollKeepsOrder(s, c, polled, lanes, r); }
    case ConsumerHook(c, v) => if c < |s.consumers| { ConsumerHookKeepsOrder(s, c, v); }
    case Add(c) => if c < |s.consumers| { AddKeepsOrder(s, c, lanes, r); }
    case Get(p) => if p < |s.producers| { GetKeepsOrder(s, p, lanes, r); }
    case ProducerHook(p, v) => if p < |s.producers| { ProducerHookKeepsOrder(s, p, v); }
    case Produce(p) => if p < |s.producers| { ProduceKeepsOrder(s, p, lanes, r); }
    case _ => QuietStepKeepsPipeline(s, a);
  }

  // ---- What the callbacks store ----

  ghost predicate AllBefore(q: seq<Message>, m: Message) {
    forall i :: 0 <= i < |q| ==> Before(q[i], m)
  }

  ghost predicate CallbackOk(t: Producer, produced: seq<Message>, stored: seq<Message>) {
    t.pc.PCallback? && t.hand.Some? ==> t.hand.value in produced && AllBefore(stored, t.hand.value)
  }

  /** Only produced messages are stored, in the order of their consumption within each partition. */
  ghost predicate StoredOk(s: State) {
    && InOrder(s.stored)
    && (forall i :: 0 <= i < |s.stored| ==> s.stored[i] in s.produced)
    && (forall p :: 0 <= p < |s.producers| ==> CallbackOk(s.producers[p], s.produced, s.stored))
  }

  ghost predicate OffsetsGrow(consumed: seq<Message>) {
    forall i, j :: 0 <= i < j < |consumed| && consumed[i].partition == consumed[j].partition ==> consumed[i].offset < consumed[j].offset
  }

  /** What is produced was consumed before whatever of its partition is still on the way. */
  lemma ProducedBeforeWaiting(s: State, x: Message, j: nat)
    requires InOrder(Pipeline(s)) && x in s.produced && j < |Waiting(s)|
    ensures Before(x, Waiting(s)[j])
  {
    var i :| 0 <= i < |s.produced| && s.produced[i] == x;
    assert Pipeline(s)[i] == x && Pipeline(s)[|s.produced| + j] == Waiting(s)[j];
  }

  lemma ProduceKeepsStored(s: State, p: nat)
    requires StoredOk(s) && InOrder(Pipeline(s)) && p < |s.producers|
    ensures StoredOk(DoProduce(s, p))
  {
    var t := s.producers[p];
    if t.pc.PProduce? && t.hand.Some? {
      var m := t.hand.value;
      var j := |Flatten(ProducerHands(s.producers)[..p])|;
      assert j < |Waiting(s)| && Waiting(s)[j] == m by {
        hide InOrder, Flatten;
        FlattenSplit(ProducerHands(s.producers), p);
      }
      forall i | 0 <= i < |s.stored| ensures Before(s.stored[i], m) {
        ProducedBeforeWaiting(s, s.stored[i], j);
      }
    }
  }

  lemma CallbackKeepsStored(s: State, p: nat, lanes: seq<uint32>, r: Route)
    requires StoredOk(s) && Routes(s, lanes, r) && OneProducerPerLane(lanes) && p < |s.producers|
    ensures StoredOk(DoCallback(s, p))
  {
    var t := s.producers[p];
    if t.pc.PCallback? && t.hand.Some? {
      var m := t.hand.value;
      assert CallbackOk(t, s.produced, s.stored) && ProducerRouted(t, r, s.consumed);
      assert |lanes| > 1 ==> OnLane(t, lanes[p], r);
      forall i | 0 <= i < |s.producers| && i != p ensures CallbackOk(s.producers[i], s.produced, s.stored + [m]) {
        assert CallbackOk(s.producers[i], s.produced, s.stored);
        assert ProducerRouted(s.producers[i], r, s.consumed) && lanes[i] != lanes[p];
        assert OnLane(s.producers[i], lanes[i], r);
      }
    }
  }

  lemma OtherStepsLeaveCallbacks(s: State, a: Action)
    requires !a.Produce? && !a.Callback?
    ensures var t := Next(s, a);
            && t.produced == s.produced && t.stored == s.stored && |t.producers| == |s.producers|
            && (forall p :: 0 <= p < |s.producers| && t.producers[p].pc.PCallback? ==> t.producers[p] == s.producers[p])
  {
  }

  lemma StepKeepsStored(s: State, a: Action, lanes: seq<uint32>, r: Route)
    requires StoredOk(s) && InOrder(Pipeline(s)) && Routes(s, lanes, r) && OneProducerPerLane(lanes)
    ensures StoredOk(Next(s, a))
  {
    match a
    case Produce(p) => if p < |s.producers| { ProduceKeepsStored(s, p); }
    case Callback(p) => if p < |s.producers| { CallbackKeepsStored(s, p, lanes, r); }
    case _ =>
      hide InOrder, Pipeline, Routes, AllBefore, Next;
      OtherStepsLeaveCallbacks(s, a);
  }

  lemma StepKeepsOffsets(s: State, a: Action, r: Route)
    requires OffsetsGrow(s.consumed) && Routed(s, a, r)
    ensures OffsetsGrow(Next(s, a).consumed)
  {
  }

  ghost predicate RoutedInv(s: State, lanes: seq<uint32>, r: Route) {
    && Hands(s) && Conserved(s) && Routes(s, lanes, r)
    && InOrder(Pipeline(s)) && StoredOk(s) && OffsetsGrow(s.consumed)
  }

  lemma StartInOrder(n: nat, lanes: seq<uint32>)
    ensures Pipeline(Start(n, lanes)) == []
  {
    var s := Start(n, lanes);
    if Flatten(ProducerHands(s.producers)) != [] {
      var i := FlattenMember(ProducerHands(s.producers), 0);
    }
    if Flatten(ConsumerHands(s.consumers)) != [] {
      var i := FlattenMember(ConsumerHands(s.consumers), 0);
    }
  }

  lemma {:induction false} EveryRoutedRun(n: nat, lanes: seq<uint32>, r: Route, run: seq<Action>)
    requires OneProducerPerLane(lanes) && RoutedRun(Start(n, lanes), run, r)
    ensures RoutedInv(After(Start(n, lanes), run), lanes, r)
  {
    var start := Start(n, lanes);
    if run == [] {
      StartInOrder(n, lanes);
      EveryRun(n, lanes, []);
    } else {
      var prefix, a := run[..|run| - 1], run[|run| - 1];
      assert RoutedRun(start, prefix, r) by {
        forall i | 0 <= i < |prefix| ensures Routed(After(start, prefix[..i]), prefix[i], r) {
          assert prefix[..i] == run[..i];
          assert Routed(After(start, run[..i]), run[i], r);
        }
      }
      EveryRoutedRun(n, lanes, r, prefix);
      hide Hands, Conserved, Routes, InOrder, Pipeline, StoredOk, OffsetsGrow, Next, Start;
      var s := After(start, prefix);
      assert Routed(s, a, r);
      EveryRun(n, lanes, run);
      StepKeepsRoutes(s, a, lanes, r);
      StepKeepsOrder(s, a, lanes, r);
      StepKeepsStored(s, a, lanes, r);
      StepKeepsOffsets(s, a, r);
    }
  }

  // ---- The main results ----

  lemma {:induction false} CountConsumerHands(cs: seq<Consumer>, id: nat)
    ensures Count(Flatten(ConsumerHands(cs)), id) == CountConsumers(cs, id)
  {
    hide Flatten, Count;
    if cs == [] {
      CountNoHands(ConsumerHands(cs), id);
    } else {
      var cs', t := cs[..|cs| - 1], cs[|cs| - 1];
      CountConsumerHands(cs', id);
      assert ConsumerHands(cs) == ConsumerHands(cs') + [Hand(t)];
      FlattenAppend(ConsumerHands(cs'), Hand(t));
      CountConcat(Flatten(ConsumerHands(cs')), Hand(t), id);
      CountHand(Hand(t), id);
    }
  }

  lemma {:induction false} CountProducerHands(ps: seq<Producer>, id: nat)
    ensures Count(Flatten(ProducerHands(ps)), id) == CountProducers(ps, id)
  {
    hide Flatten, Count;
    if ps == [] {
      CountNoHands(ProducerHands(ps), id);
    } else {
      var ps', t := ps[..|ps| - 1], ps[|ps| - 1];
      CountProducerHands(ps', id);
      assert ProducerHands(ps) == ProducerHands(ps') + [Unproduced(t)];
      FlattenAppend(ProducerHands(ps'), Unproduced(t));
      CountConcat(Flatten(ProducerHands(ps')), Unproduced(t), id);
      CountHand(Unproduced(t), id);
    }
  }

  lemma CountNoHands(hs: seq<seq<Message>>, id: nat)
    requires hs == []
    ensures Count(Flatten(hs), id) == 0
  {
  }

  lemma CountHand(q: seq<Message>, id: nat)
    requires |q| <= 1
    ensures Count(q, id) == if |q| == 1 && q[0].id == id then 1 else 0
  {
    assert |q| == 1 ==> q[..0] == [];
  }

  lemma {:induction false} CountedIsThere(q: seq<Message>, id: nat) returns (j: nat)
    requires Count(q, id) > 0
    ensures j < |q| && q[j].id == id
  {
    if q[|q| - 1].id == id {
      j := |q| - 1;
    } else {
      j := CountedIsThere(q[..|q| - 1], id);
    }
  }

  /** A consumed message that was neither produced nor rejected is on its way. */
  lemma OnTheWay(s: State, x: nat) returns (j: nat)
    requires Conserved(s) && x < |s.consumed| && Count(s.produced, x) == 0 && Count(s.rejected, x) == 0
    ensures j < |Waiting(s)| && Waiting(s)[j].id == x
  {
    var P, C := Flatten(ProducerHands(s.producers)), Flatten(ConsumerHands(s.consumers));
    assert Places(s, x) == 1;
    CountConsumerHands(s.consumers, x);
    CountProducerHands(s.producers, x);
    CountConcat(P + s.queue, C, x);
    CountConcat(P, s.queue, x);
    j := CountedIsThere(Waiting(s), x);
  }

  lemma EarlierProduced(s: State, lanes: seq<uint32>, r: Route, p: nat, x: nat)
    requires RoutedInv(s, lanes, r)
    requires p < |s.producers| && s.producers[p].pc.PCallback? && s.producers[p].hand.Some?
    requires x < s.producers[p].hand.value.id && x < |s.consumed|
    requires s.consumed[x].partition == s.producers[p].hand.value.partition
    ensures Count(s.produced, x) + Count(s.rejected, x) > 0
  {
    hide Pipeline, Conserved, Hands, Count, OffsetsGrow;
    if Count(s.produced, x) + Count(s.rejected, x) == 0 {
      var m := s.producers[p].hand.value;
      assert CallbackOk(s.producers[p], s.produced, s.stored);
      var j := OnTheWay(s, x);
      PipelineIs(s, j);
      PipelineGenuine(s, lanes, r, |s.produced| + j);
      ProducedBeforeWaiting(s, m, j);
      assert false;
    }
  }

  lemma PipelineIs(s: State, j: nat)
    requires j < |Waiting(s)|
    ensures |s.produced| + j < |Pipeline(s)| && Pipeline(s)[|s.produced| + j] == Waiting(s)[j]
  {
  }

  lemma AtMostOnce(s: State, x: nat)
    requires Conserved(s)
    ensures Count(s.produced, x) + Count(s.rejected, x) <= 1
  {
    assert Places(s, x) <= 1;
  }

  /** Whenever producer p is about to store the offset of the message in its hand, every message of
      that partition consumed earlier has been produced, or a hook has rejected it. */
  lemma StoresAfterAllEarlier(n: nat, lanes: seq<uint32>, r: Route, run: seq<Action>, p: nat, x: nat)
    requires OneProducerPerLane(lanes) && RoutedRun(Start(n, lanes), run, r)
    requires var s := After(Start(n, lanes), run);
             && p < |s.producers| && s.producers[p].pc.PCallback? && s.producers[p].hand.Some?
             && x < s.producers[p].hand.value.id && x < |s.consumed|
             && s.consumed[x].partition == s.producers[p].hand.value.partition
    ensures var s := After(Start(n, lanes), run);
            Count(s.produced, x) + Count(s.rejected, x) == 1
  {
    hide After, Start, RoutedRun, Hands, Conserved, Routes, InOrder, StoredOk, OffsetsGrow, Count;
    EveryRoutedRun(n, lanes, r, run);
    var s := After(Start(n, lanes), run);
    EarlierProduced(s, lanes, r, p, x);
    AtMostOnce(s, x);
  }

  /** The offsets stored for a partition strictly increase over every run. */
  lemma StoredOffsetsIncrease(n: nat, lanes: seq<uint32>, r: Route, run: seq<Action>, i: nat, j: nat)
    requires OneProducerPerLane(lanes) && RoutedRun(Start(n, lanes), run, r)
    requires var q := After(Start(n, lanes), run).stored;
             i < j < |q| && q[i].partition == q[j].partition
    ensures var q := After(Start(n, lanes), run).stored; q[i].offset < q[j].offset
  {
    EveryRoutedRun(n, lanes, r, run);
    var s := After(Start(n, lanes), run);
    var x, y := s.stored[i], s.stored[j];
    assert Before(x, y);
    assert Genuine(x, s.consumed) && Genuine(y, s.consumed) by {
      var k :| 0 <= k < |s.produced| && s.produced[k] == x;
      var l :| 0 <= l < |s.produced| && s.produced[l] == y;
    }
  }
}
