/**
 The consumer and producer threads around the queue, as a step system. A step is one critical
 section of the queue's mutex (split at every condition wait) or one action outside of it; every
 sequence of actions is a run, and an action that is not enabled leaves the state unchanged.
 */
module Protocol {
  import opened Options
  import opened QueueSpec

  /** Where a thread of `consume` stands; woken says that a broadcast reached its wait. */
  datatype ConsumerPc = CTop | CPoll | CHook | CAdd | CWait(woken: bool) | CDone
  datatype Consumer = Consumer(pc: ConsumerPc, hand: Option<Message>)

  /** What the last queue_get of a thread of `produce` returned. */
  datatype Ret = Ok | TimedOut | BadMessage
  datatype ProducerPc =
    | PTop(ret: Ret) | PGet | PWaitAny(woken: bool) | PWaitLane(woken: bool)
    | PHook | PProduce | PCallback | PDone
  /** A thread of `produce`; lane is the xmark of the message it reuses for every queue_get. */
  datatype Producer = Producer(lane: uint32, pc: ProducerPc, hand: Option<Message>)

  /** The running system, with the history its properties speak about: every message in the order it
      was consumed, linked, taken, produced, rejected by a hook, or had its callback run. */
  datatype State = State(
    consuming: bool,
    queue: seq<Message>,
    consumers: seq<Consumer>,
    producers: seq<Producer>,
    added: int,
    delivered: int,
    reportedAdded: int,
    reportedDelivered: int,
    consumed: seq<Message>,
    linked: seq<Message>,
    taken: seq<Message>,
    produced: seq<Message>,
    rejected: seq<Message>,
    stored: seq<Message>)

  datatype Polled = Failed | Nothing | Got(partition: nat, offset: int, xmark: int, body: seq<bv8>)
  /** The two hook lists a message passes on one side of the queue accept it, perhaps with a new
      xmark and body, or the first or the second of them rejects it, perhaps after an earlier hook of the
      list has written the xmark. */
  datatype Verdict = Accept(xmark: int, body: seq<bv8>) | Reject(byFirst: bool, xmark: int)

  datatype Action =
    | Stop
    | ReadAdded
    | ReadDelivered
    | CheckConsuming(c: nat)
    | Poll(c: nat, polled: Polled)
    | ConsumerHook(c: nat, verdict: Verdict)
    | Add(c: nat)
    | CheckDone(p: nat)
    | Get(p: nat)
    | TimeOut(p: nat)
    | ProducerHook(p: nat, verdict: Verdict)
    | Produce(p: nat)
    | Callback(p: nat)

  function Rewritten(m: Message, v: Verdict): Message
    requires v.Accept?
  {
    m.(mark := ToMark(v.xmark), body := v.body)
  }

  /** A waiting producer after the broadcasts of queue_add on lane k. */
  function Woken(t: Producer, wakeAny: bool, wakeLane: bool, k: uint32): Producer {
    if t.pc.PWaitAny? && wakeAny then t.(pc := PWaitAny(true))
    else if t.pc.PWaitLane? && wakeLane && t.lane == k then t.(pc := PWaitLane(true))
    else t
  }

  function Broadcast(ps: seq<Producer>, wakeAny: bool, wakeLane: bool, k: uint32): (r: seq<Producer>)
    ensures |r| == |ps|
  {
    seq(|ps|, i requires 0 <= i < |ps| => Woken(ps[i], wakeAny, wakeLane, k))
  }

  function WakeAdders(cs: seq<Consumer>): (r: seq<Consumer>)
    ensures |r| == |cs|
  {
    seq(|cs|, i requires 0 <= i < |cs| => if cs[i].pc.CWait? then cs[i].(pc := CWait(true)) else cs[i])
  }

  /** The top of consume's loop. */
  function DoCheckConsuming(s: State, c: nat): State
    requires c < |s.consumers|
  {
    var t := s.consumers[c];
    if !t.pc.CTop? then s
    else s.(consumers := s.consumers[c := t.(pc := if s.consuming then CPoll else CDone)])
  }

  /** consumer_consume: an error ends the loop, no data repeats it, data goes to the hooks. */
  function DoPoll(s: State, c: nat, polled: Polled): State
    requires c < |s.consumers|
  {
    var t := s.consumers[c];
    if !t.pc.CPoll? then s
    else match polled
      case Failed => s.(consumers := s.consumers[c := t.(pc := CDone)])
      case Nothing => s.(consumers := s.consumers[c := t.(pc := CTop)])
      case Got(partition, offset, xmark, body) =>
        var m := Message(|s.consumed|, partition, offset, ToMark(xmark), body);
        s.(consumers := s.consumers[c := Consumer(CHook, Some(m))], consumed := s.consumed + [m])
  }

  /** The preadd and postadd hooks, both outside the critical section. */
  function DoConsumerHook(s: State, c: nat, v: Verdict): State
    requires c < |s.consumers|
  {
    var t := s.consumers[c];
    if !t.pc.CHook? || t.hand.None? then s
    else if v.Accept? then
      s.(consumers := s.consumers[c := Consumer(CAdd, Some(Rewritten(t.hand.value, v)))])
    else
      s.(consumers := s.consumers[c := Consumer(CTop, None)], rejected := s.rejected + [t.hand.value])
  }

  /** queue_add's critical section, first entered or entered again after a wakeup (spurious or not). */
  function DoAdd(s: State, c: nat): State
    requires c < |s.consumers|
  {
    var t := s.consumers[c];
    if !(t.pc.CAdd? || t.pc.CWait?) || t.hand.None? then s
    else
      var m := t.hand.value;
      var r := AddStep(s.queue, m);
      if !r.linked then s.(consumers := s.consumers[c := t.(pc := CWait(false))])
      else
        s.(queue := r.queue,
           consumers := s.consumers[c := Consumer(CTop, None)],
           producers := Broadcast(s.producers, r.wakeAny, r.wakeLane, m.mark),
           added := s.added + 1,
           linked := s.linked + [m])
  }

  /** The top of produce's loop. */
  function DoCheckDone(s: State, p: nat): State
    requires p < |s.producers|
  {
    var t := s.producers[p];
    if !t.pc.PTop? then s
    else s.(producers := s.producers[p := t.(pc := if !s.consuming && t.pc.ret.TimedOut? then PDone else PGet)])
  }

  /** queue_get's critical section, first entered or entered again after a wakeup. */
  ghost function DoGet(s: State, p: nat): State
    requires p < |s.producers|
  {
    var t := s.producers[p];
    if !(t.pc.PGet? || t.pc.PWaitAny? || t.pc.PWaitLane?) then s
    else
      var r := GetStep(s.queue, t.lane, t.pc.PWaitLane?);
      match r.outcome
      case WaitForAny => s.(producers := s.producers[p := t.(pc := PWaitAny(false))])
      case WaitForLane => s.(producers := s.producers[p := t.(pc := PWaitLane(false))])
      case Taken(m) =>
        s.(queue := r.queue,
           consumers := WakeAdders(s.consumers),
           producers := s.producers[p := Producer(t.lane, PHook, Some(m))],
           delivered := s.delivered + 1,
           taken := s.taken + [m])
  }

  /** Either timed wait gives up: queue_get returns ETIMEDOUT. */
  function DoTimeOut(s: State, p: nat): State
    requires p < |s.producers|
  {
    var t := s.producers[p];
    if !(t.pc.PWaitAny? || t.pc.PWaitLane?) then s
    else s.(producers := s.producers[p := t.(pc := PTop(TimedOut))])
  }

  /** The preget and postget hooks, both outside the critical section. A producer's message carries the
      xmark that selects the lane of its next queue_get, so a hook that writes it moves the producer. */
  function DoProducerHook(s: State, p: nat, v: Verdict): State
    requires p < |s.producers|
  {
    var t := s.producers[p];
    if !t.pc.PHook? || t.hand.None? then s
    else
      var lane := ToMark(v.xmark);
      if v.Accept? then
        s.(producers := s.producers[p := Producer(lane, PProduce, Some(Rewritten(t.hand.value, v)))])
      else
        var ret := if v.byFirst then BadMessage else Ok;
        s.(producers := s.producers[p := Producer(lane, PTop(ret), None)], rejected := s.rejected + [t.hand.value])
  }

  /** producer_produce. */
  function DoProduce(s: State, p: nat): State
    requires p < |s.producers|
  {
    var t := s.producers[p];
    if !t.pc.PProduce? || t.hand.None? then s
    else s.(producers := s.producers[p := t.(pc := PCallback)], produced := s.produced + [t.hand.value])
  }

  /** The message's callback, which stores its offset; then the message is given up. */
  function DoCallback(s: State, p: nat): State
    requires p < |s.producers|
  {
    var t := s.producers[p];
    if !t.pc.PCallback? || t.hand.None? then s
    else s.(producers := s.producers[p := Producer(t.lane, PTop(Ok), None)], stored := s.stored + [t.hand.value])
  }

  ghost function Next(s: State, a: Action): State {
    match a
    case Stop => s.(consuming := false)
    case ReadAdded => s.(reportedAdded := s.reportedAdded + s.added, added := 0)
    case ReadDelivered => s.(reportedDelivered := s.reportedDelivered + s.delivered, delivered := 0)
    case CheckConsuming(c) => if c < |s.consumers| then DoCheckConsuming(s, c) else s
    case Poll(c, polled) => if c < |s.consumers| then DoPoll(s, c, polled) else s
    case ConsumerHook(c, v) => if c < |s.consumers| then DoConsumerHook(s, c, v) else s
    case Add(c) => if c < |s.consumers| then DoAdd(s, c) else s
    case CheckDone(p) => if p < |s.producers| then DoCheckDone(s, p) else s
    case Get(p) => if p < |s.producers| then DoGet(s, p) else s
    case TimeOut(p) => if p < |s.producers| then DoTimeOut(s, p) else s
    case ProducerHook(p, v) => if p < |s.producers| then DoProducerHook(s, p, v) else s
    case Produce(p) => if p < |s.producers| then DoProduce(s, p) else s
    case Callback(p) => if p < |s.producers| then DoCallback(s, p) else s
  }

  /** The state a run ends in. */
  ghost function After(s: State, run: seq<Action>): State {
    if run == [] then s else Next(After(s, run[..|run| - 1]), run[|run| - 1])
  }

  /** n consumer threads, and one producer thread per entry of lanes. */
  function Start(n: nat, lanes: seq<uint32>): State {
    State(true, [],
          seq(n, i => Consumer(CTop, None)),
          seq(|lanes|, i requires 0 <= i < |lanes| => Producer(lanes[i], PTop(Ok), None)),
          0, 0, 0, 0, [], [], [], [], [], [])
  }

  // ---- No lost wakeups ----

  ghost predicate ConsumerAwake(t: Consumer, q: seq<Message>) {
    t.pc == CWait(false) ==> |q| > MAX_QUEUE_SIZE
  }

  ghost predicate ProducerAwake(t: Producer, q: seq<Message>) {
    && (t.pc == PWaitAny(false) ==> q == [])
    && (t.pc == PWaitLane(false) ==> Lane(q, t.lane) == [])
  }

  /** A thread that waits without a pending wakeup waits for something that has not happened yet,
      and the queue is never more than one message over its limit. */
  ghost predicate NoLostWakeup(s: State) {
    && |s.queue| <= MAX_QUEUE_SIZE + 1
    && (forall c :: 0 <= c < |s.consumers| ==> ConsumerAwake(s.consumers[c], s.queue))
    && (forall p :: 0 <= p < |s.producers| ==> ProducerAwake(s.producers[p], s.queue))
  }

  lemma LinkKeepsAwake(t: Producer, q: seq<Message>, m: Message)
    requires ProducerAwake(t, q) && |q| <= MAX_QUEUE_SIZE
    ensures var r := AddStep(q, m); ProducerAwake(Woken(t, r.wakeAny, r.wakeLane, m.mark), r.queue)
  {
    LaneAfterLink(q, m, t.lane);
  }

  lemma AddKeepsWakeups(s: State, c: nat)
    requires NoLostWakeup(s) && c < |s.consumers|
    ensures NoLostWakeup(DoAdd(s, c))
  {
    var t := s.consumers[c];
    if (t.pc.CAdd? || t.pc.CWait?) && t.hand.Some? && |s.queue| <= MAX_QUEUE_SIZE {
      forall p | 0 <= p < |s.producers| ensures ProducerAwake(DoAdd(s, c).producers[p], DoAdd(s, c).queue) {
        LinkKeepsAwake(s.producers[p], s.queue, t.hand.value);
      }
    }
  }

  lemma GetKeepsWakeups(s: State, p: nat)
    requires NoLostWakeup(s) && p < |s.producers|
    ensures NoLostWakeup(DoGet(s, p))
  {
    var k := s.producers[p].lane;
    forall i | 0 <= i < |s.producers| ensures ProducerAwake(DoGet(s, p).producers[i], DoGet(s, p).queue) {
      LaneWithoutFirst(s.queue, k, s.producers[i].lane);
      assert ProducerAwake(s.producers[i], s.queue);
    }
    forall i | 0 <= i < |s.consumers| ensures ConsumerAwake(DoGet(s, p).consumers[i], DoGet(s, p).queue) {
      assert ConsumerAwake(s.consumers[i], s.queue);
    }
  }

  lemma StepKeepsWakeups(s: State, a: Action)
    requires NoLostWakeup(s)
    ensures NoLostWakeup(Next(s, a))
  {
    match a
    case Add(c) => if c < |s.consumers| { AddKeepsWakeups(s, c); }
    case Get(p) => if p < |s.producers| { GetKeepsWakeups(s, p); }
    case _ =>
  }

  /** In every interleaving, no wakeup is lost. */
  lemma {:induction false} NeverLosesAWakeup(n: nat, lanes: seq<uint32>, run: seq<Action>)
    ensures NoLostWakeup(After(Start(n, lanes), run))
  {
    if run != [] {
      NeverLosesAWakeup(n, lanes, run[..|run| - 1]);
      StepKeepsWakeups(After(Start(n, lanes), run[..|run| - 1]), run[|run| - 1]);
    }
  }

  /** The thread can only be moved on by a wakeup that is not pending (or by a timeout). */
  ghost predicate ConsumerStuck(t: Consumer) {
    t.pc == CWait(false)
  }

  ghost predicate ProducerStuck(t: Producer) {
    t.pc == PWaitAny(false) || t.pc == PWaitLane(false)
  }

  /** When a consumer is stuck, the only producers that can be stuck too are those whose lane is
      empty: if all of them are stuck or finished, every queued message lies in a lane that no
      producer still serves. */
  lemma StallNeedsUnservedLane(n: nat, lanes: seq<uint32>, run: seq<Action>, c: nat, i: nat, p: nat)
    requires var s := After(Start(n, lanes), run);
             && c < |s.consumers| && ConsumerStuck(s.consumers[c])
             && (forall j :: 0 <= j < |s.producers| ==> ProducerStuck(s.producers[j]) || s.producers[j].pc == PDone)
             && i < |s.queue| && p < |s.producers|
    ensures var s := After(Start(n, lanes), run);
            && |s.queue| == MAX_QUEUE_SIZE + 1
            && (s.producers[p].lane == s.queue[i].mark ==> s.producers[p].pc == PDone)
  {
    var s := After(Start(n, lanes), run);
    NeverLosesAWakeup(n, lanes, run);
    assert ConsumerAwake(s.consumers[c], s.queue);
    assert ProducerAwake(s.producers[p], s.queue);
    LaneMembers(s.queue, s.queue[i].mark, s.queue[i]);
  }
}
