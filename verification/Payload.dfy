/** What a message carries on its way through the threads and the queue: nothing but its hooks changes it. */
module Payload {
  import opened Options
  import opened QueueSpec
  import opened Protocol

  /** A poll that delivers a message records exactly what was polled; the mark is the xmark's low 32 bits. */
  lemma PollRecords(s: State, c: nat, partition: nat, offset: int, xmark: int, body: seq<bv8>)
    requires c < |s.consumers| && s.consumers[c].pc == CPoll
    ensures var t := Next(s, Poll(c, Got(partition, offset, xmark, body)));
            && |t.consumed| == |s.consumed| + 1 && t.consumed[..|s.consumed|] == s.consumed
            && (var m := t.consumed[|s.consumed|];
                && m.id == |s.consumed| && m.partition == partition && m.offset == offset && m.body == body
                && (m.mark - xmark) % 0x1_0000_0000 == 0
                && t.consumers == s.consumers[c := Consumer(CHook, Some(m))])
  {
  }

  /** A hook that accepts leaves its thread with the same message, given the xmark and the body it wrote. */
  lemma HookRewrites(s: State, i: nat, xmark: int, body: seq<bv8>)
    ensures i < |s.consumers| && s.consumers[i].pc == CHook && s.consumers[i].hand.Some? ==>
              var m, t := s.consumers[i].hand.value, Next(s, ConsumerHook(i, Accept(xmark, body))).consumers[i];
              && t.pc == CAdd && t.hand == Some(Message(m.id, m.partition, m.offset, t.hand.value.mark, body))
              && (t.hand.value.mark - xmark) % 0x1_0000_0000 == 0
    ensures i < |s.producers| && s.producers[i].pc == PHook && s.producers[i].hand.Some? ==>
              var m, t := s.producers[i].hand.value, Next(s, ProducerHook(i, Accept(xmark, body))).producers[i];
              && t.pc == PProduce && t.hand == Some(Message(m.id, m.partition, m.offset, t.lane, body))
              && (t.lane - xmark) % 0x1_0000_0000 == 0
  {
  }

  /** A hook that rejects ends its message's way; the thread goes on at the top of its loop, a producer on the lane
      of the xmark that was written. */
  lemma HookRejects(s: State, i: nat, byFirst: bool, xmark: int)
    ensures i < |s.consumers| && s.consumers[i].pc == CHook && s.consumers[i].hand.Some? ==>
              var t := Next(s, ConsumerHook(i, Reject(byFirst, xmark)));
              t.consumers[i] == Consumer(CTop, None) && t.rejected == s.rejected + [s.consumers[i].hand.value]
    ensures i < |s.producers| && s.producers[i].pc == PHook && s.producers[i].hand.Some? ==>
              var t := Next(s, ProducerHook(i, Reject(byFirst, xmark)));
              && t.producers[i].pc.PTop? && t.producers[i].hand == None && (t.producers[i].lane - xmark) % 0x1_0000_0000 == 0
              && t.rejected == s.rejected + [s.producers[i].hand.value]
  {
  }

  /** m is the consumed message with its id, up to the mark; and up to the body, unless bodies is set. */
  ghost predicate Original(m: Message, consumed: seq<Message>, bodies: bool) {
    && m.id < |consumed| && consumed[m.id].partition == m.partition && consumed[m.id].offset == m.offset
    && (bodies ==> consumed[m.id].body == m.body)
  }

  ghost predicate HandOriginal(hand: Option<Message>, consumed: seq<Message>, bodies: bool) {
    hand.Some? ==> Original(hand.value, consumed, bodies)
  }

  ghost predicate AllOriginal(q: seq<Message>, consumed: seq<Message>, bodies: bool) {
    forall i :: 0 <= i < |q| ==> Original(q[i], consumed, bodies)
  }

  /** Every message that is anywhere, or was, is an original one. */
  ghost predicate Originals(s: State, bodies: bool) {
    && (forall i :: 0 <= i < |s.consumed| ==> s.consumed[i].id == i)
    && (forall c :: 0 <= c < |s.consumers| ==> HandOriginal(s.consumers[c].hand, s.consumed, bodies))
    && (forall p :: 0 <= p < |s.producers| ==> HandOriginal(s.producers[p].hand, s.consumed, bodies))
    && AllOriginal(s.queue, s.consumed, bodies) && AllOriginal(s.linked, s.consumed, bodies)
    && AllOriginal(s.taken, s.consumed, bodies) && AllOriginal(s.produced, s.consumed, bodies)
    && AllOriginal(s.rejected, s.consumed, bodies) && AllOriginal(s.stored, s.consumed, bodies)
  }

  /** A hook that accepts leaves the body as it finds it. */
  ghost predicate LeavesBody(s: State, a: Action) {
    && (a.ConsumerHook? && a.verdict.Accept? && a.c < |s.consumers| && s.consumers[a.c].hand.Some? ==>
          a.verdict.body == s.consumers[a.c].hand.value.body)
    && (a.ProducerHook? && a.verdict.Accept? && a.p < |s.producers| && s.producers[a.p].hand.Some? ==>
          a.verdict.body == s.producers[a.p].hand.value.body)
  }

  ghost predicate LeavesBodies(start: State, run: seq<Action>) {
    forall i :: 0 <= i < |run| ==> LeavesBody(After(start, run[..i]), run[i])
  }

  lemma MoreConsumed(q: seq<Message>, consumed: seq<Message>, m: Message, bodies: bool)
    requires AllOriginal(q, consumed, bodies)
    ensures AllOriginal(q, consumed + [m], bodies)
  {
  }

  lemma PollKeepsOriginals(s: State, c: nat, polled: Polled, bodies: bool)
    requires Originals(s, bodies) && c < |s.consumers| && s.consumers[c].pc == CPoll && polled.Got?
    ensures Originals(DoPoll(s, c, polled), bodies)
  {
    hide ToMark, AllOriginal;
    var m := Message(|s.consumed|, polled.partition, polled.offset, ToMark(polled.xmark), polled.body);
    MoreConsumed(s.queue, s.consumed, m, bodies);
    MoreConsumed(s.linked, s.consumed, m, bodies);
    MoreConsumed(s.taken, s.consumed, m, bodies);
    MoreConsumed(s.produced, s.consumed, m, bodies);
    MoreConsumed(s.rejected, s.consumed, m, bodies);
    MoreConsumed(s.stored, s.consumed, m, bodies);
  }

  lemma HookKeepsOriginals(s: State, a: Action, bodies: bool)
    requires Originals(s, bodies) && (bodies ==> LeavesBody(s, a)) && (a.ConsumerHook? || a.ProducerHook?)
    ensures Originals(Next(s, a), bodies)
  {
    hide ToMark;
  }

  lemma GetKeepsOriginals(s: State, p: nat, bodies: bool)
    requires Originals(s, bodies)
    ensures Originals(Next(s, Get(p)), bodies)
  {
    hide Original, Lane;
  }

  lemma ConsumerStepKeepsOriginals(s: State, a: Action, bodies: bool)
    requires Originals(s, bodies) && (a.CheckConsuming? || a.Add?)
    ensures Originals(Next(s, a), bodies)
  {
    hide Lane, Original;
  }

  lemma ProducerStepKeepsOriginals(s: State, a: Action, bodies: bool)
    requires Originals(s, bodies) && (a.CheckDone? || a.TimeOut? || a.Produce? || a.Callback?)
    ensures Originals(Next(s, a), bodies)
  {
    hide Original;
  }

  lemma StepKeepsOriginals(s: State, a: Action, bodies: bool)
    requires Originals(s, bodies) && (bodies ==> LeavesBody(s, a))
    ensures Originals(Next(s, a), bodies)
  {
    hide ToMark, Lane, GetStep, Original, AllOriginal, LeavesBody, Broadcast;
    match a
    case Stop =>
    case ReadAdded =>
    case ReadDelivered =>
    case Poll(c, polled) =>
      if c < |s.consumers| && s.consumers[c].pc == CPoll && polled.Got? {
        PollKeepsOriginals(s, c, polled, bodies);
      }
    case ConsumerHook(_, _) => HookKeepsOriginals(s, a, bodies);
    case ProducerHook(_, _) => HookKeepsOriginals(s, a, bodies);
    case Get(p) => GetKeepsOriginals(s, p, bodies);
    case CheckConsuming(_) => ConsumerStepKeepsOriginals(s, a, bodies);
    case Add(_) => ConsumerStepKeepsOriginals(s, a, bodies);
    case _ => ProducerStepKeepsOriginals(s, a, bodies);
  }

  /** Over every run, whatever is queued, held, produced, rejected or has its offset stored is a message that was
      consumed, with its partition and offset; and with its body, if no hook writes bodies. */
  lemma {:induction false} EveryRunKeepsPayload(n: nat, lanes: seq<uint32>, run: seq<Action>, bodies: bool)
    requires bodies ==> LeavesBodies(Start(n, lanes), run)
    ensures Originals(After(Start(n, lanes), run), bodies)
  {
    hide Next, LeavesBody;
    if run != [] {
      var start, init := Start(n, lanes), run[..|run| - 1];
      if bodies {
        forall i | 0 <= i < |init| ensures LeavesBody(After(start, init[..i]), init[i]) {
          assert init[..i] == run[..i] && LeavesBody(After(start, run[..i]), run[i]);
        }
      }
      EveryRunKeepsPayload(n, lanes, init, bodies);
      StepKeepsOriginals(After(start, init), run[|run| - 1], bodies);
    }
  }
}
