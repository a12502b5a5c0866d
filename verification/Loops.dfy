/**
 When the threads wait, are woken, go on and leave their loops: what `consume`, `produce`, queue_add and
 queue_get do at each of their tests, over every run.
 */
module Loops {
  import opened Options
  import opened QueueSpec
  import opened Protocol

  // ---- Leaving the loops ----

  /** How the last queue_get of a producer that has returned ended. */
  datatype Ending = NoneYet | Took | GaveUp

  predicate InWait(t: Producer) {
    t.pc.PWaitAny? || t.pc.PWaitLane?
  }

  /** The action makes producer p give up a wait. */
  predicate GivesUp(s: State, a: Action, p: nat) {
    p < |s.producers| && a == TimeOut(p) && InWait(s.producers[p])
  }

  /** The action makes producer p take a message. */
  ghost predicate Takes(s: State, a: Action, p: nat) {
    p < |s.producers| && a == Get(p) && |Next(s, a).taken| > |s.taken|
  }

  /** The ending of producer p's last queue_get in a run, read off the actions of the run. */
  ghost function LastEnding(start: State, run: seq<Action>, p: nat): Ending {
    if run == [] then NoneYet
    else
      var s, a := After(start, run[..|run| - 1]), run[|run| - 1];
      if GivesUp(s, a, p) then GaveUp
      else if Takes(s, a, p) then Took
      else LastEnding(start, run[..|run| - 1], p)
  }

  /** It is GaveUp exactly if some action of the run made p give up, and none after it made p take a message. */
  lemma {:induction false} GaveUpMeans(start: State, run: seq<Action>, p: nat)
    ensures LastEnding(start, run, p) == GaveUp <==>
            exists j :: 0 <= j < |run| && GaveUpAt(start, run, p, j)
  {
    hide Takes, GivesUp, After;
    if run != [] {
      var init, last := run[..|run| - 1], |run| - 1;
      GaveUpMeans(start, init, p);
      Exclusive(After(start, init), run[last], p);
      assert run[..last] == init;
      forall j | 0 <= j < last ensures GaveUpAt(start, run, p, j) <==>
          GaveUpAt(start, init, p, j) && !Takes(After(start, init), run[last], p) {
        assert run[..j] == init[..j];
        assert forall k :: j < k < last ==> run[..k] == init[..k];
      }
      if LastEnding(start, run, p) == GaveUp {
        if GivesUp(After(start, init), run[last], p) {
          assert GaveUpAt(start, run, p, last);
        } else {
          var j :| 0 <= j < |init| && GaveUpAt(start, init, p, j);
          assert GaveUpAt(start, run, p, j);
        }
      }
    }
  }

  ghost predicate GaveUpAt(start: State, run: seq<Action>, p: nat, j: nat)
    requires j < |run|
  {
    && GivesUp(After(start, run[..j]), run[j], p)
    && forall k {:trigger run[k]} :: j < k < |run| ==> !Takes(After(start, run[..k]), run[k], p)
  }

  lemma Exclusive(s: State, a: Action, p: nat)
    ensures !(GivesUp(s, a, p) && Takes(s, a, p))
  {
    hide Next;
  }

  /** What a producer remembers of its last queue_get. */
  ghost predicate Remembers(t: Producer, e: Ending) {
    && (t.pc.PTop? ==> (t.pc.ret == TimedOut <==> e == GaveUp))
    && (t.pc.PHook? || t.pc.PProduce? || t.pc.PCallback? ==> e == Took)
  }

  ghost function NextEnding(s: State, a: Action, p: nat, e: Ending): Ending {
    if GivesUp(s, a, p) then GaveUp else if Takes(s, a, p) then Took else e
  }

  lemma GetRemembers(s: State, q: nat, p: nat, e: Ending)
    requires p < |s.producers| && Remembers(s.producers[p], e)
    ensures |Next(s, Get(q)).producers| == |s.producers|
    ensures Remembers(Next(s, Get(q)).producers[p], NextEnding(s, Get(q), p, e))
  {
    hide Lane, FirstOf, WakeAdders;
  }

  lemma StepRemembers(s: State, a: Action, p: nat, e: Ending)
    requires p < |s.producers| && Remembers(s.producers[p], e)
    ensures |Next(s, a).producers| == |s.producers|
    ensures Remembers(Next(s, a).producers[p], NextEnding(s, a, p, e))
  {
    hide ToMark, Lane, GetStep;
    if a.Get? {
      GetRemembers(s, a.p, p, e);
    }
  }

  lemma {:induction false} RunRemembers(n: nat, lanes: seq<uint32>, run: seq<Action>, p: nat)
    requires p < |lanes|
    ensures var s := After(Start(n, lanes), run);
            |s.producers| == |lanes| && Remembers(s.producers[p], LastEnding(Start(n, lanes), run, p))
  {
    hide Next, GivesUp, Takes;
    if run != [] {
      var init := run[..|run| - 1];
      RunRemembers(n, lanes, init, p);
      StepRemembers(After(Start(n, lanes), init), run[|run| - 1], p, LastEnding(Start(n, lanes), init, p));
    }
  }

  /** A step ends a producer exactly if it is the producer's own test at the top of its loop, consuming has
      been stopped, and its last queue_get timed out. */
  lemma ProducerLeavesIff(n: nat, lanes: seq<uint32>, run: seq<Action>, a: Action, p: nat)
    requires p < |lanes|
    ensures var s := After(Start(n, lanes), run);
            && p < |s.producers| && p < |Next(s, a).producers|
            && (s.producers[p].pc != PDone && Next(s, a).producers[p].pc == PDone <==>
                && a == CheckDone(p) && s.producers[p].pc.PTop? && !s.consuming
                && LastEnding(Start(n, lanes), run, p) == GaveUp)
            && (s.producers[p].pc == PDone ==> Next(s, a).producers[p].pc == PDone)
  {
    hide After, Start, LastEnding, GivesUp, Takes;
    RunRemembers(n, lanes, run, p);
    var s := After(Start(n, lanes), run);
    LeavesIff(s, a, p);
  }

  lemma LeavesIff(s: State, a: Action, p: nat)
    requires p < |s.producers|
    ensures p < |Next(s, a).producers|
    ensures s.producers[p].pc != PDone && Next(s, a).producers[p].pc == PDone <==>
            a == CheckDone(p) && s.producers[p].pc == PTop(TimedOut) && !s.consuming
    ensures s.producers[p].pc == PDone ==> Next(s, a).producers[p].pc == PDone
  {
    hide ToMark, Lane, FirstOf;
  }

  /** At the top of its loop, a producer that has not given up, or for which consuming goes on, takes the oldest
      message of its lane: stopping the consumers leaves no message behind while producers find some. */
  lemma StillServes(n: nat, lanes: seq<uint32>, run: seq<Action>, p: nat)
    requires p < |lanes|
    requires var s := After(Start(n, lanes), run);
             && p < |s.producers| && s.producers[p].pc.PTop? && Lane(s.queue, s.producers[p].lane) != []
             && (s.consuming || LastEnding(Start(n, lanes), run, p) != GaveUp)
    ensures var s := After(Start(n, lanes), run);
            var m := Lane(s.queue, s.producers[p].lane)[0];
            var t := Next(Next(s, CheckDone(p)), Get(p));
            && t.taken == s.taken + [m] && p < |t.producers| && t.producers[p].hand == Some(m)
  {
    hide After, Start, LastEnding, Lane, FirstOf, WakeAdders;
    RunRemembers(n, lanes, run, p);
    var s := After(Start(n, lanes), run);
    LaneWithoutFirst(s.queue, s.producers[p].lane, s.producers[p].lane);
  }

  /** A step ends a consumer exactly if it is the consumer's own test at the top of its loop after consuming has
      been stopped, or a poll of it that fails. */
  lemma ConsumerLeavesIff(s: State, a: Action, c: nat)
    requires c < |s.consumers|
    ensures c < |Next(s, a).consumers|
    ensures s.consumers[c].pc != CDone && Next(s, a).consumers[c].pc == CDone <==>
            || (a == CheckConsuming(c) && s.consumers[c].pc == CTop && !s.consuming)
            || (a == Poll(c, Failed) && s.consumers[c].pc == CPoll)
    ensures s.consumers[c].pc == CDone ==> Next(s, a).consumers[c].pc == CDone
  {
    hide ToMark, Lane, FirstOf;
  }

  /** Consuming goes on until it is stopped, and is never taken up again. */
  lemma ConsumesUntilStopped(s: State, a: Action)
    ensures Next(s, a).consuming <==> s.consuming && a != Stop
  {
    hide ToMark, Lane, FirstOf;
  }

  /** Stopping ends every thread: a consumer at its next test, and a producer once its wait has timed out. */
  lemma StopEndsThreads(s: State, i: nat)
    ensures i < |s.consumers| && s.consumers[i].pc == CTop ==>
              var t := Next(Next(s, Stop), CheckConsuming(i)); i < |t.consumers| && t.consumers[i].pc == CDone
    ensures i < |s.producers| && InWait(s.producers[i]) ==>
              var t := Next(Next(Next(s, Stop), TimeOut(i)), CheckDone(i)); i < |t.producers| && t.producers[i].pc == PDone
  {
  }

  /** Reading a counter reports what was counted since the last reading, and resets it. */
  lemma ReadingResets(s: State)
    ensures var t := Next(s, ReadAdded); t == s.(added := 0, reportedAdded := s.reportedAdded + s.added)
    ensures var t := Next(s, ReadDelivered); t == s.(delivered := 0, reportedDelivered := s.reportedDelivered + s.delivered)
  {
  }

  // ---- Waiting and waking ----

  /** A queue_add waits exactly while there are more than 100000 messages, and otherwise links its own. */
  lemma AddWaitsIff(s: State, c: nat, m: Message)
    requires c < |s.consumers| && s.consumers[c].hand == Some(m) && (s.consumers[c].pc == CAdd || s.consumers[c].pc.CWait?)
    ensures var t := Next(s, Add(c));
            if |s.queue| > 100000 then
              t == s.(consumers := s.consumers[c := Consumer(CWait(false), Some(m))])
            else
              t.queue == s.queue + [m] && t.consumers == s.consumers[c := Consumer(CTop, None)] && t.added == s.added + 1
  {
    hide Lane;
  }

  /** A queue_get takes its lane's oldest message if there is one. Otherwise it waits: for any message if it found
      the queue empty and has not yet seen a message, and else for its lane. */
  lemma GetWaitsIff(s: State, p: nat)
    requires p < |s.producers| && (s.producers[p].pc == PGet || InWait(s.producers[p]))
    ensures var t, k := Next(s, Get(p)), s.producers[p].lane;
            if Lane(s.queue, k) != [] then
              t.taken == s.taken + [Lane(s.queue, k)[0]] && t.delivered == s.delivered + 1
              && t.producers == s.producers[p := Producer(k, PHook, Some(Lane(s.queue, k)[0]))]
            else
              t == s.(producers := s.producers[p := s.producers[p].(pc :=
                if s.queue == [] && !s.producers[p].pc.PWaitLane? then PWaitAny(false) else PWaitLane(false))])
  {
    hide Lane, FirstOf, WakeAdders;
    LaneWithoutFirst(s.queue, s.producers[p].lane, s.producers[p].lane);
  }

  /** An add wakes the producers that wait for any message exactly if the queue was empty, and those that wait for
      its lane exactly if that lane was empty; it changes nothing else about them. */
  lemma AddWakesIff(s: State, c: nat, m: Message, p: nat)
    requires c < |s.consumers| && s.consumers[c].hand == Some(m) && (s.consumers[c].pc == CAdd || s.consumers[c].pc.CWait?)
    requires |s.queue| <= 100000 && p < |s.producers|
    ensures var t, u := s.producers[p], Next(s, Add(c)).producers[p];
            && (t.pc.PWaitAny? ==> u == t.(pc := PWaitAny(t.pc.woken || s.queue == [])))
            && (t.pc.PWaitLane? ==> u == t.(pc := PWaitLane(t.pc.woken || (t.lane == m.mark && Lane(s.queue, m.mark) == []))))
            && (!InWait(t) ==> u == t)
  {
    hide Lane;
  }

  /** A take wakes every adder that waits, and no other consumer changes. */
  lemma TakeWakes(s: State, p: nat, c: nat)
    requires p < |s.producers| && (s.producers[p].pc == PGet || InWait(s.producers[p])) && c < |s.consumers|
    requires Lane(s.queue, s.producers[p].lane) != []
    ensures var t, u := s.consumers[c], Next(s, Get(p)).consumers[c];
            if t.pc.CWait? then u == t.(pc := CWait(true)) else u == t
  {
    hide Lane, FirstOf;
    LaneWithoutFirst(s.queue, s.producers[p].lane, s.producers[p].lane);
  }
}
