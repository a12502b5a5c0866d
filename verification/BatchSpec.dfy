/**
 The batch machine on values: rows gather in a COPY session that is committed when it is full, or by a
 worker that ticks once a second. Every step is one stretch under the commit mutex.
 */
module BatchSpec {
  import opened Sequences

  const BATCH_LIMIT := 2000
  const PERIOD := 16

  /** The committed sessions, whether a session is open, its rows, and the worker's tick counter. */
  datatype State<R> = State(committed: seq<seq<R>>, open: bool, current: seq<R>, iter: nat)

  /** A producer puts a row; a producer opens a session but then refuses its message; the worker ticks. */
  datatype Step<R> = Put(row: R) | Refuse | Tick

  function Start<R>(): State<R> {
    State([], false, [], 0)
  }

  function Commit<R>(s: State<R>): State<R> {
    State(s.committed + [s.current], false, [], 0)
  }

  function Do<R>(s: State<R>, step: Step<R>): State<R> {
    match step
    case Put(row) =>
      var t := s.(open := true, current := s.current + [row]);
      if |t.current| == BATCH_LIMIT then Commit(t) else t
    case Refuse => s.(open := true)
    case Tick =>
      var t := s.(iter := (s.iter + 1) % PERIOD);
      if t.iter == 0 && |t.current| > 0 then Commit(t) else t
  }

  /** Freeing the producer commits a session that is still open. */
  function Free<R>(s: State<R>): State<R> {
    if s.open then Commit(s) else s
  }

  function After<R>(run: seq<Step<R>>): State<R> {
    if run == [] then Start() else Do(After(run[..|run| - 1]), run[|run| - 1])
  }

  /** The rows put during a run, in order. */
  function Rows<R>(run: seq<Step<R>>): seq<R> {
    if run == [] then []
    else
      var rows, last := Rows(run[..|run| - 1]), run[|run| - 1];
      if last.Put? then rows + [last.row] else rows
  }

  function Ticks<R>(run: seq<Step<R>>): nat {
    if run == [] then 0 else Ticks(run[..|run| - 1]) + if run[|run| - 1].Tick? then 1 else 0
  }

  ghost predicate NoneRefused<R>(run: seq<Step<R>>) {
    forall i :: 0 <= i < |run| ==> !run[i].Refuse?
  }

  /** What holds whenever the mutex is free. */
  ghost predicate Inv<R>(s: State<R>) {
    && s.iter < PERIOD
    && |s.current| < BATCH_LIMIT
    && (s.current != [] ==> s.open)
    && (forall i :: 0 <= i < |s.committed| ==> 1 <= |s.committed[i]| <= 2000)
  }

  /** Everything put so far: the committed sessions one after another, then the open one. */
  function Accepted<R>(s: State<R>): seq<R> {
    Flatten(s.committed) + s.current
  }

  lemma CommitKeepsRows<R>(s: State<R>)
    ensures Accepted(Commit(s)) == Accepted(s) && Flatten(Commit(s).committed) == Accepted(s)
  {
    FlattenAppend(s.committed, s.current);
  }

  lemma StepKeeps<R>(s: State<R>, step: Step<R>)
    requires Inv(s)
    ensures Inv(Do(s, step))
    ensures Accepted(Do(s, step)) == if step.Put? then Accepted(s) + [step.row] else Accepted(s)
    ensures !step.Refuse? && (s.open <==> s.current != []) ==>
              (Do(s, step).open <==> Do(s, step).current != [])
  {
    hide Flatten;
    match step
    case Put(row) =>
      CommitKeepsRows(s.(open := true, current := s.current + [row]));
    case Refuse =>
    case Tick =>
      CommitKeepsRows(s.(iter := (s.iter + 1) % PERIOD));
  }

  /** Over every run: the invariant holds, every committed session has 1 to 2000 rows, and the sessions
      one after another are the rows put, in order. When no message is refused, a session is open exactly
      when it has rows. */
  lemma {:induction false} EveryRun<R>(run: seq<Step<R>>)
    ensures Inv(After(run)) && Flatten(After(run).committed) + After(run).current == Rows(run)
    ensures NoneRefused(run) ==> (After(run).open <==> After(run).current != [])
  {
    hide Flatten, Do;
    if run == [] {
      StartAccepts<R>();
    } else {
      EveryRun(run[..|run| - 1]);
      StepKeeps(After(run[..|run| - 1]), run[|run| - 1]);
    }
  }

  lemma StartAccepts<R>()
    ensures Accepted(Start<R>()) == []
  {
  }

  /** After the producer is freed everything is committed. Only a last session can be empty. */
  lemma FreeCommitsAll<R>(run: seq<Step<R>>)
    ensures var s := Free(After(run));
            && Flatten(s.committed) == Rows(run) && s.current == [] && !s.open
            && (forall i :: 0 <= i < |s.committed| - 1 ==> 1 <= |s.committed[i]| <= 2000)
            && (forall i :: 0 <= i < |s.committed| ==> |s.committed[i]| <= 2000)
            && (NoneRefused(run) ==> forall i :: 0 <= i < |s.committed| ==> 1 <= |s.committed[i]| <= 2000)
  {
    hide After, Flatten;
    EveryRun(run);
    CommitKeepsRows(After(run));
  }

  // ---- What ends a session ----

  /** A step commits a session exactly if it is the put of its 2000th row, or a tick at counter 15 while rows
      wait; it commits that session alone and resets the counter. */
  lemma CommitsIff<R>(s: State<R>, step: Step<R>)
    requires Inv(s)
    ensures var t := Do(s, step);
            if (step.Put? && |s.current| == 1999) || (step.Tick? && s.iter == 15 && s.current != []) then
              t == State(s.committed + [if step.Put? then s.current + [step.row] else s.current], false, [], 0)
            else
              && t.committed == s.committed
              && t.current == (if step.Put? then s.current + [step.row] else s.current)
              && t.open == (s.open || !step.Tick?)
              && t.iter == (if !step.Tick? then s.iter else if s.iter == 15 then 0 else s.iter + 1)
  {
  }

  /** Step j of the run ended session i: with 2000 rows, or by a tick at counter 15. */
  ghost predicate EndedBy<R>(run: seq<Step<R>>, i: nat, j: nat)
    requires j < |run|
  {
    var s := After(run[..j]);
    && |s.committed| == i && i < |After(run[..j + 1]).committed|
    && ((run[j].Put? && |After(run[..j + 1]).committed[i]| == 2000) || (run[j].Tick? && s.iter == 15))
  }

  /** In every run, each committed session was ended by the put of its 2000th row or by a tick at counter 15: a
      session with fewer rows was ended by a tick, or is the one that freeing the producer ends. */
  lemma {:induction false} EverySessionEnded<R>(run: seq<Step<R>>, i: nat) returns (j: nat)
    requires i < |After(run).committed|
    ensures j < |run| && EndedBy(run, i, j) && After(run[..j + 1]).committed[i] == After(run).committed[i]
  {
    hide Do, Inv;
    var init, last := run[..|run| - 1], run[|run| - 1];
    assert run[..|run|] == run && run[..|run| - 1] == init;
    EveryRun(init);
    CommitsAtMostOne(After(init), last);
    if i < |After(init).committed| {
      j := EverySessionEnded(init, i);
      assert init[..j] == run[..j] && init[..j + 1] == run[..j + 1];
    } else {
      j := |run| - 1;
    }
  }

  lemma CommitsAtMostOne<R>(s: State<R>, step: Step<R>)
    requires Inv(s)
    ensures var t := Do(s, step);
            && |s.committed| <= |t.committed| <= |s.committed| + 1
            && (forall i :: 0 <= i < |s.committed| ==> t.committed[i] == s.committed[i])
            && (|t.committed| > |s.committed| ==>
                  (step.Put? && |t.committed[|s.committed|]| == 2000) || (step.Tick? && s.iter == 15))
  {
    CommitsIff(s, step);
  }

  function Puts<R>(rows: seq<R>): (run: seq<Step<R>>)
    ensures |run| == |rows| && forall i :: 0 <= i < |rows| ==> run[i] == Put(rows[i])
  {
    seq(|rows|, i requires 0 <= i < |rows| => Put(rows[i]))
  }

  /** Without ticks, n rows are cut into n / 2000 sessions of 2000 rows each, and n % 2000 rows wait. */
  lemma {:induction false} PutsOnly<R>(rows: seq<R>)
    ensures var s := After(Puts(rows));
            && |s.committed| == |rows| / 2000 && |s.current| == |rows| % 2000 && s.iter == 0
            && (forall i :: 0 <= i < |s.committed| ==> |s.committed[i]| == 2000)
            && Flatten(s.committed) + s.current == rows
  {
    hide Do, Flatten;
    EveryRun(Puts(rows));
    PutsRows(rows);
    if rows != [] {
      var init := rows[..|rows| - 1];
      PutsOnly(init);
      assert Puts(rows)[..|rows| - 1] == Puts(init);
      EveryRun(Puts(init));
      CommitsIff(After(Puts(init)), Put(rows[|rows| - 1]));
      NextThousands(|init|);
    }
  }

  lemma NextThousands(n: nat)
    ensures if n % 2000 == 1999 then (n + 1) / 2000 == n / 2000 + 1 && (n + 1) % 2000 == 0
            else (n + 1) / 2000 == n / 2000 && (n + 1) % 2000 == n % 2000 + 1
  {
  }

  lemma {:induction false} PutsRows<R>(rows: seq<R>)
    ensures Rows(Puts(rows)) == rows
  {
    if rows != [] {
      PutsRows(rows[..|rows| - 1]);
      assert Puts(rows)[..|rows| - 1] == Puts(rows[..|rows| - 1]);
    }
  }

  // ---- Sessions without rows ----

  /** A message was refused while no rows were waiting, and no row was put since. */
  ghost predicate RefusedIdle<R>(run: seq<Step<R>>) {
    exists j :: 0 <= j < |run| && IdleSince(run, j)
  }

  ghost predicate IdleSince<R>(run: seq<Step<R>>, j: nat)
    requires j < |run|
  {
    run[j].Refuse? && After(run[..j]).current == [] && forall k :: j < k < |run| ==> !run[k].Put?
  }

  /** A session stands open without rows exactly in this case. */
  lemma {:induction false} OpenWithoutRowsIff<R>(run: seq<Step<R>>)
    ensures After(run).open && After(run).current == [] <==> RefusedIdle(run)
  {
    hide After, Do;
    if run == [] {
      StartIsClosed<R>();
    } else {
      var init, last := run[..|run| - 1], run[|run| - 1];
      OpenWithoutRowsIff(init);
      IdleStep(run);
      forall j | 0 <= j < |init| ensures IdleSince(run, j) <==> IdleSince(init, j) && !last.Put? {
        assert init[..j] == run[..j];
        if IdleSince(run, j) {
          assert forall k :: j < k < |init| ==> init[k] == run[k];
        }
      }
      if RefusedIdle(run) {
        var j :| 0 <= j < |run| && IdleSince(run, j);
        assert j < |init| ==> IdleSince(init, j);
      }
      if RefusedIdle(init) && !last.Put? {
        var j :| 0 <= j < |init| && IdleSince(init, j);
        assert IdleSince(run, j);
      }
      assert IdleSince(run, |init|) <==> last.Refuse? && After(init).current == [];
    }
  }

  lemma StartIsClosed<R>()
    ensures !After<R>([]).open
  {
  }

  /** How one step opens a session without rows, or leaves one. */
  lemma IdleStep<R>(run: seq<Step<R>>)
    requires run != []
    ensures var s, t, last := After(run[..|run| - 1]), After(run), run[|run| - 1];
            t.open && t.current == [] <==> !last.Put? && s.current == [] && (s.open || last.Refuse?)
  {
    var s := After(run[..|run| - 1]);
    EveryRun(run[..|run| - 1]);
  }

  /** Freeing the producer commits a session without rows if and only if a message was refused while no rows
      were waiting, and no row was put since; the caller sees this as an open session with a count of 0. */
  lemma EmptySessionIff<R>(run: seq<Step<R>>)
    ensures (exists i :: 0 <= i < |Free(After(run)).committed| && Free(After(run)).committed[i] == []) <==> RefusedIdle(run)
    ensures RefusedIdle(run) <==> After(run).open && |After(run).current| == 0
  {
    hide After, RefusedIdle;
    OpenWithoutRowsIff(run);
    EveryRun(run);
    var s := After(run);
    if s.open && s.current == [] {
      assert Free(s).committed[|s.committed|] == [];
    }
  }

  /** The shortest such run: one refused message, then the producer is freed. */
  lemma EmptySession()
    ensures Free(After<int>([Refuse])).committed == [[]]
  {
    var run: seq<Step<int>> := [Refuse];
    assert run[..0] == [];
  }

  // ---- Bounded staleness ----

  /** As long as row n waits, the counter has counted every tick since the row came in. */
  lemma {:induction false} WaitingCounts<R>(pre: seq<Step<R>>, row: R, post: seq<Step<R>>)
    ensures var s := After(pre + [Put(row)] + post);
            |Flatten(s.committed)| <= |Rows(pre)| ==> s.iter == After(pre).iter + Ticks(post)
  {
    hide Flatten, Accepted, Rows;
    var run := pre + [Put(row)] + post;
    if post == [] {
      assert run == pre + [Put(row)] && run[..|run| - 1] == pre;
      WaitingStep(pre, Put(row));
    } else {
      var last := post[|post| - 1];
      var shorter := pre + [Put(row)] + post[..|post| - 1];
      assert run[..|run| - 1] == shorter && run[|run| - 1] == last;
      WaitingCounts(pre, row, post[..|post| - 1]);
      RowsMore(pre, row, post[..|post| - 1]);
      WaitingStep(shorter, last);
    }
  }

  /** A step either commits everything put so far, or commits nothing and counts its own tick. */
  lemma WaitingStep<R>(run: seq<Step<R>>, step: Step<R>)
    ensures var s, t := After(run), Do(After(run), step);
            && |Flatten(s.committed)| <= |Flatten(t.committed)|
            && (|| (t.committed == s.committed && (t.iter == s.iter + (if step.Tick? then 1 else 0) || s.current == []))
                || |Flatten(t.committed)| == |Rows(run)| + if step.Put? then 1 else 0)
            && |Flatten(s.committed)| + |s.current| == |Rows(run)|
  {
    hide Flatten, After, Rows;
    var s := After(run);
    EveryRun(run);
    match step
    case Put(row) => CommitKeepsRows(s.(open := true, current := s.current + [row]));
    case Refuse =>
    case Tick => CommitKeepsRows(s.(iter := (s.iter + 1) % PERIOD));
  }

  lemma {:induction false} RowsMore<R>(pre: seq<Step<R>>, row: R, post: seq<Step<R>>)
    ensures |Rows(pre + [Put(row)] + post)| > |Rows(pre)|
  {
    var run := pre + [Put(row)] + post;
    if post == [] {
      assert run[..|run| - 1] == pre;
    } else {
      RowsMore(pre, row, post[..|post| - 1]);
      assert run[..|run| - 1] == pre + [Put(row)] + post[..|post| - 1];
    }
  }

  /** A row that comes in when the counter is k is committed no later than by the (16 - k)-th tick, in
      every interleaving. */
  lemma BoundedStaleness<R>(pre: seq<Step<R>>, row: R, post: seq<Step<R>>)
    requires Ticks(post) >= 16 - After(pre).iter
    ensures |Flatten(After(pre + [Put(row)] + post).committed)| > |Rows(pre)|
  {
    hide Flatten, After, Rows, Ticks;
    WaitingCounts(pre, row, post);
    EveryRun(pre + [Put(row)] + post);
  }

  function Idle<R>(n: nat): (run: seq<Step<R>>)
    ensures |run| == n && forall i :: 0 <= i < n ==> run[i].Tick?
  {
    seq(n, _ => Tick)
  }

  /** The bound is tight: with one tick less the row may still wait. */
  lemma StalenessIsTight<R>(k: nat, row: R)
    requires k < 16
    ensures var run := Idle<R>(k) + [Put(row)] + Idle(15 - k);
            After(Idle<R>(k)).iter == k && After(run).committed == [] && Rows(run) == [row]
  {
    hide After, Do, Rows;
    IdleTicks<R>(k);
    StartStep(Idle<R>(k), row, k);
    WaitTicks(Idle<R>(k) + [Put(row)], row, k, PERIOD - 1 - k);
  }

  lemma {:induction false} IdleTicks<R>(n: nat)
    requires n < PERIOD
    ensures After(Idle<R>(n)) == State([], false, [], n) && Rows(Idle<R>(n)) == []
  {
    if n > 0 {
      IdleTicks<R>(n - 1);
      assert Idle<R>(n)[..n - 1] == Idle<R>(n - 1);
    }
  }

  lemma StartStep<R>(pre: seq<Step<R>>, row: R, k: nat)
    requires After(pre) == State([], false, [], k) && Rows(pre) == []
    ensures After(pre + [Put(row)]) == State([], true, [row], k) && Rows(pre + [Put(row)]) == [row]
  {
    assert (pre + [Put(row)])[..|pre|] == pre;
  }

  lemma {:induction false} WaitTicks<R>(pre: seq<Step<R>>, row: R, k: nat, n: nat)
    requires After(pre) == State([], true, [row], k) && k + n < PERIOD && Rows(pre) == [row]
    ensures After(pre + Idle<R>(n)) == State([], true, [row], k + n) && Rows(pre + Idle<R>(n)) == [row]
  {
    if n == 0 {
      assert pre + Idle<R>(0) == pre;
    } else {
      WaitTicks(pre, row, k, n - 1);
      WaitTick(pre + Idle<R>(n - 1), row, k + n - 1);
      assert pre + Idle<R>(n) == pre + Idle<R>(n - 1) + [Tick];
    }
  }

  lemma WaitTick<R>(pre: seq<Step<R>>, row: R, k: nat)
    requires After(pre) == State([], true, [row], k) && k + 1 < PERIOD && Rows(pre) == [row]
    ensures After(pre + [Tick]) == State([], true, [row], k + 1) && Rows(pre + [Tick]) == [row]
  {
    assert (pre + [Tick])[..|pre|] == pre;
  }
}
