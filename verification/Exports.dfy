/**
 Exporting as a whole, in its two forms: the exports producer, and the export hook in front of the Postgres
 producer. Messages and worker ticks come in any order; the rows are cut into sessions, and a reader of the
 master connection gets them back.
 */
module Exports {
  import opened Options
  import opened Sequences
  import opened CopyBinary
  import T = Timestamp
  import J = JsonExport
  import opened BatchSpec
  import opened Batch

  /** A message, with or without its terminating NUL, that parses to a document or does not; or a tick. */
  datatype Event = Arrival(terminated: bool, doc: Option<J.Doc>) | Second

  /** The exports producer has no action that stores metadata. */
  ghost predicate Configured(needles: seq<J.Needle>, program: T.Program) {
    program.Producer? ==> forall i :: 0 <= i < |needles| ==> !needles[i].action.StoreMeta?
  }

  /** The step of the batch machine an event makes, if any. Without its terminating NUL a message makes none. A
      refused message never reaches the Postgres producer, but opens a session in the exports producer. */
  ghost function StepOf(e: Event, needles: seq<J.Needle>, program: T.Program): seq<Step<Bytes>> {
    match e
    case Second => [Tick]
    case Arrival(terminated, doc) =>
      if !terminated then []
      else if J.Exported(doc, needles, program).Some? then [Put(J.RowBytes(doc.value, needles, program))]
      else if program.Producer? then [Refuse]
      else []
  }

  ghost function Steps(events: seq<Event>, needles: seq<J.Needle>, program: T.Program): seq<Step<Bytes>> {
    if events == [] then [] else StepOf(events[0], needles, program) + Steps(events[1..], needles, program)
  }

  /** The documents of the terminated messages. */
  function Docs(events: seq<Event>): seq<Option<J.Doc>> {
    if events == [] then []
    else (if events[0].Arrival? && events[0].terminated then [events[0].doc] else []) + Docs(events[1..])
  }

  ghost function AfterStep(s: State<Bytes>, steps: seq<Step<Bytes>>): State<Bytes> {
    if steps == [] then s else Do(s, steps[0])
  }

  /** exports_producer_produce: the session is opened for every terminated message, the row is sent only when
      every needle lets the message pass. */
  method Produce(m: Meta, terminated: bool, doc: Option<J.Doc>, needles: seq<J.Needle>, fields: nat)
    requires m.Valid() && m.binary && fields == J.StoreCount(needles) % 0x1_0000 && Configured(needles, T.Producer)
    modifies m
    ensures m.Valid() && m.state == AfterStep(old(m.state), StepOf(Arrival(terminated, doc), needles, T.Producer))
  {
    hide Do, J.RowOf, J.RowBytes, J.Refuses, J.StoreCount, J.Active;
    if !terminated {
      return;
    }
    var row, _ := J.JsonExport(terminated, doc, needles, fields, T.Producer);
    if row.None? {
      m.Refused();
    } else {
      m.Produce(row.value);
    }
  }

  /** The body of the producer loop for the Postgres producer with the export hook: a message the hook rejects
      is not produced. */
  method HookAndProduce(m: Meta, terminated: bool, doc: Option<J.Doc>, needles: seq<J.Needle>, fields: nat)
    requires m.Valid() && m.binary && fields == J.StoreCount(needles) % 0x1_0000
    modifies m
    ensures m.Valid() && m.state == AfterStep(old(m.state), StepOf(Arrival(terminated, doc), needles, T.Hook))
  {
    hide Do, J.RowOf, J.RowBytes, J.Refuses, J.StoreCount, J.Active;
    var row, _ := J.JsonExport(terminated, doc, needles, fields, T.Hook);
    if row.Some? {
      m.Produce(row.value);
    }
  }

  // ---- The rows that are put ----

  lemma {:induction false} RowsConcat<R>(a: seq<Step<R>>, b: seq<Step<R>>)
    ensures BatchSpec.Rows(a + b) == BatchSpec.Rows(a) + BatchSpec.Rows(b)
  {
    if b == [] {
      assert a + b == a;
    } else {
      RowsConcat(a, b[..|b| - 1]);
      assert (a + b)[..|a + b| - 1] == a + b[..|b| - 1];
    }
  }

  lemma RowsOfOne<R>(step: Step<R>)
    ensures BatchSpec.Rows([step]) == (if step.Put? then [step.row] else []) && BatchSpec.Rows<R>([]) == []
  {
    assert [step][..0] == [];
  }

  lemma EncodedFront(row: seq<Field>, rows: seq<seq<Field>>)
    ensures Encoded([row] + rows) == [EncodeRow(row)] + Encoded(rows) && Encoded([]) == []
  {
    hide EncodeRow;
  }

  lemma StepPutsRow(e: Event, needles: seq<J.Needle>, program: T.Program)
    requires J.CountsAgree(needles)
    ensures BatchSpec.Rows(StepOf(e, needles, program)) ==
            if e.Arrival? && e.terminated && J.Exported(e.doc, needles, program).Some?
            then [EncodeRow(J.Exported(e.doc, needles, program).value)] else []
  {
    hide BatchSpec.Rows, EncodeRow, J.RowOf, J.RowBytes, J.CountsAgree;
    RowsOfOne<Bytes>(Tick);
    RowsOfOne<Bytes>(Refuse);
    if e.Arrival? && J.Exported(e.doc, needles, program).Some? {
      J.RowBytesIff(e.doc.value, needles, program);
      RowsOfOne<Bytes>(Put(J.RowBytes(e.doc.value, needles, program)));
    }
  }

  /** The rows put are those of the exported messages. */
  lemma {:induction false} StepsPutRows(events: seq<Event>, needles: seq<J.Needle>, program: T.Program)
    requires J.CountsAgree(needles)
    ensures BatchSpec.Rows(Steps(events, needles, program)) == Encoded(J.Rows(Docs(events), needles, program))
  {
    hide BatchSpec.Rows, Encoded, EncodeRow, J.Exported, J.CountsAgree, StepOf;
    if events == [] {
      RowsOfOne<Bytes>(Tick);
      EncodedFront([], []);
    } else {
      var e, rest := events[0], Docs(events[1..]);
      StepsPutRows(events[1..], needles, program);
      StepPutsRow(e, needles, program);
      RowsConcat(StepOf(e, needles, program), Steps(events[1..], needles, program));
      if e.Arrival? && e.terminated {
        assert ([e.doc] + rest)[0] == e.doc && ([e.doc] + rest)[1..] == rest;
        var row := J.Exported(e.doc, needles, program);
        if row.Some? {
          EncodedFront(row.value, J.Rows(rest, needles, program));
        } else {
          assert [] + J.Rows(rest, needles, program) == J.Rows(rest, needles, program);
        }
      } else {
        assert [] + rest == rest;
      }
    }
  }

  // ---- Reading the sessions one after another ----

  function DecodeAll(sessions: seq<Bytes>): Option<seq<seq<Field>>> {
    if sessions == [] then Some([])
    else
      match DecodeAll(sessions[..|sessions| - 1])
      case None => None
      case Some(rows) =>
        match DecodeSession(sessions[|sessions| - 1])
        case None => None
        case Some(more) => Some(rows + more)
  }

  lemma EncodedParts(rows: seq<seq<Field>>, a: seq<Bytes>, b: seq<Bytes>)
    requires a + b == Encoded(rows)
    ensures |a| <= |rows| && a == Encoded(rows[..|a|]) && b == Encoded(rows[|a|..])
  {
    hide EncodeRow;
    assert |Encoded(rows)| == |rows|;
    assert a == (a + b)[..|a|] && b == (a + b)[|a|..];
    assert Encoded(rows)[..|a|] == Encoded(rows[..|a|]);
    assert Encoded(rows)[|a|..] == Encoded(rows[|a|..]);
  }

  /** However the rows are cut into batches, the sessions of the batches read back as the rows. */
  lemma {:induction false} SessionsReadBack(sessions: seq<Bytes>, batches: seq<seq<Bytes>>, rows: seq<seq<Field>>)
    requires |sessions| == |batches| && Flatten(batches) == Encoded(rows)
    requires forall i :: 0 <= i < |sessions| ==> sessions[i] == HEADER + Flatten(batches[i]) + TRAILER
    requires forall j :: 0 <= j < |rows| ==> RowFits(rows[j])
    ensures DecodeAll(sessions) == Some(rows)
  {
    hide RowFits, Encoded, EncodeRows, DecodeSession;
    if sessions == [] {
      NothingEncoded(rows);
    } else {
      var last := |sessions| - 1;
      var init, batch := batches[..last], batches[last];
      var m := |Flatten(init)|;
      EncodedParts(rows, Flatten(init), batch);
      SessionsReadBack(sessions[..last], init, rows[..m]);
      FlattenEncoded(rows[m..]);
      SessionRoundTrip(rows[m..]);
      assert rows[..m] + rows[m..] == rows;
    }
  }

  lemma NothingEncoded(rows: seq<seq<Field>>)
    requires Encoded(rows) == []
    ensures rows == []
  {
    assert |Encoded(rows)| == |rows|;
  }

  /** In both programs, for every sequence of messages and ticks that ends with the producer being freed, the
      finished sessions on the master, read one after another, are exactly the stored columns of the messages
      that program exports, in order. */
  lemma EveryRunReadsBack(events: seq<Event>, needles: seq<J.Needle>, program: T.Program, master: Conn)
    requires Configured(needles, program) && J.Countable(needles) && J.TextsFit(Docs(events))
    requires Carries(master, Free(After(Steps(events, needles, program))), HEADER, TRAILER)
    ensures DecodeAll(master.sessions) == Some(J.Rows(Docs(events), needles, program))
  {
    hide J.StoreCount, J.Active, J.CountsAgree, J.TextsFit, J.Rows, After, Free, Flatten, Encoded, BatchSpec.Rows,
         RowFits, DecodeAll, Configured;
    var run := Steps(events, needles, program);
    StepsPutRows(events, needles, program);
    FreeCommitsAll(run);
    J.RowsFit(Docs(events), needles, program);
    SessionsReadBack(master.sessions, Free(After(run)).committed, J.Rows(Docs(events), needles, program));
  }

  /** One refused message and then the end: the exports producer commits an empty session, the Postgres producer
      behind the hook never hears of it. */
  lemma RefusedAlone(doc: Option<J.Doc>, needles: seq<J.Needle>, program: T.Program)
    requires J.Exported(doc, needles, program).None?
    ensures Free(After(Steps([Arrival(true, doc)], needles, program))).committed ==
            if program == T.Producer then [[]] else []
  {
    hide J.Exported;
    var e := Arrival(true, doc);
    assert [e][0] == e && [e][1..] == [];
    var steps := Steps([e], needles, program);
    assert Steps([], needles, program) == [];
    if program == T.Producer {
      assert steps == [Refuse] && steps[..0] == [];
    }
  }

  lemma {:induction false} HookRefusesNone(events: seq<Event>, needles: seq<J.Needle>)
    ensures NoneRefused(Steps(events, needles, T.Hook))
  {
    hide J.Exported, J.RowBytes;
    if events != [] {
      HookRefusesNone(events[1..], needles);
    }
  }

  /** Behind the hook no session is ever empty, whatever is refused. */
  lemma HookedSessionsHaveRows(events: seq<Event>, needles: seq<J.Needle>, i: nat)
    requires i < |Free(After(Steps(events, needles, T.Hook))).committed|
    ensures 1 <= |Free(After(Steps(events, needles, T.Hook))).committed[i]| <= 2000
  {
    hide After, Free, NoneRefused, Flatten;
    HookRefusesNone(events, needles);
    FreeCommitsAll(Steps(events, needles, T.Hook));
  }
}
