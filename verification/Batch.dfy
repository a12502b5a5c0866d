/**
 The Postgres producer's connection state as its threads share it under the commit mutex: the bytes sent
 on the master and the replica connection, and the counters that decide when a session is committed.
 */
module Batch {
  import opened Sequences
  import opened Octet
  import opened Options
  import opened CopyBinary
  import opened BatchSpec

  type Bytes = seq<octet>

  /** A connection: the bytes of every finished COPY session, and of the one that is open. */
  datatype Conn = Conn(sessions: seq<Bytes>, data: Bytes)

  function PutData(c: Conn, b: Bytes): Conn {
    c.(data := c.data + b)
  }

  function PutEnd(c: Conn): Conn {
    Conn(c.sessions + [c.data], [])
  }

  /** The connection carries the sessions of s: each opened by head and closed by foot. */
  ghost predicate Carries(c: Conn, s: State<Bytes>, head: Bytes, foot: Bytes) {
    && |c.sessions| == |s.committed|
    && (forall i :: 0 <= i < |c.sessions| ==> c.sessions[i] == head + Flatten(s.committed[i]) + foot)
    && (s.open ==> c.data == head + Flatten(s.current))
  }

  lemma CarriesRow(c: Conn, s: State<Bytes>, head: Bytes, foot: Bytes, row: Bytes)
    requires Carries(c, s, head, foot) && s.open
    ensures Carries(PutData(c, row), s.(current := s.current + [row]), head, foot)
  {
    hide Flatten;
    FlattenAppend(s.current, row);
    Assoc(head, Flatten(s.current), row);
  }

  lemma CarriesCommit(c: Conn, s: State<Bytes>, head: Bytes, foot: Bytes)
    requires Carries(c, s, head, foot) && s.open
    ensures Carries(PutEnd(PutData(c, foot)), Commit(s), head, foot)
  {
    hide Flatten;
  }

  lemma CarriesOpen(c: Conn, s: State<Bytes>, head: Bytes, foot: Bytes)
    requires Carries(c, s, head, foot) && s.current == []
    ensures Carries(c.(data := head), s.(open := true), head, foot)
  {
    assert head + Flatten<octet>([]) == head;
  }

  class Meta {
    const binary: bool
    const hasReplica: bool
    var copy: int
    var count: int
    var commitIter: int
    var master: Conn
    var replica: Conn
    ghost var state: State<Bytes>

    ghost function Head(): Bytes {
      if binary then HEADER else []
    }

    ghost function Foot(): Bytes {
      if binary then TRAILER else []
    }

    /** The fields agree with the batch machine; the replica carries the same rows in the same sessions, but
        not the trailer. */
    ghost predicate Agree()
      reads this
    {
      && copy == (if state.open then 1 else 0)
      && count == |state.current|
      && commitIter == state.iter
      && Carries(master, state, Head(), Foot())
      && (hasReplica ==> Carries(replica, state, Head(), []))
    }

    ghost predicate Valid()
      reads this
    {
      Inv(state) && Agree()
    }

    constructor (binary: bool, hasReplica: bool)
      ensures Valid() && state == Start()
      ensures this.binary == binary && this.hasReplica == hasReplica
    {
      this.binary, this.hasReplica := binary, hasReplica;
      copy, count, commitIter := 0, 0, 0;
      master, replica := Conn([], []), Conn([], []);
      state := Start();
    }

    /** Starts COPY on the connections when no session is open. */
    method Open()
      requires Agree() && (!state.open ==> state.current == [])
      modifies `copy, `master, `replica, `state
      ensures Agree() && state == old(state).(open := true)
    {
      hide Flatten, HEADER, TRAILER;
      if copy == 0 {
        CarriesOpen(master, state, Head(), Foot());
        master := master.(data := if binary then HEADER else []);
        if hasReplica {
          CarriesOpen(replica, state, Head(), []);
          replica := replica.(data := if binary then HEADER else []);
        }
        copy := 1;
        state := state.(open := true);
      }
    }

    /** commit: the trailer, for binary sessions and to the master only, and the end of the session. */
    method CommitSession()
      requires Agree() && state.open
      modifies `copy, `count, `commitIter, `master, `replica, `state
      ensures Agree() && state == Commit(old(state))
    {
      hide Carries;
      CarriesCommit(master, state, Head(), Foot());
      master := PutEnd(PutData(master, if binary then TRAILER else []));
      if hasReplica {
        CarriesCommit(replica, state, Head(), []);
        assert PutData(replica, []) == replica;
        replica := PutEnd(replica);
      }
      count, copy, commitIter := 0, 0, 0;
      state := Commit(state);
    }

    method PutRow(row: Bytes)
      requires Agree() && state.open
      modifies `count, `master, `replica, `state
      ensures Agree() && state == old(state).(current := old(state.current) + [row])
    {
      hide Carries;
      CarriesRow(master, state, Head(), Foot(), row);
      master := PutData(master, row);
      if hasReplica {
        CarriesRow(replica, state, Head(), [], row);
        replica := PutData(replica, row);
      }
      count := count + 1;
      state := state.(current := state.current + [row]);
    }

    /** postgres_producer_produce from the lock on, with the bytes of an accepted row; also
        exports_producer_produce for a message that is not refused. */
    method Produce(row: Bytes)
      requires Valid()
      modifies this
      ensures Valid() && state == Do(old(state), Put(row))
    {
      hide Carries;
      StepKeeps(state, Put(row));
      Open();
      PutRow(row);
      if count == 2000 {
        CommitSession();
      }
    }

    /** exports_producer_produce for a message that does not parse or that a needle ends: the session is
        opened all the same, and no byte of a row is sent. */
    method Refused()
      requires Valid()
      modifies this
      ensures Valid() && state == Do(old(state), Refuse)
    {
      hide Carries;
      Open();
    }

    /** One round of commit_worker after its sleep; the four low bits count the rounds. */
    method Tick()
      requires Valid()
      modifies this
      ensures Valid() && state == Do(old(state), BatchSpec.Tick)
    {
      hide Carries;
      StepKeeps(state, BatchSpec.Tick);
      NextIter();
      if commitIter == 0 && count > 0 {
        CommitSession();
      }
    }

    method NextIter()
      requires Agree()
      modifies `commitIter, `state
      ensures Agree() && state == old(state).(iter := (old(state.iter) + 1) % PERIOD)
    {
      commitIter := (commitIter + 1) % 16;
      state := state.(iter := (state.iter + 1) % PERIOD);
    }

    /** postgres_producer_free: commits an open session. */
    method FreeProducer()
      requires Valid()
      modifies this
      ensures Agree() && state == Free(old(state))
    {
      if copy != 0 {
        CommitSession();
      }
    }
  }

  /** What the two connections have in common: the same sessions with the same rows; in binary mode a session
      on the master ends in two bytes 255 that the replica does not get. */
  lemma SameSessions(m: Meta, i: nat)
    requires m.Valid() && m.hasReplica && i < |m.master.sessions|
    ensures |m.replica.sessions| == |m.master.sessions| == |m.state.committed|
    ensures m.binary ==> m.master.sessions[i] == m.replica.sessions[i] + [255, 255]
                         && m.replica.sessions[i] == HEADER + Flatten(m.state.committed[i])
    ensures !m.binary ==> m.master.sessions[i] == m.replica.sessions[i] == Flatten(m.state.committed[i])
  {
    hide Flatten, HEADER;
    var rows := Flatten(m.state.committed[i]);
    assert [] + rows == rows && rows + [] == rows && HEADER + rows + [] == HEADER + rows;
  }

  // ---- What a binary session on the master reads as ----

  function Encoded(rows: seq<seq<Field>>): seq<Bytes> {
    seq(|rows|, i requires 0 <= i < |rows| => EncodeRow(rows[i]))
  }

  lemma {:induction false} FlattenEncoded(rows: seq<seq<Field>>)
    ensures Flatten(Encoded(rows)) == EncodeRows(rows)
  {
    hide EncodeRow;
    if rows != [] {
      var init, last := rows[..|rows| - 1], rows[|rows| - 1];
      FlattenEncoded(init);
      assert Encoded(rows)[..|rows| - 1] == Encoded(init);
      EncodeRowsAppend(init, last);
      assert rows == init + [last];
    }
  }

  /** Every finished binary session on the master decodes to exactly the rows of its batch. */
  lemma MasterReadsBack(c: Conn, s: State<Bytes>, i: nat, rows: seq<seq<Field>>)
    requires Carries(c, s, HEADER, TRAILER) && i < |s.committed|
    requires s.committed[i] == Encoded(rows) && forall j :: 0 <= j < |rows| ==> RowFits(rows[j])
    ensures DecodeSession(c.sessions[i]) == Some(rows)
  {
    hide Flatten, EncodeRows, DecodeSession, RowFits, Encoded;
    FlattenEncoded(rows);
    SessionRoundTrip(rows);
  }
}
