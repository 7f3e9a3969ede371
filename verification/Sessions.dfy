/**
 How the operations of a connection combine for its callers: the statement
 entry points of src/dbmodulewrap.h and the direct ones of src/sybase.cpp, one
 after the other.
 */
module Sessions {
  import opened Wrappers
  import opened Values
  import opened Replies
  import opened Replay
  import opened Columns
  import opened Commands
  import opened Selects
  import opened CursorRows
  import opened Statements
  import opened Protocol
  import opened Connections

  /** What there is to fetch from a plain query: every row of the server, in
      order, as a hash of its cells. */
  lemma PlainQueryRows(desc: seq<ColDesc>, rows: seq<seq<Raw>>)
    requires desc != [] && Wide(rows, |desc|)
    ensures var rs := QueryReplies(desc, rows);
            && FitsStream(NO_CACHE, rs)
            && MetIn(rs, NO_CACHE) == Ok(Some(Front(|rows|, None)))
            && |RowsOf(rs, NO_CACHE)| == |rows|
            && forall j | 0 <= j < |rows| ::
                 var v := RowsOf(rs, NO_CACHE)[j];
                 && v.Hash? && |v.entries| == |desc| == |rows[j]|
                 && forall i | 0 <= i < |desc| ::
                      v.entries[i] == Entry(ColumnKeys(desc, [])[i], Cell(desc[i].typeCode, rows[j][i]))
  {
    var rs := QueryReplies(desc, rows);
    var s := rs[0].resultSet;
    assert rs[1..] == [Done(Some(|rows|))] && rs[1..][1..] == [];
    assert rs == [Rows(s)] + rs[1..];
    DecodedSet(s, NO_CACHE);
    var e := Ensured(NO_CACHE, s).value;
    assert RowsOf(rs[1..], Drained(e, s)) == [];
    assert RowsOf(rs, NO_CACHE) == OwnHashes(s) + [];
  }

  lemma FrontIs(all: seq<Value>, front: seq<Value>, rest: seq<Value>)
    requires all == front + rest
    ensures front == all[..|front|]
  {
  }

  /** What `fetch_rows` finds after `exec`. */
  lemma AfterExec(conn: Connection, s: Statement, a: Attempt, r: Result<(), ConnError>)
    requires s.context != null && conn.FirstRead(s, a, None, r)
    ensures FitsStream(NO_CACHE, a.script) && s.context.Synced() && s.context.server.cancelRet == a.cancelRet
    ensures s.Pending() == RowsOf(a.script, NO_CACHE)
    ensures MetIn(a.script, NO_CACHE).Ok? && MetIn(a.script, NO_CACHE).value.Some? ==> s.Met() == MetIn(a.script, NO_CACHE)
  {
    assert [] + s.Pending() == s.Pending();
    assert Given(None) + RowsOf(a.script, NO_CACHE) == RowsOf(a.script, NO_CACHE);
  }

  /** The registered statement is executed and rows are fetched from it. As long
      as the connection stays up and cancels work, what is fetched is the front
      of the rows of the replies, all that were asked for if the first result is
      a set that has them or ends normally; the statement stays registered, and the
      protocol's invariant holds. */
  method ExecThenFetch(conn: Connection, s: Statement, env: seq<Attempt>, ph: seq<string>, n: int)
    returns (rows: Result<seq<Value>, StatementError>)
    requires conn.Valid() && Inv(conn.World()) && conn.stmt == s && s.execRes.None?
    requires ValidAttempts(env) && Outcome(env).Ok? && !Loses(env[0]) && CancelsWork(env)
    requires s.context == null || s.context.server.cancelRet == Success
    modifies conn, s, CommandsOf(s), ServersOf(s)
    ensures conn.Valid() && Inv(conn.World()) && conn.stmt == s && s.valid && conn.CancelWorks(s)
    ensures s.context != null && fresh(s.context) && fresh(s.context.server) && s in conn.statements
    ensures FitsStream(NO_CACHE, Outcome(env).value.script)
    ensures var all := RowsOf(Outcome(env).value.script, NO_CACHE);
            rows.Ok? ==> |rows.value| <= |all| && rows.value == all[..|rows.value|]
    ensures var met := MetIn(Outcome(env).value.script, NO_CACHE);
            met.Ok? && met.value.Some? ==>
              var f := met.value.value;
              if f.fails.Some? && !(0 < n < f.rows) then rows == Err(ReadFailed(f.fails.value))
              else rows.Ok? && |rows.value| == if 0 < n < f.rows then n else f.rows
  {
    hide Connection.WellFormed, Connection.World, Connection.FirstRead, Step, Inv, Connection.Blocked;
    hide Statement.Pending, Statement.Conserves, Statement.Met, RowsOf, MetIn;
    OutcomeAmong(env);
    conn.Appears(s);
    assert !conn.Blocked(env) by {
      NotLost(conn, env);
    }
    var executed, disconnect, cancelled := conn.ExecStatement(s, env, ph);
    AfterExec(conn, s, Outcome(env).value, executed);
    ghost var due := s.Pending();
    ghost var left;
    rows, disconnect, left := conn.FetchRows(s, n);
    conn.Appears(s);
    if rows.Ok? {
      FrontIs(due, rows.value, s.Pending());
    }
  }

  lemma NotLost(conn: Connection, env: seq<Attempt>)
    requires env != [] ==> !Loses(env[0])
    ensures !conn.Blocked(env)
  {
  }

  /** Another statement can be made then: it displaces the first. */
  method ExecFetchCreate(conn: Connection, s: Statement, env: seq<Attempt>, ph: seq<string>, n: int)
    returns (rows: Result<seq<Value>, StatementError>, t: Statement)
    requires conn.Valid() && Inv(conn.World()) && conn.stmt == s && s.execRes.None?
    requires ValidAttempts(env) && Outcome(env).Ok? && !Loses(env[0]) && CancelsWork(env)
    requires s.context == null || s.context.server.cancelRet == Success
    modifies conn, s, CommandsOf(s), ServersOf(s)
    ensures conn.Valid() && Inv(conn.World()) && conn.stmt == t && fresh(t)
    ensures FitsStream(NO_CACHE, Outcome(env).value.script)
    ensures var all := RowsOf(Outcome(env).value.script, NO_CACHE);
            rows.Ok? ==> |rows.value| <= |all| && rows.value == all[..|rows.value|]
    ensures var met := MetIn(Outcome(env).value.script, NO_CACHE);
            met.Ok? && met.value.Some? ==>
              var f := met.value.value;
              if f.fails.Some? && !(0 < n < f.rows) then rows == Err(ReadFailed(f.fails.value))
              else rows.Ok? && |rows.value| == if 0 < n < f.rows then n else f.rows
  {
    hide Connection.WellFormed, Connection.Valid, Connection.World, Step, Inv, RowsOf, MetIn;
    rows := ExecThenFetch(conn, s, env, ph, n);
    var created;
    t, created := conn.CreateStatement();
  }

  /** Two direct executions in a row, the first of which does not leave the
      connection aborted: with working cancels the invariant holds after each. */
  method DirectTwice(conn: Connection, env: seq<Attempt>, env': seq<Attempt>, mode: Mode, ph: seq<string>, lost: Attempt)
    returns (r: Result<Value, ConnError>, r': Result<Value, ConnError>)
    requires conn.Valid() && Inv(conn.World()) && conn.DisplacementCancels() && !conn.aborted
    requires ValidAttempts(env) && env != [] && CancelsWork(env) && !Aborts(env)
    requires ValidAttempts(env') && env' != [] && CancelsWork(env')
    modifies conn, conn.Displaceable(), conn.DisplaceableCommands(), conn.DisplaceableServers()
    ensures conn.Valid() && Inv(conn.World())
    ensures conn.aborted == Aborts(env') || r' == Err(NeverExecuted)
  {
    OutcomeAmong(env);
    OutcomeAmong(env');
    NoAbortWhenSent(env');
    conn.RegisteredAppears();
    ghost var cmd, left;
    r, cmd, left := conn.ExecReadOutput(env, mode, ph, lost);
    conn.RegisteredAppears();
    r', cmd, left := conn.ExecReadOutput(env', mode, ph, lost);
  }
}
