/**
 The connection: registration of the one active statement, the direct execution
 path with its reconnect loop, and the execution of statements
 (src/connection.h, src/connection.cpp, src/statement.cpp, src/dbmodulewrap.h).
 What each operation does to the connection is a step of the transition system
 in `Protocol`. Methods that only hand the state on hide the definitions they do
 not need, which keeps their proofs small.
 */
module Connections {
  import opened Wrappers
  import opened Values
  import opened Replies
  import opened Replay
  import opened Commands
  import opened Statements
  import opened CursorRows
  import opened Protocol

  datatype ConnError =
    | NeverExecuted        // "Not initialized": the statement has no command
    | NotUsable            // the statement was invalidated
    | TextRejected         // the rewriter raised an error
    | SendFailed
    | ReconnectThrew
    | StillRetrying        // the given attempts ran out
    | OutputFailed(error: Error)

  /** How `connection::init` ends when reconnecting. */
  datatype InitOutcome = InitOk | InitFails | InitThrows

  /** What one attempt to execute a command meets: the results of `ct_send`
      and `ct_cancel`, the replies, whether the connection is up afterwards,
      and, when it is not, whether a transaction was open and how the
      reconnection goes. */
  datatype Attempt = Attempt(
    sendRet: CtRet, cancelRet: CtRet, script: seq<Reply>, up: bool, inTransaction: bool, init: InitOutcome)

  datatype Event = SendTried(ok: bool) | Reconnected(inTransaction: bool, ok: bool)

  ghost predicate ValidAttempts(env: seq<Attempt>) {
    forall i | 0 <= i < |env| :: ValidStream(env[i].script)
  }

  ghost function StateOf(s: Statement): StatementState<Command>
    reads s`valid, s`context
  {
    StatementState(s.valid, ContextOf(s))
  }

  ghost function ContextOf(s: Statement): Option<Command>
    reads s`context
  {
    if s.context == null then None else var c: Command := s.context; Some(c)
  }

  ghost function CommandsOf(s: Statement): set<Command>
    reads s`context
  {
    if s.context == null then {} else {s.context}
  }

  ghost function ServersOf(s: Statement): set<Server>
    reads s`context
  {
    if s.context == null then {} else {s.context.server}
  }

  /** The command of a statement that may be used can be read from. */
  ghost predicate StatementOk(s: Statement)
    requires s.context != null
    reads s`valid, s`context, s.context`handle, s.context`lastRes, s.context`outBuffers, s.context`datafmt, s.context.server
  {
    && (s.valid ==> s.context.handle && s.context.Synced())
    && (s.context.lastRes.RES_END? ==> !s.context.server.active)
  }

  /** Whether a command is still being read is settled anew. */
  function Reaped<S, C>(w: World<S, C>, c: C, active: bool): World<S, C> {
    w.(unread := if active then w.unread else w.unread - {c})
  }

  class Connection {
    var stmt: Statement?
    var aborted: bool

    /** All wrappers and commands alive on the connection, and what has been
        observed of sends. */
    ghost var statements: set<Statement>
    ghost var commands: set<Command>
    ghost var servers: set<Server>
    ghost var clean: bool
    ghost var log: seq<Event>

    /** The registered statement may be used. */
    ghost predicate Valid()
      reads this`stmt, this`statements, this`commands, this`servers
      reads statements`valid, statements`context, servers
      reads commands`handle, commands`lastRes, commands`outBuffers, commands`datafmt
    {
      WellFormed() && (stmt != null ==> stmt in statements && stmt.valid)
    }

    /** Commands have servers of their own, and statements commands. */
    ghost predicate Shaped()
      reads this`statements, this`commands, this`servers, statements`context
    {
      && (forall c | c in commands :: c.server in servers)
      && (forall c, d | c in commands && d in commands && c != d :: c.server != d.server)
      && (forall s | s in statements :: s.context != null ==> s.context in commands)
      && (forall s, t | s in statements && t in statements && s != t && s.context != null :: s.context != t.context)
    }

    ghost predicate WellFormed()
      reads this`statements, this`commands, this`servers, statements`valid, statements`context, servers
      reads commands`handle, commands`lastRes, commands`outBuffers, commands`datafmt
    {
      && Shaped()
      && (forall c | c in commands :: c.server.Valid())
      && (forall s | s in statements && s.context != null :: StatementOk(s))
    }

    ghost function Registered(): Option<Statement>
      reads this`stmt
    {
      if stmt == null then None else var s: Statement := stmt; Some(s)
    }

    ghost function World(): World<Statement, Command>
      reads this`stmt, this`statements, this`commands, this`servers, this`clean
      reads statements`valid, statements`context, servers`active
    {
      Protocol.World(Registered(), States(), (set c | c in commands && c.server in servers && c.server.active), clean)
    }

    ghost function States(): map<Statement, StatementState<Command>>
      reads this`statements, statements`valid, statements`context
    {
      map s | s in statements :: StateOf(s)
    }

    // ------------------------------------ one command, and everything beside it

    /** All that `Valid` says but for the command `c`, its server, and what its
        statement needs of it. */
    ghost predicate ValidBut(c: Command)
      reads this`stmt, this`statements, this`commands, this`servers, statements`valid, statements`context
      reads (commands - {c})`handle, (commands - {c})`lastRes, (commands - {c})`outBuffers, (commands - {c})`datafmt
      reads servers - {c.server}
    {
      && Shaped() && c in commands
      && (forall d | d in commands - {c} :: d.server.Valid())
      && (forall s | s in statements && s.context != null && s.context != c :: StatementOk(s))
      && (stmt != null ==> stmt in statements && stmt.valid)
    }

    /** The other commands with unread results. */
    ghost function UnreadBut(c: Command): set<Command>
      reads this`commands, this`servers, (servers - {c.server})`active
    {
      set d | d in commands && d.server in servers - {c.server} && d.server.active
    }

    /** Whatever is done to one command and its server leaves the rest as it is. */
    lemma Detached(c: Command)
      requires Valid() && c in commands
      ensures ValidBut(c) && c.server.Valid() && WorldAround(c)
      ensures forall s | s in statements && s.context == c :: StatementOk(s)
    {
      AroundWorld(c);
    }

    /** The world, seen from a command. */
    ghost predicate WorldAround(c: Command)
      reads this`stmt, this`statements, this`commands, this`servers, this`clean
      reads statements`valid, statements`context, servers`active, c.server`active
    {
      && c !in UnreadBut(c)
      && World() == Protocol.World(Registered(), States(), if c.server.active then UnreadBut(c) + {c} else UnreadBut(c), clean)
    }

    lemma AroundWorld(c: Command)
      requires Shaped() && c in commands
      ensures WorldAround(c)
    {
      assert World().unread == if c.server.active then UnreadBut(c) + {c} else UnreadBut(c);
    }

    /** A statement that may be used, after whatever its command has done. */
    lemma Attached(s: Statement)
      requires s in statements && s.context != null && ValidBut(s.context)
      requires s.context.handle && s.context.Synced()
      ensures Valid() && WorldAround(s.context)
    {
      AroundWorld(s.context);
    }

    constructor ()
      ensures Valid() && World() == EmptyWorld()
    {
      stmt, aborted := null, false;
      statements, commands, servers, clean, log := {}, {}, {}, true, [];
    }

    /** Whether a cancel of the statement's command would succeed. */
    ghost predicate CancelWorks(s: Statement?)
      reads s
    {
      s != null && s.context != null && s.context.server.cancelRet == Success
    }

    /** Displacing the registered statement throws or cancels its command. */
    ghost predicate DisplacementCancels()
      reads this`stmt, stmt
    {
      stmt == null || stmt.context == null || CancelWorks(stmt)
    }

    /** If the connection is lost with the first attempt, whether the command of
        the registered statement can be cancelled then. */
    ghost function LostWith(env: seq<Attempt>): Option<bool>
      reads this`stmt, stmt
    {
      if env != [] && Loses(env[0]) then Some(CancelWorks(stmt)) else None
    }

    /** Losing the connection ends the execution with an error, because the
        registered statement has no command. */
    ghost predicate Blocked(env: seq<Attempt>)
      reads this`stmt, this`statements, this`commands, this`servers, this`clean
      reads stmt, statements`valid, statements`context, servers`active
    {
      LostWith(env).Some? && DisplacementThrows(World())
    }

    /** What displacing the registered statement touches. */
    ghost function Displaceable(): set<Statement>
      reads this`stmt
    {
      if stmt == null then {} else {stmt}
    }

    ghost function DisplaceableCommands(): set<Command>
      reads this`stmt, Displaceable()`context
    {
      if stmt == null then {} else CommandsOf(stmt)
    }

    ghost function DisplaceableServers(): set<Server>
      reads this`stmt, Displaceable()`context
    {
      if stmt == null then {} else ServersOf(stmt)
    }

    /** What there is to displace, and that unread commands are known ones. */
    lemma RegisteredAppears()
      requires Valid()
      ensures World().registered == Registered() && World().unread <= commands
      ensures DisplacementThrows(World()) <==> stmt != null && stmt.context == null
      ensures forall c | c in DisplaceableCommands() :: c in commands && c.handle
    {
    }

    /** How a statement on the connection appears. */
    lemma Appears(s: Statement)
      requires Valid() && s in statements
      ensures s in World().statements && World().statements[s] == StateOf(s)
      ensures World().registered == Registered() && World().clean == clean
      ensures s.context != null ==> s.context in commands && (s.valid ==> s.context.handle && s.context.Synced())
    {
    }

    /** A command of its own is not touched when a statement is displaced, and is
        unread only while its server is active. */
    lemma Apart(cmd: Command)
      requires Valid() && cmd in commands && forall s | s in statements :: s.context != cmd
      ensures cmd !in DisplaceableCommands() && cmd.server !in DisplaceableServers()
      ensures cmd in World().unread <==> cmd.server.active
    {
    }

    /** `Statement::invalidate` through the wrapper: throws, changing nothing,
        if the statement has no command. */
    method Invalidate(s: Statement) returns (r: Result<(), ConnError>)
      requires WellFormed() && s in statements && s.valid
      modifies s`valid, CommandsOf(s)`handle, ServersOf(s)
      ensures WellFormed()
      ensures r == if s.context == null then Err(NeverExecuted) else Ok(())
      ensures r.Err? ==> World() == old(World()) && s.valid
      ensures r.Ok? ==>
                && !s.context.handle
                && World() == old(World()).(unread := Cancelled(old(World()).unread, Some(s.context), CancelWorks(s)),
                                            statements := old(World()).statements[s := StatementState(false, Some(s.context))])
    {
      if s.context == null {
        return Err(NeverExecuted);
      }
      DropContext(s);
      return Ok(());
    }

    method DropContext(s: Statement)
      requires WellFormed() && s in statements && s.valid && s.context != null
      modifies s`valid, s.context`handle, s.context.server
      ensures WellFormed() && !s.valid && !s.context.handle
      ensures World() == old(World()).(unread := Cancelled(old(World()).unread, Some(s.context), CancelWorks(s)),
                                       statements := old(World()).statements[s := StatementState(false, Some(s.context))])
    {
      hide Server.Valid, Command.Synced, ValidStream;
      ghost var w := World();
      assert forall c | c in commands && c != s.context :: c.server != s.context.server;
      s.context.CancelDisconnect();
      s.valid := false;
      assert World().statements == w.statements[s := StatementState(false, Some(s.context))];
      assert World().unread == Cancelled(w.unread, Some(s.context), CancelWorks(s));
    }

    /** Invalidating the registered statement and forgetting it. */
    method Displace(s: Statement) returns (r: Result<(), ConnError>)
      requires Valid() && stmt == s
      modifies this`stmt, s`valid, CommandsOf(s)`handle, ServersOf(s)
      ensures Valid()
      ensures r == if s.context == null then Err(NeverExecuted) else Ok(())
      ensures r.Err? ==> World() == old(World()) && stmt == s
      ensures r.Ok? ==> stmt == null
                        && World() == Protocol.World(None, old(World()).statements[s := StatementState(false, Some(s.context))],
                                                     Cancelled(old(World()).unread, Some(s.context), CancelWorks(s)), clean)
    {
      r := Invalidate(s);
      if r.Ok? {
        stmt := null;
      }
    }

    /** `invalidateStatement`: displaces the registered statement, if any. */
    method InvalidateStatement() returns (r: Result<(), ConnError>)
      requires Valid()
      modifies this`stmt
      modifies Displaceable()`valid, DisplaceableCommands()`handle, DisplaceableServers()
      ensures Valid()
      ensures r == if DisplacementThrows(old(World())) then Err(NeverExecuted) else Ok(())
      ensures stmt == if r.Ok? then null else old(stmt)
      ensures World() == Dropped(old(World()), old(CancelWorks(stmt)))
      ensures old(stmt) == null ==> r.Ok? && World() == old(World())
    {
      r := Ok(());
      if stmt != null {
        ghost var w, s := World(), stmt as Statement;
        assert w.registered == Some(s) && w.statements[s] == StatementState(true, ContextOf(s));
        r := Displace(stmt);
      }
    }

    /** `registerStatement`: displaces the registered statement, if any, by the
        new one. When that throws, the new one stays unregistered. */
    method RegisterStatement(s: Statement) returns (r: Result<(), ConnError>)
      requires Valid() && s in statements && s.valid && s != stmt
      modifies this`stmt
      modifies Displaceable()`valid, DisplaceableCommands()`handle, DisplaceableServers()
      ensures Valid()
      ensures r == if DisplacementThrows(old(World())) then Err(NeverExecuted) else Ok(())
      ensures r.Err? ==> World() == old(World())
      ensures r.Ok? ==> World() == Displaced(old(World()), old(CancelWorks(stmt))).(registered := Some(s))
      ensures stmt == if r.Ok? then s else old(stmt)
    {
      r := InvalidateStatement();
      if r.Ok? {
        Register(s);
      }
    }

    method Register(s: Statement)
      requires Valid() && s in statements && s.valid
      modifies this`stmt
      ensures Valid() && stmt == s && World() == old(World()).(registered := Some(s))
    {
      stmt := s;
    }

    method AddWrapper() returns (s: Statement)
      requires Valid()
      modifies this`statements
      ensures Valid() && fresh(s) && statements == old(statements) + {s}
      ensures s.valid && s.context == null
      ensures World() == old(World()).(statements := old(World()).statements[s := StatementState(true, None)])
    {
      ghost var w := World();
      s := new Statement();
      statements := statements + {s};
      assert World().statements == w.statements[s := StatementState(true, None)];
    }

    /** `module_wrap` for a statement without a wrapper: the wrapper is stored
        first and registered then. */
    method CreateStatement() returns (s: Statement, r: Result<(), ConnError>)
      requires Valid()
      modifies this`stmt, this`statements
      modifies Displaceable()`valid, DisplaceableCommands()`handle, DisplaceableServers()
      ensures Valid() && fresh(s) && s in statements
      ensures World() == Step(old(World()), Create(s, old(CancelWorks(stmt))))
      ensures r == if DisplacementThrows(old(World())) then Err(NeverExecuted) else Ok(())
      ensures stmt == if r.Ok? then s else old(stmt)
      ensures old(Inv(World())) && old(stmt == null || CancelWorks(stmt)) ==> r.Ok? && Inv(World())
    {
      ghost var w, cancelOld := World(), CancelWorks(stmt);
      ghost var none := stmt == null;
      s := AddWrapper();
      r := RegisterStatement(s);
      if Inv(w) && (none || cancelOld) {
        SafeCreate(w, s, cancelOld);
      }
    }

    /** Destroying the statement's command would cancel it. */
    ghost predicate ClearCancels(s: Statement)
      reads this`aborted, s`context, s.context
    {
      s.context == null
      || (s.context.server.cancelRet == Success && s.context.handle && !s.context.lastRes.RES_CANCELED? && !aborted)
    }

    /** The destruction of a wrapper with its command. */
    method Delete(s: Statement) returns (ghost cancelled: bool)
      requires Valid() && s in statements && s != stmt
      modifies this`statements, CommandsOf(s)`handle, ServersOf(s)
      ensures Valid() && statements == old(statements) - {s}
      ensures World() == old(World()).(statements := old(World()).statements - {s},
                                       unread := Cancelled(old(World()).unread, ContextOf(s), cancelled))
      ensures old(ClearCancels(s)) ==> cancelled
    {
      hide Valid, WellFormed, World;
      cancelled := true;
      RemoveWrapper(s);
      if s.context != null {
        Apart(s.context);
        Discard(s.context);
        cancelled := !s.context.server.active;
      }
    }

    /** The world without a statement. */
    method RemoveWrapper(s: Statement)
      requires Valid() && s in statements && s != stmt
      modifies this`statements
      ensures Valid() && statements == old(statements) - {s}
      ensures World() == old(World()).(statements := old(World()).statements - {s})
      ensures s.context != null ==> s.context in commands && forall t | t in statements :: t.context != s.context
      ensures s.context != null && s.context.lastRes.RES_END? ==> !s.context.server.active
    {
      ghost var w := World();
      statements := statements - {s};
      assert States() == w.statements - {s};
    }

    /** `DBModuleWrap::close`: a statement that may be used is deregistered,
        whichever statement is registered, and the wrapper is destroyed. */
    method Close(s: Statement) returns (ghost cancelled: bool)
      requires Valid() && s in statements
      modifies this`stmt, this`statements, CommandsOf(s)`handle, ServersOf(s)
      ensures Valid()
      ensures World() == Step(old(World()), Protocol.Close(s, cancelled))
      ensures stmt == if s.valid then null else old(stmt)
      ensures old(ClearCancels(s)) ==> cancelled
      ensures old(Inv(World())) && old(ClearCancels(s)) ==> Inv(World())
    {
      ghost var w := World();
      if Inv(w) {
        StepKeepsInvIff(w, Protocol.Close(s, true));
      }
      assert w.statements[s] == StatementState(s.valid, ContextOf(s));
      if s.valid {
        Deregister();
      }
      cancelled := Delete(s);
    }

    /** `deregisterStatement` in a build without debugging checks. */
    method Deregister()
      requires Valid()
      modifies this`stmt
      ensures Valid() && stmt == null && World() == old(World()).(registered := None)
    {
      stmt := null;
    }

    // ------------------------------------------------------- sending commands

    /** `new command` and `bind_query`: allocates a handle; the server side is
        what the attempt says it will be. */
    method NewCommand(a: Attempt, ph: seq<string>) returns (cmd: Command)
      requires Valid() && ValidStream(a.script)
      modifies this`commands, this`servers
      ensures Valid() && World() == old(World())
      ensures commands == old(commands) + {cmd} && fresh(cmd) && fresh(cmd.server)
      ensures cmd.handle && cmd.lastRes == RES_NONE && cmd.placeholders == ph
      ensures cmd.dirty && cmd.datafmt == [] && cmd.outBuffers == []
      ensures cmd.server.Valid() && !cmd.server.active && cmd.server.script == a.script
      ensures cmd.server.sendRet == a.sendRet && cmd.server.cancelRet == a.cancelRet
    {
      hide Server.Valid, Command.Synced, ValidStream, StatementOk, States;
      ghost var w := World();
      var server := new Server(a.script, a.sendRet, a.cancelRet);
      cmd := new Command(server);
      cmd.placeholders := ph;
      commands := commands + {cmd};
      servers := servers + {server};
      assert World().statements == w.statements;
      assert World().unread == w.unread;
    }

    /** `send`, observed: whether another command has unread results. */
    method TrySend(cmd: Command) returns (sent: bool)
      requires Valid() && cmd in commands && (forall s | s in statements :: s.context != cmd)
      requires cmd.handle && !cmd.server.active && cmd.lastRes == RES_NONE && cmd.datafmt == [] && cmd.outBuffers == []
      modifies this`clean, this`log, cmd.server
      ensures Valid() && sent == (cmd.server.sendRet == Success)
      ensures World() == Sent(old(World()), cmd, sent) && log == old(log) + [SendTried(sent)]
      ensures sent ==> cmd.Synced() && cmd.Remaining() == cmd.server.script && cmd.server.open.None?
      ensures cmd.server.Valid() && cmd.server.active == sent
    {
      hide Server.Valid, Command.Synced, ValidStream;
      ghost var w := World();
      clean := clean && w.unread - {cmd} == {};
      var ret := cmd.Send();
      sent := ret == Success;
      log := log + [SendTried(sent)];
      assert World().statements == w.statements;
      assert World().unread == if sent then w.unread + {cmd} else w.unread;
    }

    /** The destruction of a command that is not a statement's. */
    method Discard(cmd: Command)
      requires Valid() && cmd in commands && (forall s | s in statements :: s.context != cmd)
      requires cmd.lastRes.RES_END? ==> !cmd.server.active
      modifies cmd`handle, cmd.server
      ensures Valid()
      ensures World() == Reaped(old(World()), cmd, cmd.server.active)
      ensures !cmd.handle
         <==> !old(cmd.handle) || cmd.server.cancelRet == Success || cmd.lastRes.RES_END? || cmd.lastRes.RES_CANCELED? || aborted
      ensures cmd.server.active
         <==> old(cmd.server.active)
              && !(old(cmd.handle) && !cmd.lastRes.RES_END? && !cmd.lastRes.RES_CANCELED? && !aborted
                   && cmd.server.cancelRet == Success)
    {
      ghost var w := World();
      var _ := cmd.Clear(aborted);
      assert World().statements == w.statements;
      assert World().unread == if cmd.server.active then w.unread else w.unread - {cmd};
    }

    /** `cancelDisconnect` of a command that is not a statement's. */
    method DropCommand(cmd: Command)
      requires Valid() && cmd in commands && cmd.handle
      requires forall s | s in statements :: s.context != cmd
      modifies cmd`handle, cmd.server
      ensures Valid() && !cmd.handle
      ensures World() == Reaped(old(World()), cmd, cmd.server.active)
      ensures cmd.server.active == (old(cmd.server.active) && cmd.server.cancelRet != Success)
    {
      ghost var w := World();
      cmd.CancelDisconnect();
      assert World().statements == w.statements;
      assert World().unread == if cmd.server.active then w.unread else w.unread - {cmd};
    }

    /** `closeAndReconnect`: the command is dropped at once, then the registered
        statement is displaced, which may throw. Zero means that the command may
        be sent again. With a transaction open, the error already raised makes
        the reconnection count as failed. */
    method CloseAndReconnect(cmd: Command, tryReconnect: bool, a: Attempt) returns (r: Result<int, ConnError>)
      requires Valid() && cmd in commands && cmd.handle
      requires forall s | s in statements :: s.context != cmd
      modifies this`stmt, this`aborted, this`log, cmd`handle, cmd.server
      modifies Displaceable()`valid, DisplaceableCommands()`handle, DisplaceableServers()
      ensures Valid() && !cmd.handle
      ensures World() == Dropped(Reaped(old(World()), cmd, cmd.server.active), old(CancelWorks(stmt)))
      ensures cmd.server.active == (old(cmd.server.active) && cmd.server.cancelRet != Success)
      ensures DisplacementThrows(old(World())) ==> r == Err(NeverExecuted) && log == old(log) && stmt == old(stmt)
      ensures !DisplacementThrows(old(World())) ==>
                && stmt == null
                && log == old(log) + [Reconnected(a.inTransaction, a.init.InitOk?)]
                && r == if a.init.InitThrows? then Err(ReconnectThrew)
                        else Ok(if tryReconnect && a.init.InitOk? && !a.inTransaction then 0 else -1)
      ensures aborted == (old(aborted) || (!DisplacementThrows(old(World())) && Breaks(a)))
    {
      hide Valid, WellFormed, World;
      Apart(cmd);
      DropCommand(cmd);
      var displaced := InvalidateStatement();
      if displaced.Err? {
        return Err(displaced.error);
      }
      r := Reconnect(tryReconnect, a);
    }

    /** The rest of `closeAndReconnect`: the connection itself. */
    method Reconnect(tryReconnect: bool, a: Attempt) returns (r: Result<int, ConnError>)
      modifies this`aborted, this`log
      ensures log == old(log) + [Reconnected(a.inTransaction, a.init.InitOk?)]
      ensures r == if a.init.InitThrows? then Err(ReconnectThrew)
                   else Ok(if tryReconnect && a.init.InitOk? && !a.inTransaction then 0 else -1)
      ensures aborted == (old(aborted) || Breaks(a))
    {
      log := log + [Reconnected(a.inTransaction, a.init.InitOk?)];
      if a.init == InitThrows {
        return Err(ReconnectThrew);
      }
      if a.init == InitFails || a.inTransaction {
        aborted := true;
        return Ok(-1);
      }
      return Ok(if tryReconnect then 0 else -1);
    }

    /** Every command made since there were only `before`, but for `kept`, has
        had its handle dropped. */
    ghost predicate AllDropped(before: set<Command>, kept: Option<Command>)
      reads this`commands, commands`handle
    {
      forall c | c in commands && c.handle :: c in before || kept == Some(c)
    }

    /** One attempt to send a new command: the command if it was sent, nothing
        when another attempt is due. */
    method TryOnce(a: Attempt, ph: seq<string>) returns (r: Result<Option<Command>, ConnError>)
      requires Valid() && ValidStream(a.script)
      modifies this`stmt, this`aborted, this`commands, this`servers, this`clean, this`log
      modifies Displaceable()`valid, DisplaceableCommands()`handle, DisplaceableServers()
      ensures Valid()
      ensures stmt == if Loses(a) && !old(Blocked([a])) then null else old(stmt)
      ensures old(Blocked([a])) ==> r == Err(NeverExecuted) && log == old(log) + [SendTried(false)]
      ensures !old(Blocked([a])) ==> log == old(log) + AttemptLog(a) && (r.Err? ==> Outcome([a]) == Err(r.error))
      ensures r.Ok? && r.value.Some? <==> a.sendRet == Success
      ensures r == Ok(None) <==> Retries(a) && !old(Blocked([a]))
      ensures a.sendRet != Success ==> World() == NotSent(AfterLoss(old(World()), old(LostWith([a]))))
      ensures r.Ok? && r.value.Some? ==> ReadyCommand(r.value.value, a, ph) && fresh(r.value.value) && fresh(r.value.value.server)
                                         && World() == Sent(old(World()), r.value.value, true)
                                         && commands == old(commands) + {r.value.value}
      ensures a.cancelRet == Success ==> AllDropped(old(commands), if r.Ok? then r.value else None)
      ensures aborted == (old(aborted) || (!old(Blocked([a])) && Loses(a) && Breaks(a)))
    {
      hide Valid, WellFormed, World;
      ghost var w, lost := World(), LostWith([a]);
      var cmd := NewCommand(a, ph);
      Apart(cmd);
      var sent := TrySend(cmd);
      if sent {
        return Ok(Some(cmd));
      }
      assert w.unread - {cmd} == w.unread;
      LossSettles(w, lost);
      r := HandleSendError(cmd, a);
    }

    /** One round of the loop of `setupCommand`, for the first of the attempts
        still ahead: a command that was sent, or nothing when another round is
        due. */
    method Round(env: seq<Attempt>, ph: seq<string>, ghost before: set<Command>)
      returns (r: Result<Option<Command>, ConnError>)
      requires Valid() && env != [] && ValidStream(env[0].script)
      modifies this`stmt, this`aborted, this`commands, this`servers, this`clean, this`log
      modifies Displaceable()`valid, DisplaceableCommands()`handle, DisplaceableServers()
      ensures Valid()
      ensures stmt == if Loses(env[0]) && !old(Blocked(env)) then null else old(stmt)
      ensures old(Blocked(env)) ==> r == Err(NeverExecuted) && log == old(log) + [SendTried(false)]
      ensures r == Ok(None) <==> Retries(env[0]) && !old(Blocked(env))
      ensures r == Ok(None) ==> old(log) + SetupLog(env) == log + SetupLog(env[1..]) && Outcome(env) == Outcome(env[1..])
      ensures r != Ok(None) && !old(Blocked(env)) ==> old(log) + SetupLog(env) == log
      ensures r.Err? && !old(Blocked(env)) ==> Outcome(env) == Err(r.error)
      ensures r.Err? || r.value.None? ==> World() == NotSent(AfterLoss(old(World()), old(LostWith(env))))
      ensures r.Ok? && r.value.Some? ==> Outcome(env) == Ok(env[0]) && ReadyCommand(r.value.value, env[0], ph)
                                         && fresh(r.value.value) && fresh(r.value.value.server)
                                         && World() == Sent(old(World()), r.value.value, true)
      ensures env[0].cancelRet == Success && old(AllDropped(before, None)) ==>
                AllDropped(before, if r.Ok? then r.value else None)
      ensures r.Ok? ==> aborted == old(aborted)
      ensures r.Err? ==> aborted == (old(aborted) || (!old(Blocked(env)) && Aborts(env)))
      ensures r == Ok(None) ==> Aborts(env) == Aborts(env[1..])
    {
      hide Valid, WellFormed, World;
      Unrolled(env, log);
      RegisteredAppears();
      assert LostWith(env) == LostWith([env[0]]);
      r := TryOnce(env[0], ph);
    }

    /** The handler of the error `send` throws. */
    method HandleSendError(cmd: Command, a: Attempt) returns (r: Result<Option<Command>, ConnError>)
      requires Valid()
      requires cmd in commands && (forall s | s in statements :: s.context != cmd)
      requires a.sendRet != Success && a.cancelRet == cmd.server.cancelRet
      requires cmd.handle && !cmd.server.active && cmd.lastRes == RES_NONE
      modifies this`stmt, this`aborted, this`log, cmd`handle, cmd.server
      modifies Displaceable()`valid, DisplaceableCommands()`handle, DisplaceableServers()
      ensures Valid()
      ensures stmt == if Loses(a) && !old(Blocked([a])) then null else old(stmt)
      ensures World() == if Loses(a) then Dropped(old(World()), old(CancelWorks(stmt))) else old(World())
      ensures old(Blocked([a])) ==> r == Err(NeverExecuted) && log == old(log)
      ensures !old(Blocked([a])) ==>
                && log == old(log) + AttemptLog(a)[1..]
                && r == if Retries(a) then Ok(None) else Err(Outcome([a]).error)
      ensures a.cancelRet == Success || Loses(a) ==> !cmd.handle
      ensures aborted == (old(aborted) || (!old(Blocked([a])) && Loses(a) && Breaks(a)))
    {
      hide Valid, WellFormed, World;
      Apart(cmd);
      if !a.up {
        var rc := CloseAndReconnect(cmd, true, a);
        if rc.Err? {
          return Err(rc.error);
        }
        if rc.value == 0 {
          return Ok(None);
        }
      }
      Discard(cmd);
      return Err(SendFailed);
    }

    /** A command that has just been sent. */
    ghost predicate ReadyCommand(cmd: Command, a: Attempt, ph: seq<string>)
      reads this`statements, this`commands, statements`context, cmd, cmd.server
    {
      && cmd in commands && (forall s | s in statements :: s.context != cmd)
      && cmd.handle && cmd.Synced() && cmd.lastRes == RES_NONE
      && cmd.server.script == a.script && cmd.server.cancelRet == a.cancelRet
      && cmd.Remaining() == a.script && cmd.CacheState() == NO_CACHE && cmd.placeholders == ph
    }

    ghost predicate ReadyHandle(cmd: Command, a: Attempt)
      reads cmd, cmd.server
    {
      && cmd.handle && cmd.Synced() && cmd.lastRes == RES_NONE
      && cmd.server.open.None? && cmd.server.pending == a.script && cmd.CacheState() == NO_CACHE
      && cmd.server.cancelRet == a.cancelRet
    }

    lemma NothingToDisplace(env: seq<Attempt>)
      requires Valid() && stmt == null
      ensures !Blocked(env) && NotSent(AfterLoss(World(), LostWith(env))) == NotSent(World())
    {
    }

    /** The loop of `setupCommand` while no statement is registered: sends a new
        command, again and again as long as the connection is lost and can be
        made anew. */
    method KeepTrying(env: seq<Attempt>, ph: seq<string>, ghost before: set<Command>)
      returns (r: Result<Command, ConnError>)
      requires Valid() && ValidAttempts(env) && stmt == null
      modifies this`stmt, this`aborted, this`commands, this`servers, this`clean, this`log
      ensures Valid() && stmt == null
      ensures log == old(log) + SetupLog(env)
      ensures r.Ok? <==> Outcome(env).Ok?
      ensures r.Err? ==> Outcome(env) == Err(r.error)
      ensures r.Err? ==> World() == if env == [] then old(World()) else NotSent(old(World()))
      ensures r.Ok? ==> ReadyCommand(r.value, Outcome(env).value, ph) && fresh(r.value) && fresh(r.value.server)
                        && World() == Sent(old(World()), r.value, true)
      ensures CancelsWork(env) && old(AllDropped(before, None)) ==>
                AllDropped(before, if r.Ok? then Some(r.value) else None)
      ensures aborted == (old(aborted) || Aborts(env)) && (r.Ok? ==> aborted == old(aborted))
    {
      hide Valid, WellFormed, World, ReadyCommand, Blocked, LostWith, AfterLoss, SetupLog, Outcome, Aborts;
      var i := 0;
      ghost var w := World();
      RegisteredAppears();
      assert env[0..] == env;
      while i < |env|
        invariant 0 <= i <= |env| && Valid() && stmt == null
        invariant old(log) + SetupLog(env) == log + SetupLog(env[i..])
        invariant Outcome(env) == Outcome(env[i..]) && Aborts(env) == Aborts(env[i..]) && aborted == old(aborted)
        invariant World() == if i == 0 then w else NotSent(w)
        invariant CancelsWork(env) && old(AllDropped(before, None)) ==> AllDropped(before, None)
      {
        assert env[i..][1..] == env[i + 1..];
        NothingToDisplace(env[i..]);
        var got := Round(env[i..], ph, before);
        if got.Err? {
          return Err(got.error);
        }
        if got.value.Some? {
          SentAgain(w, got.value.value);
          NoAbortWhenSent(env);
          return Ok(got.value.value);
        }
        i := i + 1;
      }
      NothingTried(log);
      assert env[i..] == [];
      return Err(StillRetrying);
    }

    /** What there is to read of a command that has just been sent. */
    lemma NothingRead(s: Statement, a: Attempt)
      requires s.context != null && ReadyHandle(s.context, a)
      ensures s.context.Synced() && FitsStream(NO_CACHE, a.script)
      ensures s.Pending() == Given(s.execRes) + RowsOf(a.script, NO_CACHE)
      ensures s.Met() == MetIn(a.script, NO_CACHE)
    {
      StreamFits(s.context);
      assert s.context.Remaining() == a.script;
    }

    /** `setupCommand`. When the connection is lost in its first round, the
        registered statement is displaced, so that the rounds that follow find
        none. */
    method SetupCommand(env: seq<Attempt>, ph: seq<string>) returns (r: Result<Command, ConnError>)
      requires Valid() && ValidAttempts(env) && env != []
      modifies this`stmt, this`aborted, this`commands, this`servers, this`clean, this`log
      modifies Displaceable()`valid, DisplaceableCommands()`handle, DisplaceableServers()
      ensures Valid()
      ensures stmt == if Loses(env[0]) && !old(Blocked(env)) then null else old(stmt)
      ensures old(Blocked(env)) ==> r == Err(NeverExecuted) && log == old(log) + [SendTried(false)]
      ensures !old(Blocked(env)) ==> log == old(log) + SetupLog(env) && (r.Ok? <==> Outcome(env).Ok?)
                                     && (r.Err? ==> Outcome(env) == Err(r.error))
      ensures r.Err? ==> World() == NotSent(AfterLoss(old(World()), old(LostWith(env))))
      ensures r.Ok? ==> ReadyCommand(r.value, Outcome(env).value, ph) && fresh(r.value) && fresh(r.value.server)
                        && World() == Sent(AfterLoss(old(World()), old(LostWith(env))), r.value, true)
      ensures CancelsWork(env) ==> AllDropped(old(commands), if r.Ok? then Some(r.value) else None)
      ensures aborted == (old(aborted) || (!old(Blocked(env)) && Aborts(env))) && (r.Ok? ==> aborted == old(aborted))
    {
      hide Valid, WellFormed, World;
      LossSettles(World(), LostWith(env));
      NoAbortWhenSent(env);
      var got := Round(env, ph, commands);
      if got.Err? {
        return Err(got.error);
      }
      if got.value.Some? {
        return Ok(got.value.value);
      }
      r := KeepTrying(env[1..], ph, old(commands));
    }

    // --------------------------------------------------------------- execution

    /** The reading part of `execReadOutput`. If the server fails and cannot be
        cancelled, the connection is closed and made anew (`lost`). The command
        is destroyed in any case; the ghost result says whether some of its
        results stay unread. */
    method ReadAndDestroy(cmd: Command, mode: Mode, lost: Attempt, ghost a: Attempt)
      returns (r: Result<Value, ConnError>, ghost left: bool)
      requires Valid() && stmt == null && ReadyCommand(cmd, a, cmd.placeholders)
      modifies this`stmt, this`aborted, this`log, cmd, cmd.server
      ensures Valid() && stmt == null
      ensures World() == Reaped(old(World()), cmd, left)
      ensures a.cancelRet == Success && !old(aborted) ==> !left && !cmd.handle
      ensures FitsStream(NO_CACHE, a.script)
      ensures var output := Fold(a.script, Folding(NO_CACHE, EMPTY), mode, old(cmd.placeholders));
              var gone := output == Err(ResultsFailed) && a.cancelRet == Fail;
              && log == old(log) + (if gone then [Reconnected(lost.inTransaction, lost.init == InitOk)] else [])
              && aborted == (old(aborted) || (gone && Breaks(lost)))
              && r == if output.Ok? then Ok(output.value)
                      else if gone && lost.init == InitThrows then Err(ReconnectThrew)
                      else Err(OutputFailed(output.error))
      ensures r.Ok? ==> !left
    {
      StreamFits(cmd);
      var output, disconnect := Output(cmd, mode);
      if disconnect {
        var rc := CloseAndReconnect(cmd, false, lost);
        r := if rc.Err? then Err(rc.error) else Err(OutputFailed(ResultsFailed));
      } else {
        r := if output.Ok? then Ok(output.value) else Err(OutputFailed(output.error));
      }
      Discard(cmd);
      left := cmd.server.active;
    }

    method Output(cmd: Command, mode: Mode) returns (r: Result<Value, Error>, disconnect: bool)
      requires Valid() && cmd in commands && (forall s | s in statements :: s.context != cmd)
      requires cmd.handle && cmd.Synced() && cmd.lastRes == RES_NONE
      modifies cmd`rowcount, cmd`lastRes, cmd`dirty, cmd`datafmt, cmd`outBuffers, cmd.server
      ensures Valid() && cmd.Synced() && !cmd.lastRes.RES_CANCELED?
      ensures r == old(cmd.Ahead(EMPTY, mode))
      ensures disconnect <==> r == Err(ResultsFailed) && cmd.server.cancelRet == Fail
      ensures r.Ok? ==> !cmd.server.active
      ensures World() == Reaped(old(World()), cmd, cmd.server.active)
    {
      ghost var w := World();
      r, disconnect := cmd.ReadOutput(mode);
      assert World().statements == w.statements;
      assert World().unread == if cmd.server.active then w.unread else w.unread - {cmd};
    }

    /** `execReadOutput`: displaces the active statement, sends a command and
        reads all of its output. */
    method ExecReadOutput(env: seq<Attempt>, mode: Mode, ph: seq<string>, lost: Attempt)
      returns (r: Result<Value, ConnError>, ghost cmd: Option<Command>, ghost left: bool)
      requires Valid() && ValidAttempts(env) && env != []
      modifies this`stmt, this`aborted, this`commands, this`servers, this`clean, this`log
      modifies Displaceable()`valid, DisplaceableCommands()`handle, DisplaceableServers()
      ensures Valid()
      ensures DisplacementThrows(old(World())) ==> r == Err(NeverExecuted) && World() == old(World()) && log == old(log)
      ensures DisplacementThrows(old(World())) ==> stmt == old(stmt) && aborted == old(aborted)
      ensures !DisplacementThrows(old(World())) ==> stmt == null
      ensures r.Ok? ==> !left
      ensures !DisplacementThrows(old(World())) && Outcome(env).Err? ==>
                r == Err(Outcome(env).error)
                && log == old(log) + SetupLog(env) && aborted == (old(aborted) || Aborts(env))
                && World() == NotSent(Displaced(old(World()), old(CancelWorks(stmt))).(registered := None))
      ensures !DisplacementThrows(old(World())) && Outcome(env).Ok? ==>
                && cmd.Some? && fresh(cmd.value)
                && World() == Step(old(World()), Direct(cmd.value, old(CancelWorks(stmt)), true, left, false))
                && FitsStream(NO_CACHE, Outcome(env).value.script)
                && var output := Fold(Outcome(env).value.script, Folding(NO_CACHE, EMPTY), mode, ph);
                   var gone := output == Err(ResultsFailed) && Outcome(env).value.cancelRet == Fail;
                   && log == old(log) + SetupLog(env)
                             + (if gone then [Reconnected(lost.inTransaction, lost.init == InitOk)] else [])
                   && aborted == (old(aborted) || (gone && Breaks(lost)))
                   && r == if output.Ok? then Ok(output.value)
                           else if gone && lost.init == InitThrows then Err(ReconnectThrew)
                           else Err(OutputFailed(output.error))
      ensures CancelsWork(env) && !old(aborted) ==> !left && AllDropped(old(commands), None)
      ensures old(Inv(World()) && DisplacementCancels() && !aborted) && CancelsWork(env) ==> Inv(World())
    {
      hide Valid, WellFormed, World, Fold, Step, Sent, Reaped, Displaced, Aborts, Outcome;
      ghost var w, cancelOld := World(), CancelWorks(stmt);
      cmd, left := None, false;
      RegisteredAppears();
      var displaced := InvalidateStatement();
      if displaced.Err? {
        return Err(displaced.error), None, false;
      }
      r, cmd, left := SendAndRead(env, mode, ph, lost);
      if cmd.Some? {
        DirectIs(w, cmd.value, cancelOld, left);
      }
      if Inv(w) && (w.registered.None? || cancelOld) && !left {
        SafeDirect(w, cmd, cancelOld);
      }
    }

    method SendAndRead(env: seq<Attempt>, mode: Mode, ph: seq<string>, lost: Attempt)
      returns (r: Result<Value, ConnError>, ghost cmd: Option<Command>, ghost left: bool)
      requires Valid() && ValidAttempts(env) && env != [] && stmt == null
      modifies this`stmt, this`aborted, this`commands, this`servers, this`clean, this`log
      ensures Valid() && stmt == null
      ensures r.Ok? ==> !left
      ensures Outcome(env).Err? ==> r == Err(Outcome(env).error) && World() == NotSent(old(World())) && cmd.None?
                                    && log == old(log) + SetupLog(env) && aborted == (old(aborted) || Aborts(env))
      ensures Outcome(env).Ok? ==>
                && cmd.Some? && fresh(cmd.value)
                && World() == Reaped(Sent(old(World()), cmd.value, true), cmd.value, left)
                && FitsStream(NO_CACHE, Outcome(env).value.script)
                && var output := Fold(Outcome(env).value.script, Folding(NO_CACHE, EMPTY), mode, ph);
                   var gone := output == Err(ResultsFailed) && Outcome(env).value.cancelRet == Fail;
                   && log == old(log) + SetupLog(env)
                             + (if gone then [Reconnected(lost.inTransaction, lost.init == InitOk)] else [])
                   && aborted == (old(aborted) || (gone && Breaks(lost)))
                   && r == if output.Ok? then Ok(output.value)
                           else if gone && lost.init == InitThrows then Err(ReconnectThrew)
                           else Err(OutputFailed(output.error))
      ensures CancelsWork(env) && !old(aborted) ==> !left && AllDropped(old(commands), None)
    {
      hide Valid, WellFormed, World;
      cmd, left := None, false;
      RegisteredAppears();
      ghost var w, loss := World(), LostWith(env);
      var setup := SetupCommand(env, ph);
      LossOfNone(w, loss);
      if setup.Err? {
        return Err(setup.error), None, false;
      }
      cmd := Some(setup.value);
      SentAfterLoss(w, loss, setup.value);
      OutcomeAmong(env);
      NoAbortWhenSent(env);
      r, left := ReadAndDestroy(setup.value, mode, lost, Outcome(env).value);
    }

    /** Cancelling the command of a statement about to be executed again. */
    method CancelOld(s: Statement) returns (ghost cancelled: bool)
      requires Valid() && s in statements && s.valid
      modifies CommandsOf(s)`lastRes, ServersOf(s)
      ensures Valid()
      ensures World() == old(World()).(unread := Cancelled(old(World()).unread, ContextOf(s), cancelled))
      ensures s.context == null || s.context.server.cancelRet == Success ==> cancelled
      ensures s.context != null ==> s.context.lastRes.RES_END? || s.context.lastRes.RES_CANCELED?
    {
      ghost var w := World();
      cancelled := true;
      if s.context != null {
        s.context.Cancel();
        cancelled := !s.context.server.active;
      }
      assert World().statements == w.statements;
      assert World().unread == Cancelled(w.unread, ContextOf(s), cancelled);
    }

    /** `context.reset(...)`: the statement gets the new command and the old
        one, read to its end or cancelled before, is destroyed. */
    method ReplaceContext(s: Statement, cmd: Command, ghost a: Attempt, ghost ph: seq<string>)
      requires Valid() && s in statements && ReadyCommand(cmd, a, ph)
      requires s.context != null ==> s.context.lastRes.RES_END? || s.context.lastRes.RES_CANCELED?
      modifies s`context, CommandsOf(s)`handle, ServersOf(s)
      ensures Valid() && s.context == cmd && ReadyHandle(cmd, a)
      ensures World() == old(World()).(statements := old(World()).statements[s := StatementState(s.valid, Some(cmd))])
    {
      hide Valid, WellFormed, World;
      var previous := s.context;
      SetContext(s, cmd, a, ph);
      if previous != null {
        Apart(previous);
        Discard(previous);
      }
    }

    method SetContext(s: Statement, cmd: Command, ghost a: Attempt, ghost ph: seq<string>)
      requires Valid() && s in statements && ReadyCommand(cmd, a, ph)
      modifies s`context
      ensures Valid() && s.context == cmd && ReadyHandle(cmd, a)
      ensures World() == old(World()).(statements := old(World()).statements[s := StatementState(s.valid, Some(cmd))])
      ensures var c := old(s.context);
              c != null ==>
                && c != cmd && c in commands && c.server != cmd.server && (forall t | t in statements :: t.context != c)
                && (c.lastRes.RES_END? ==> !c.server.active)
    {
      ghost var w := World();
      s.context := cmd;
      assert States() == w.statements[s := StatementState(s.valid, Some(cmd))];
    }

    /** Asking for the first result of a statement's new command. */
    method FirstResult(s: Statement) returns (r: Result<(), ConnError>, disconnect: bool)
      requires Valid() && s in statements && s.context != null && s.context.Synced()
      modifies s`taken, s`origin, s.context`rowcount, s.context`dirty, s.context`lastRes, s.context.server
      ensures Valid() && s.Conserves() && s.taken == []
      ensures World() == Reaped(old(World()), s.context, s.context.server.active)
      ensures old(s.context.lastRes).Reads() ==>
                s.context.server.active == old(LeavesUnread(s.context.server.pending, s.context.server.cancelRet))
      ensures s.origin == old(s.Pending())
      ensures r == if old(s.Met()).Err? then Err(OutputFailed(old(s.Met()).error)) else Ok(())
      ensures r.Ok? && old(s.Met()).value.Some? ==> s.Met() == old(s.Met())
      ensures disconnect <==> r == Err(OutputFailed(ResultsFailed)) && s.context.server.cancelRet == Fail
    {
      hide Server.Valid, ValidStream, RowsOf, MetIn, LeavesUnread, SkipSucceed;
      hide Statement.Met, Statement.Pending, Statement.Unread;
      ghost var w := World();
      var res;
      res, disconnect := s.Begin();
      assert World().statements == w.statements;
      assert World().unread == if s.context.server.active then w.unread else w.unread - {s.context};
      r := if res.Err? then Err(OutputFailed(res.error)) else Ok(());
    }

    /** `Statement::exec`: cancels what the statement was reading, sends its
        command and asks for the first result. A row still in hand is kept and
        comes before the new rows. When the connection is lost and made anew on
        the way, the registered statement, usually this one, is displaced: an
        error if it has no command; otherwise the new command is sent, but the
        statement cannot be used any longer. With `disconnect` the connection
        is to be closed, which is not part of this method. */
    method ExecStatement(s: Statement, env: seq<Attempt>, ph: seq<string>)
      returns (r: Result<(), ConnError>, disconnect: bool, ghost cancelled: bool)
      requires Valid() && s in statements && ValidAttempts(env) && env != []
      modifies this`stmt, this`aborted, this`commands, this`servers, this`clean, this`log
      modifies s`context, s`taken, s`origin, CommandsOf(s)`handle, CommandsOf(s)`lastRes, ServersOf(s)
      modifies Displaceable()`valid, DisplaceableCommands()`handle, DisplaceableServers()
      ensures Valid()
      ensures !old(s.valid) ==> r == Err(NotUsable) && World() == old(World()) && aborted == old(aborted)
      ensures old(s.valid && Blocked(env)) ==> r == Err(NeverExecuted) && aborted == old(aborted)
      ensures old(s.valid && !Blocked(env)) ==> aborted == (old(aborted) || Aborts(env))
      ensures old(s.valid && !Blocked(env)) && Outcome(env).Err? ==> r == Err(Outcome(env).error)
      ensures old(s.valid) && (old(Blocked(env)) || Outcome(env).Err?) ==>
                World() == NotSent(AfterLoss(
                  old(World()).(unread := Cancelled(old(World()).unread, old(ContextOf(s)), cancelled)), old(LostWith(env))))
      ensures old(s.valid && !Blocked(env)) && Outcome(env).Ok? ==>
                var a := Outcome(env).value;
                && s.context != null && fresh(s.context) && fresh(s.context.server)
                && World() == Step(old(World()), Execute(s, s.context, cancelled, old(LostWith(env)), true,
                                                         LeavesUnread(a.script, a.cancelRet)))
                && FirstRead(s, a, old(s.execRes), r)
                && var rest := SkipSucceed(a.script);
                   r == if rest != [] && rest[0].Failing? then Err(OutputFailed(rest[0].error))
                        else if rest != [] && rest[0] == Done(None) then Err(OutputFailed(NoRowCount))
                        else Ok(())
      ensures old(s.valid) ==> stmt == if Loses(env[0]) && !old(Blocked(env)) then null else old(stmt)
      ensures s.valid == (old(s.valid) && !(old(stmt) == s && Loses(env[0]) && !old(Blocked(env))))
      ensures disconnect <==> r == Err(OutputFailed(ResultsFailed)) && Outcome(env).Ok? && Outcome(env).value.cancelRet == Fail
      ensures old(s.context == null || s.context.server.cancelRet == Success) ==> cancelled
      ensures old(Inv(World())) && cancelled && !LossLeaves(env, old(s.context) != null) ==> Inv(World())
    {
      hide Valid, WellFormed, World, Shaped, StatementOk, FirstRead, FirstAnswer, MetIn, SkipSucceed, LeavesUnread;
      hide Aborts, Outcome, Step, Adopted, Sent, AfterLoss;
      hide Server.Valid, Command.Synced, Statement.Met, Statement.Conserves, Statement.Pending;
      ghost var w, lost, blocked := World(), LostWith(env), Blocked(env);
      disconnect, cancelled := false, true;
      Appears(s);
      NoAbortWhenSent(env);
      if !s.valid {
        return Err(NotUsable), false, true;
      }
      cancelled := CancelOld(s);
      r, disconnect := SendForStatement(s, env, ph);
      if !blocked && Outcome(env).Ok? {
        ExecuteIs(w, s, s.context, cancelled, lost, LeavesUnread(Outcome(env).value.script, Outcome(env).value.cancelRet));
        FirstReadIs(s, Outcome(env).value, old(s.execRes), r);
      }
      if Inv(w) && cancelled {
        SafeExecute(w, s, if !blocked && Outcome(env).Ok? then Some(s.context) else None, lost,
                    Outcome(env).Ok? && LeavesUnread(Outcome(env).value.script, Outcome(env).value.cancelRet));
      }
    }

    /** What `exec` leaves when its command has been sent: the row it had in
        hand and the command's rows are due, it has failed if the first reply
        did, and a row or parameter set coming first is met next. */
    ghost predicate FirstRead(s: Statement, a: Attempt, inHand: Option<Value>, r: Result<(), ConnError>)
      reads s`context, s`taken, s`origin, s`execRes, s.Footprint()
    {
      && s.Conserves() && s.taken == [] && s.context.server.cancelRet == a.cancelRet
      && FitsStream(NO_CACHE, a.script)
      && s.origin == Given(inHand) + RowsOf(a.script, NO_CACHE)
      && r == FirstAnswer(a.script)
      && (r.Ok? && MetIn(a.script, NO_CACHE).value.Some? ==> s.Met() == MetIn(a.script, NO_CACHE))
    }

    lemma FirstReadIs(s: Statement, a: Attempt, inHand: Option<Value>, r: Result<(), ConnError>)
      requires s.context != null && FirstRead(s, a, inHand, r)
      ensures var rest := SkipSucceed(a.script);
              r == if rest != [] && rest[0].Failing? then Err(OutputFailed(rest[0].error))
                   else if rest != [] && rest[0] == Done(None) then Err(OutputFailed(NoRowCount))
                   else Ok(())
    {
    }

    method SendForStatement(s: Statement, env: seq<Attempt>, ph: seq<string>)
      returns (r: Result<(), ConnError>, disconnect: bool)
      requires Valid() && s in statements && s.valid && ValidAttempts(env) && env != []
      requires s.context != null ==> s.context.lastRes.RES_END? || s.context.lastRes.RES_CANCELED?
      modifies this`stmt, this`aborted, this`commands, this`servers, this`clean, this`log
      modifies s`context, s`taken, s`origin, CommandsOf(s)`handle, ServersOf(s)
      modifies Displaceable()`valid, DisplaceableCommands()`handle, DisplaceableServers()
      ensures Valid()
      ensures aborted == (old(aborted) || (!old(Blocked(env)) && Aborts(env)))
      ensures old(Blocked(env)) ==> r == Err(NeverExecuted)
      ensures !old(Blocked(env)) && Outcome(env).Err? ==> r == Err(Outcome(env).error)
      ensures old(Blocked(env)) || Outcome(env).Err? ==>
                World() == NotSent(AfterLoss(old(World()), old(LostWith(env))))
      ensures !old(Blocked(env)) && Outcome(env).Ok? ==>
                var a := Outcome(env).value;
                && s.context != null && fresh(s.context) && fresh(s.context.server)
                && World() == Adopted(Sent(AfterLoss(old(World()), old(LostWith(env))), s.context, true),
                                      s, s.context, true, LeavesUnread(a.script, a.cancelRet))
                && FirstRead(s, a, old(s.execRes), r)
      ensures stmt == if Loses(env[0]) && !old(Blocked(env)) then null else old(stmt)
      ensures s.valid == !(old(stmt) == s && Loses(env[0]) && !old(Blocked(env)))
      ensures disconnect <==> r == Err(OutputFailed(ResultsFailed)) && Outcome(env).Ok? && Outcome(env).value.cancelRet == Fail
    {
      hide Valid, WellFormed, World, FirstRead, LeavesUnread, Aborts, Outcome, Adopted, AfterLoss;
      disconnect := false;
      Appears(s);
      ghost var w, lost := World(), LostWith(env);
      var setup := SetupCommand(env, ph);
      Appears(s);
      ValidAfterLoss(w, lost, s);
      if setup.Err? {
        return Err(setup.error), false;
      }
      r, disconnect := Adopt(s, setup.value, Outcome(env).value, ph);
    }

    /** The new command becomes the statement's, and its first result is asked
        for. */
    method Adopt(s: Statement, cmd: Command, ghost a: Attempt, ghost ph: seq<string>)
      returns (r: Result<(), ConnError>, disconnect: bool)
      requires Valid() && s in statements && ReadyCommand(cmd, a, ph)
      requires s.context != null ==> s.context.lastRes.RES_END? || s.context.lastRes.RES_CANCELED?
      modifies s`context, s`taken, s`origin, CommandsOf(s)`handle, ServersOf(s)
      modifies cmd`rowcount, cmd`dirty, cmd`lastRes, cmd.server
      ensures Valid() && s.context == cmd
      ensures World() == Adopted(old(World()), s, cmd, true, LeavesUnread(a.script, a.cancelRet))
      ensures FirstRead(s, a, old(s.execRes), r)
      ensures disconnect <==> r == Err(OutputFailed(ResultsFailed)) && a.cancelRet == Fail
    {
      hide Valid, WellFormed, World, ReadyCommand, Server.Valid, Command.Synced;
      hide Statement.Pending, Statement.Conserves, Statement.Met, MetIn;
      Appears(s);
      ReplaceContext(s, cmd, a, ph);
      NothingRead(s, a);
      r, disconnect := FirstResult(s);
    }

    /** An execution whose text the rewriter rejects: what the statement was
        reading is cancelled and destroyed, and no command takes its place. */
    method RejectStatement(s: Statement) returns (r: Result<(), ConnError>, ghost cancelled: bool)
      requires Valid() && s in statements
      modifies s`context, CommandsOf(s)`handle, CommandsOf(s)`lastRes, ServersOf(s)
      ensures Valid() && World() == Step(old(World()), Reject(s, cancelled))
      ensures r == Err(if old(s.valid) then TextRejected else NotUsable)
      ensures old(s.valid) ==> s.context == null
      ensures old(s.context == null || s.context.server.cancelRet == Success) ==> cancelled
      ensures old(Inv(World())) && cancelled ==> Inv(World())
    {
      hide Valid, WellFormed, World;
      ghost var w := World();
      cancelled := true;
      Appears(s);
      if !s.valid {
        return Err(NotUsable), true;
      }
      cancelled := CancelOld(s);
      var previous := s.context;
      ClearContext(s);
      if previous != null {
        Apart(previous);
        Discard(previous);
      }
      if Inv(w) && cancelled {
        StepKeepsInvIff(w, Reject(s, cancelled));
      }
      return Err(TextRejected), cancelled;
    }

    method ClearContext(s: Statement)
      requires Valid() && s in statements
      modifies s`context
      ensures Valid() && s.context == null
      ensures World() == old(World()).(statements := old(World()).statements[s := StatementState(s.valid, None)])
      ensures var c := old(s.context);
              c != null ==>
                && c in commands && (forall t | t in statements :: t.context != c)
                && (c.lastRes.RES_END? ==> !c.server.active)
    {
      ghost var w := World();
      s.context := null;
      assert States() == w.statements[s := StatementState(s.valid, None)];
    }

    // ------------------------------------------------------------------ reading

    /** `next` of a statement on the connection: the Read step. With
        `disconnect` the connection is to be closed. */
    method Next(s: Statement) returns (r: Result<bool, StatementError>, disconnect: bool, ghost left: bool)
      requires Valid() && s in statements && (s.valid ==> s.context != null)
      modifies s`execRes, s.ReadFootprint()
      ensures Valid() && World() == Step(old(World()), Read(s, left))
      ensures old(Inv(World())) ==> Inv(World())
      ensures old(s.Conserves()) ==> s.Conserves()
      ensures s.valid ==> s.Pending() == old(s.Pending()) && (r.Ok? ==> r.value == s.execRes.Some?)
      ensures s.valid ==> r == Lifted(Answer(old(s.Met()), old(s.execRes).Some?))
      ensures s.valid && r == Ok(true) && old(s.Met()).Ok? && old(s.Met()).value.Some? ==>
                s.Met() == if old(s.execRes).Some? then old(s.Met()) else Ok(Some(Less(old(s.Met()).value.value)))
      ensures !s.valid ==> r == Err(ConnectionLost)
      ensures disconnect <==> s.valid && r == Err(ReadFailed(ResultsFailed)) && s.context.server.cancelRet == Fail
    {
      hide Valid, WellFormed, World, States, UnreadBut, ValidBut, StatementOk, Inv, Step, Server.Valid, Command.Synced;
      hide Statement.Pending, Statement.Unread, Statement.Conserves, Statement.Met, Answer, Lifted, Less, SkipSucceed;
      ghost var w := World();
      Appears(s);
      if s.valid {
        Detached(s.context);
      }
      r, disconnect := s.Next();
      left := s.valid && s.context.server.active;
      if s.valid {
        Attached(s);
      }
      ReadIs(w, s, left);
    }

    /** `fetch_rows` of a statement on the connection: the Read step. */
    method FetchRows(s: Statement, n: int)
      returns (r: Result<seq<Value>, StatementError>, disconnect: bool, ghost left: bool)
      requires Valid() && s in statements && (s.valid ==> s.context != null)
      modifies s`execRes, s`taken, s.ReadFootprint()
      ensures Valid() && World() == Step(old(World()), Read(s, left))
      ensures old(Inv(World())) ==> Inv(World())
      ensures old(s.Conserves()) ==> s.Conserves()
      ensures s.valid && r.Ok? ==> s.taken == old(s.taken) + r.value
      ensures s.valid && r.Ok? ==> old(s.Pending()) == r.value + s.Pending()
      ensures s.valid && old(s.Met()).Err? ==> r == Err(ReadFailed(old(s.Met()).error))
      ensures s.valid && old(s.Met()) == Ok(None) ==> r == Ok(Given(old(s.execRes)))
      ensures s.valid && old(s.Met()).Ok? && old(s.Met()).value.Some? ==>
                var f := old(s.Met()).value.value;
                if f.fails.Some? && !(0 < n < f.rows) then r == Err(ReadFailed(f.fails.value))
                else r.Ok? && |r.value| == |Given(old(s.execRes))| + (if 0 < n < f.rows then n else f.rows)
      ensures !s.valid ==> r == Err(ConnectionLost)
      ensures disconnect <==> s.valid && r == Err(ReadFailed(ResultsFailed)) && s.context.server.cancelRet == Fail
    {
      hide Valid, WellFormed, World, States, UnreadBut, ValidBut, StatementOk, Inv, Step, Server.Valid, Command.Synced;
      hide Statement.Pending, Statement.Unread, Statement.Conserves, Statement.Met, Answer, Lifted, Less, SkipSucceed;
      ghost var w := World();
      Appears(s);
      if s.valid {
        Detached(s.context);
      }
      r, disconnect := s.FetchRows(n);
      left := s.valid && s.context.server.active;
      if s.valid {
        Attached(s);
      }
      ReadIs(w, s, left);
    }
  }

  /** What asking for the first result of a command comes to. */
  function FirstAnswer(script: seq<Reply>): Result<(), ConnError> {
    if MetIn(script, NO_CACHE).Err? then Err(OutputFailed(MetIn(script, NO_CACHE).error)) else Ok(())
  }

  // -------------------------------------------------------- the retry protocol

  /** The attempt ends with the connection made anew, outside a transaction. */
  predicate Retries(a: Attempt) {
    Loses(a) && !a.inTransaction && a.init.InitOk?
  }

  /** The attempt ends with the connection lost. */
  predicate Loses(a: Attempt) {
    a.sendRet != Success && !a.up
  }

  /** Reconnecting leaves the connection marked as aborted. */
  predicate Breaks(a: Attempt) {
    a.init.InitFails? || (a.init.InitOk? && a.inTransaction)
  }

  /** The last of the attempts made does. */
  predicate Aborts(env: seq<Attempt>) {
    env != [] && if Retries(env[0]) then Aborts(env[1..]) else Loses(env[0]) && Breaks(env[0])
  }

  lemma {:induction false} NoAbortWhenSent(env: seq<Attempt>)
    ensures Outcome(env).Ok? ==> !Aborts(env)
  {
    if env != [] && Retries(env[0]) {
      NoAbortWhenSent(env[1..]);
    }
  }

  function AttemptLog(a: Attempt): seq<Event> {
    if a.sendRet == Success then [SendTried(true)]
    else if a.up then [SendTried(false)]
    else [SendTried(false), Reconnected(a.inTransaction, a.init.InitOk?)]
  }

  function SetupLog(env: seq<Attempt>): seq<Event> {
    if env == [] then []
    else AttemptLog(env[0]) + (if Retries(env[0]) then SetupLog(env[1..]) else [])
  }

  function Outcome(env: seq<Attempt>): Result<Attempt, ConnError> {
    if env == [] then Err(StillRetrying)
    else if env[0].sendRet == Success then Ok(env[0])
    else if Retries(env[0]) then Outcome(env[1..])
    else Err(if !env[0].up && env[0].init.InitThrows? then ReconnectThrew else SendFailed)
  }

  /** What the first attempt leaves to the others. */
  lemma Unrolled(env: seq<Attempt>, log: seq<Event>)
    requires env != []
    ensures log + SetupLog(env)
         == (log + AttemptLog(env[0])) + (if Retries(env[0]) then SetupLog(env[1..]) else [])
    ensures !Retries(env[0]) ==> log + SetupLog(env) == log + AttemptLog(env[0])
    ensures if Retries(env[0]) then Outcome(env) == Outcome(env[1..]) else Outcome(env) == Outcome([env[0]])
  {
    assert env[0] == [env[0]][0];
  }

  lemma {:induction false} OutcomeAmong(env: seq<Attempt>)
    ensures Outcome(env).Ok? ==> Outcome(env).value in env
  {
    if env != [] && Retries(env[0]) {
      OutcomeAmong(env[1..]);
    }
  }

  /** The connection is lost in the execution of a statement that has a command,
      the new command is sent all the same, and something of it is left. */
  predicate LossLeaves(env: seq<Attempt>, executed: bool) {
    && env != [] && Loses(env[0]) && executed && Outcome(env).Ok?
    && LeavesUnread(Outcome(env).value.script, Outcome(env).value.cancelRet)
  }

  /** Only the registered statement is displaced. */
  lemma ValidAfterLoss<S, C>(w: World<S, C>, lost: Option<bool>, s: S)
    requires s in w.statements
    ensures var w' := AfterLoss(w, lost);
            && s in w'.statements && w'.statements[s].context == w.statements[s].context
            && w'.statements[s].valid
               == (w.statements[s].valid && !(lost.Some? && !DisplacementThrows(w) && w.registered == Some(s)))
  {
  }

  /** A second failed send changes nothing more. */
  lemma LossSettles<S, C>(w: World<S, C>, lost: Option<bool>)
    ensures NotSent(NotSent(w)) == NotSent(w)
    ensures lost.Some? ==> NotSent(AfterLoss(w, lost)) == AfterLoss(w, lost) == Dropped(NotSent(w), lost.value)
  {
  }

  lemma NothingTried(log: seq<Event>)
    ensures log + SetupLog([]) == log && Outcome([]) == Err(StillRetrying) && !Aborts([])
  {
  }

  lemma SentAgain<S, C>(w: World<S, C>, c: C)
    requires c !in w.unread
    ensures Sent(NotSent(w), c, true) == Sent(w, c, true)
  {
    assert w.unread - {c} == w.unread;
  }

  lemma SentAfterLoss<S, C>(w: World<S, C>, lost: Option<bool>, c: C)
    requires w.registered.None? && c !in w.unread
    ensures Sent(AfterLoss(w, lost), c, true) == Sent(w, c, true)
  {
    assert w.unread - {c} == w.unread;
  }

  /** Without a registered statement, a loss is a failed send. */
  lemma LossOfNone<S, C>(w: World<S, C>, lost: Option<bool>)
    requires w.registered.None?
    ensures NotSent(AfterLoss(w, lost)) == NotSent(w)
  {
  }

  predicate CancelsWork(env: seq<Attempt>) {
    forall i | 0 <= i < |env| :: env[i].cancelRet == Success
  }

  /** Whatever the attempts meet, a command is sent again only right after a
      successful reconnection outside a transaction. */
  lemma {:induction false} ResentOnlyAfterReconnection(env: seq<Attempt>)
    ensures var log := SetupLog(env);
            && (log != [] ==> log[0].SendTried?)
            && (forall i | 0 < i < |log| && log[i].SendTried? :: log[i - 1] == Reconnected(false, true))
    decreases |env|
  {
    if env != [] && Retries(env[0]) {
      ResentOnlyAfterReconnection(env[1..]);
      var rest := SetupLog(env[1..]);
      assert SetupLog(env) == [SendTried(false), Reconnected(false, true)] + rest;
    }
  }

  /** A send succeeds at most once, as the last event. */
  lemma {:induction false} SentOnce(env: seq<Attempt>)
    ensures var log := SetupLog(env);
            && (Outcome(env).Ok? <==> log != [] && log[|log| - 1] == SendTried(true))
            && (forall i | 0 <= i < |log| - 1 :: log[i] != SendTried(true))
    decreases |env|
  {
    if env != [] && Retries(env[0]) {
      SentOnce(env[1..]);
      var rest := SetupLog(env[1..]);
      assert SetupLog(env) == [SendTried(false), Reconnected(false, true)] + rest;
    }
  }

  /** Sending a command and reading it are the steps of the transition system. */
  lemma ExecuteIs<S, C>(w: World<S, C>, s: S, c: C, cancelOld: bool, lost: Option<bool>, left: bool)
    requires s in w.statements && w.statements[s].valid && !(lost.Some? && DisplacementThrows(w))
    ensures Step(w, Execute(s, c, cancelOld, lost, true, left))
         == Adopted(Sent(AfterLoss(w.(unread := Cancelled(w.unread, w.statements[s].context, cancelOld)), lost), c, true),
                    s, c, true, left)
  {
  }

  lemma DirectIs<S, C>(w: World<S, C>, c: C, cancelOld: bool, left: bool)
    requires !DisplacementThrows(w)
    ensures Step(w, Direct(c, cancelOld, true, left, false))
         == Reaped(Sent(Displaced(w, cancelOld).(registered := None), c, true), c, left)
  {
  }

  /** The failed sends above are steps of the transition system, too. */
  lemma NotSentIsStep<S, C>(w: World<S, C>, s: S, c: C, cancelOld: bool, lost: Option<bool>, left: bool, cancelNew: bool)
    requires c !in w.unread
    ensures !DisplacementThrows(w) ==>
              Step(w, Direct(c, cancelOld, false, left, cancelNew)) == NotSent(Displaced(w, cancelOld).(registered := None))
    ensures s in w.statements && w.statements[s].valid ==>
              Step(w, Execute(s, c, cancelOld, lost, false, left))
              == NotSent(AfterLoss(w.(unread := Cancelled(w.unread, w.statements[s].context, cancelOld)), lost))
  {
    var d := Displaced(w, cancelOld);
    assert d.unread - {c} == d.unread;
    if s in w.statements {
      var u := w.(unread := Cancelled(w.unread, w.statements[s].context, cancelOld));
      var l := AfterLoss(u, lost);
      assert l.unread - {c} == l.unread;
      LossSettles(u, lost);
    }
  }

  // ------------------------------------- safety, when the cancels needed succeed

  lemma SafeCreate(w: World<Statement, Command>, s: Statement, cancelOld: bool)
    requires Inv(w) && s !in w.statements && !DisplacementThrows(w) && (w.registered.None? || cancelOld)
    ensures Inv(Step(w, Create(s, cancelOld)))
  {
    OnlyRegisteredUnread(w);
    StepKeepsInvIff(w, Create(s, cancelOld));
  }

  lemma SafeDirect(w: World<Statement, Command>, c: Option<Command>, cancelOld: bool)
    requires Inv(w) && !DisplacementThrows(w) && (w.registered.None? || cancelOld)
    ensures c.None? ==> Inv(NotSent(Displaced(w, cancelOld).(registered := None)))
    ensures c.Some? && c.value !in w.unread ==> Inv(Step(w, Direct(c.value, cancelOld, true, false, false)))
  {
    OnlyRegisteredUnread(w);
    if c.Some? && c.value !in w.unread {
      StepKeepsInvIff(w, Direct(c.value, cancelOld, true, false, false));
    }
  }

  /** The Read step, and that it is always good. */
  lemma ReadIs(w: World<Statement, Command>, s: Statement, left: bool)
    requires s in w.statements
    ensures var st := w.statements[s];
            Step(w, Read(s, left))
            == if st.valid && st.context.Some? && !left then w.(unread := w.unread - {st.context.value}) else w
    ensures Inv(w) ==> Inv(Step(w, Read(s, left)))
  {
    if Inv(w) {
      StepKeepsInvIff(w, Read(s, left));
    }
  }

  lemma SafeExecute(w: World<Statement, Command>, s: Statement, c: Option<Command>, lost: Option<bool>, left: bool)
    requires Inv(w) && s in w.statements && w.statements[s].valid
    ensures c.None? ==>
              Inv(NotSent(AfterLoss(w.(unread := Cancelled(w.unread, w.statements[s].context, true)), lost)))
    ensures c.Some? && c.value !in w.unread && (lost.Some? && Executed(w, s) ==> !left) ==>
              Inv(Step(w, Execute(s, c.value, true, lost, true, left)))
  {
    OnlyRegisteredUnread(w);
    if c.Some? && c.value !in w.unread {
      StepKeepsInvIff(w, Execute(s, c.value, true, lost, true, left));
    }
  }
}
