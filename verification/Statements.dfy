/**
 The statement cursor (`class Statement`, src/statement.h and
 src/statement.cpp): a command being read row by row, with one row in hand.
 */
module Statements {
  import opened Wrappers
  import opened Values
  import opened Replies
  import opened Replay
  import opened Commands
  import opened CursorRows

  datatype StatementError = ConnectionLost | ReadFailed(error: Error)

  lemma StreamFits(cmd: Command)
    requires cmd.Synced()
    ensures FitsStream(cmd.CacheState(), cmd.Remaining())
  {
  }

  /** A row that may be absent, as the rows it stands for. */
  function Given(h: Option<Value>): seq<Value> {
    if h.Some? then [h.value] else []
  }

  /** The caller of a statement sees a failed read as an error of its own. */
  function Lifted(r: Result<bool, Error>): Result<bool, StatementError> {
    if r.Err? then Err(ReadFailed(r.error)) else Ok(r.value)
  }

  /** The loop of `fetch_rows(n)` from its second round on, with `listed` rows in
      the list, one in hand and `now` left of the set that had `ahead`. */
  predicate Counted(n: int, rows: int, listed: nat, inHand: nat, ahead: nat, now: nat) {
    listed + 1 + now == inHand + ahead && (n > 0 ==> listed == inHand + (n - rows) - 1)
  }

  lemma Assoc(a: seq<Value>, b: seq<Value>, c: seq<Value>)
    ensures a + (b + c) == (a + b) + c
  {
  }

  class Statement {
    var execRes: Option<Value>
    var context: Command?
    var valid: bool

    /** All rows handed out, or taken by a fetch that then failed, since the
        statement was executed; the rows it had then. */
    ghost var taken: seq<Value>
    ghost var origin: seq<Value>

    ghost function Footprint(): set<object>
      reads this`context
    {
      if context == null then {} else {context, context.server}
    }

    /** What a read may change: nothing if the statement was invalidated. */
    ghost function ReadFootprint(): set<object>
      reads this`context, this`valid
    {
      if valid then Footprint() else {}
    }

    /** The rows still to come: the one in hand and those at the server. */
    ghost function Pending(): seq<Value>
      requires context != null && context.Synced()
      reads this`context, this`execRes, if context == null then {} else {context, context.server}
    {
      Given(execRes) + Unread()
    }

    ghost function Unread(): seq<Value>
      requires context != null && context.Synced()
      reads this`context, if context == null then {} else {context, context.server}
    {
      StreamFits(context);
      if context.lastRes.RES_ERROR? || context.lastRes.RES_CANCELED? then []
      else RowsOf(context.Remaining(), context.CacheState())
    }

    /** No row is lost, repeated or reordered, whether reads succeed or fail. */
    ghost predicate Conserves()
      reads this`context, this`execRes, this`taken, this`origin, Footprint()
    {
      context != null && context.Synced() && taken + Pending() == origin
    }

    /** What reading meets next: the set being read, or what the next result
        comes to. In all other states there is nothing to be had. */
    ghost function Met(): Result<Option<Front>, Error>
      reads this`context, if context == null then {} else {context, context.server}
    {
      if context == null then Ok(None)
      else if context.lastRes == RES_ROW || context.lastRes == RES_PARAM then
        Ok(if context.server.open.Some? then Some(FrontOf(context.server.open.value, context.CacheState())) else None)
      else if context.lastRes.Reads() then MetIn(context.server.pending, context.CacheState())
      else Ok(None)
    }

    constructor ()
      ensures valid && execRes == None && context == null
      ensures taken == [] && origin == []
    {
      execRes, context, valid := None, null, true;
      taken, origin := [], [];
    }

    function CheckValid(): Result<(), StatementError>
      reads this`valid
    {
      if valid then Ok(()) else Err(ConnectionLost)
    }

    /** `context->fetch_row`: puts the next row of the open set in hand. */
    method TakeRow() returns (r: Result<bool, Error>)
      requires context != null && context.Synced() && execRes.None?
      requires context.lastRes == RES_ROW || context.lastRes == RES_PARAM
      modifies this`execRes
      modifies context`lastRes, context`dirty, context`datafmt, context`outBuffers, context.server
      ensures context.Synced() && context.server.active == old(context.server.active)
      ensures Pending() == old(Pending()) && (r.Ok? ==> r.value == execRes.Some?)
      ensures old(Met()).Ok? && old(Met()).value.Some? && r == FirstFetch(old(Met()).value.value)
      ensures r == Ok(true) ==> Met() == Ok(Some(Less(old(Met()).value.value)))
      ensures r.Err? ==> execRes.None? && r.error != ResultsFailed
    {
      hide Server.Valid, Command.Synced, Unread, Met;
      var got := FetchNext();
      if got.Err? {
        return Err(got.error);
      }
      execRes := got.value;
      return Ok(execRes.Some?);
    }

    method FetchNext() returns (r: Result<Option<Value>, Error>)
      requires context != null && context.Synced()
      requires context.lastRes == RES_ROW || context.lastRes == RES_PARAM
      modifies context`lastRes, context`dirty, context`datafmt, context`outBuffers, context.server
      ensures context.Synced() && context.server.active == old(context.server.active)
      ensures old(Unread()) == (if r.Ok? then Given(r.value) else []) + Unread()
      ensures old(Met()).Ok? && old(Met()).value.Some?
      ensures FirstFetch(old(Met()).value.value) == if r.Err? then Err(r.error) else Ok(r.value.Some?)
      ensures r.Err? ==> r.error != ResultsFailed
      ensures r.Ok? && r.value.Some? ==> Met() == Ok(Some(Less(old(Met()).value.value)))
    {
      hide Server.Valid, ValidStream, RowsOf, MetIn;
      StreamFits(context);
      ghost var s, c := context.server.open.value, context.CacheState();
      ghost var rest := context.server.pending;
      assert context.Remaining() == [Rows(s)] + rest;
      if Ensured(c, s).Ok? && s.rows != [] {
        FirstRow(s, rest, c);
      } else if Ensured(c, s).Ok? && s.end.EndOfData? {
        NoRow(s, rest, c);
      } else {
        NoWayOn(s, rest, c);
      }
      r := context.FetchRow([]);
      StreamFits(context);
      if r.Ok? {
        if r.value.Some? {
          assert context.Remaining() == [Rows(s.(rows := s.rows[1..]))] + rest;
        } else {
          assert context.Remaining() == rest;
          assert Unread() == Given(None) + Unread();
        }
      } else {
        assert context.Remaining() == [Rows(s)] + rest;
      }
    }

    /** What `next` meets, by the state and the replies. */
    lemma MetIs(inHand: bool)
      requires context != null && context.Synced()
      ensures var answer := Lifted(Answer(Met(), inHand));
              && (!context.lastRes.Reads() && context.lastRes != RES_ROW && context.lastRes != RES_PARAM ==>
                    answer == Ok(inHand))
              && (context.lastRes == RES_ROW || context.lastRes == RES_PARAM ==>
                    var s := context.server.open.value;
                    answer == if inHand then Ok(true)
                              else if (context.dirty || context.datafmt == []) && s.desc == []
                                then Err(ReadFailed(NoColumns))
                              else if s.rows != [] then Ok(true)
                              else if s.end.EndOfData? then Ok(false)
                              else Err(ReadFailed(s.end.error)))
              && (context.lastRes.Reads() ==>
                    var rest := SkipSucceed(context.server.pending);
                    && (rest == [] ==> answer == Ok(inHand))
                    && (rest != [] && rest[0].Done? ==>
                          answer == if rest[0].count.Some? then Ok(inHand) else Err(ReadFailed(NoRowCount)))
                    && (rest != [] && rest[0].Failing? ==> answer == Err(ReadFailed(rest[0].error)))
                    && (rest != [] && rest[0].Rows? ==>
                          var s := rest[0].resultSet;
                          answer == if s.kind == StatusSet then Ok(inHand)
                                    else if inHand then Ok(true)
                                    else if (context.dirty || context.datafmt == []) && s.desc == []
                                      then Err(ReadFailed(NoColumns))
                                    else if s.rows != [] then Ok(true)
                                    else if s.end.EndOfData? then Ok(false)
                                    else Err(ReadFailed(s.end.error))))
    {
      hide Server.Valid;
    }

    /** `next`: keeps a row in hand if there is one, otherwise takes the next
        row of the current result set. It does not step over a set's end: the
        call that meets the end is false, and the one after it asks for the
        next result. A status set is never left again. */
    method Next() returns (r: Result<bool, StatementError>, disconnect: bool)
      requires valid ==> context != null && context.Synced()
      modifies this`execRes, ReadFootprint()
      ensures disconnect <==> valid && r == Err(ReadFailed(ResultsFailed)) && context.server.cancelRet == Fail
      ensures !valid ==> r == Err(ConnectionLost)
      ensures valid ==> context.Synced() && context.handle == old(context.handle)
      ensures valid ==> (context.server.active ==> old(context.server.active))
      ensures old(Conserves()) ==> Conserves()
      ensures valid ==> Pending() == old(Pending())
      ensures r.Ok? ==> r.value == execRes.Some?
      ensures r.Ok? && old(execRes).Some? ==> execRes == old(execRes)
      ensures r.Err? ==> execRes == old(execRes)
      ensures valid ==> r == Lifted(Answer(old(Met()), old(execRes).Some?))
      ensures valid && r == Ok(true) && old(Met()).value.Some? ==>
                Met() == if old(execRes).Some? then old(Met()) else Ok(Some(Less(old(Met()).value.value)))
      ensures valid && !old(context.lastRes).Reads() && !old(context.lastRes).RES_ROW? && !old(context.lastRes).RES_PARAM? ==>
                r == Ok(old(execRes).Some?)
      ensures valid && (old(context.lastRes) == RES_ROW || old(context.lastRes) == RES_PARAM) ==>
                var s := old(context.server.open.value);
                r == if old(execRes).Some? then Ok(true)
                     else if old(context.dirty || context.datafmt == []) && s.desc == []
                       then Err(ReadFailed(NoColumns))
                     else if s.rows != [] then Ok(true)
                     else if s.end.EndOfData? then Ok(false)
                     else Err(ReadFailed(s.end.error))
      ensures valid && old(context.lastRes).Reads() ==>
                var rest := SkipSucceed(old(context.server.pending));
                && (rest == [] ==> r == Ok(old(execRes).Some?))
                && (rest != [] && rest[0].Done? ==>
                      r == if rest[0].count.Some? then Ok(old(execRes).Some?) else Err(ReadFailed(NoRowCount)))
                && (rest != [] && rest[0].Failing? ==> r == Err(ReadFailed(rest[0].error)))
                && (rest != [] && rest[0].Rows? ==>
                      var s := rest[0].resultSet;
                      r == if s.kind == StatusSet then Ok(old(execRes).Some?)
                           else if old(execRes).Some? then Ok(true)
                           else if old(context.dirty || context.datafmt == []) && s.desc == []
                             then Err(ReadFailed(NoColumns))
                           else if s.rows != [] then Ok(true)
                           else if s.end.EndOfData? then Ok(false)
                           else Err(ReadFailed(s.end.error)))
      ensures valid && old(context.lastRes).RES_STATUS? ==> r == Ok(execRes.Some?) && context.lastRes.RES_STATUS?
    {
      hide Met, Answer, Lifted, SkipSucceed, Server.Valid, Unread;
      if CheckValid().Err? {
        return Err(CheckValid().error), false;
      }
      MetIs(execRes.Some?);
      r, disconnect := NextRow();
    }

    /** `next` for a statement that may be read. */
    method NextRow() returns (r: Result<bool, StatementError>, disconnect: bool)
      requires context != null && context.Synced()
      modifies this`execRes, context`rowcount
      modifies context`lastRes, context`dirty, context`datafmt, context`outBuffers, context.server
      ensures disconnect <==> r == Err(ReadFailed(ResultsFailed)) && context.server.cancelRet == Fail
      ensures context.Synced() && (context.server.active ==> old(context.server.active))
      ensures Pending() == old(Pending())
      ensures if r.Ok? then r.value == execRes.Some? else execRes == old(execRes)
      ensures old(execRes).Some? ==> execRes == old(execRes)
      ensures r == Lifted(Answer(old(Met()), old(execRes).Some?))
      ensures r == Ok(true) && old(Met()).value.Some? ==>
                Met() == if old(execRes).Some? then old(Met()) else Ok(Some(Less(old(Met()).value.value)))
      ensures old(context.lastRes).RES_STATUS? ==> r == Ok(execRes.Some?) && context.lastRes.RES_STATUS?
    {
      hide Server.Valid, Command.Synced, Unread, Met, Pending;
      var more;
      more, disconnect := Advance();
      if more.Err? {
        return Err(ReadFailed(more.error)), disconnect;
      }
      return Ok(more.value), false;
    }

    /** The reading in `next`. */
    method Advance() returns (r: Result<bool, Error>, disconnect: bool)
      requires context != null && context.Synced()
      modifies this`execRes, context`rowcount
      modifies context`lastRes, context`dirty, context`datafmt, context`outBuffers, context.server
      ensures context.Synced() && (context.server.active ==> old(context.server.active))
      ensures disconnect <==> r == Err(ResultsFailed) && context.server.cancelRet == Fail
      ensures Pending() == old(Pending()) && (r.Ok? ==> r.value == execRes.Some?)
      ensures r.Err? || old(execRes).Some? ==> execRes == old(execRes)
      ensures r == Answer(old(Met()), old(execRes).Some?)
      ensures r == Ok(true) && old(Met()).value.Some? ==>
                Met() == if old(execRes).Some? then old(Met()) else Ok(Some(Less(old(Met()).value.value)))
      ensures old(context.lastRes).RES_STATUS? ==> r.Ok? && context.lastRes.RES_STATUS?
    {
      hide Server.Valid, Command.Synced, Unread, Pending, Met;
      var res;
      res, disconnect := Announce();
      if res.Err? {
        return Err(res.error), disconnect;
      }
      if res.value.RES_ROW? || res.value.RES_PARAM? {
        if execRes.None? {
          r := TakeRow();
          return r, false;
        }
      }
      return Ok(execRes.Some?), false;
    }

    /** The call of `readNextResult` in `exec` and `next`. */
    method Announce() returns (r: Result<ResType, Error>, disconnect: bool)
      requires context != null && context.Synced()
      modifies context`rowcount, context`dirty, context`lastRes, context.server
      ensures context.server.active ==> old(context.server.active)
      ensures context.Synced() && Pending() == old(Pending()) && (r.Ok? ==> context.lastRes == r.value)
      ensures disconnect <==> r == Err(ResultsFailed) && context.server.cancelRet == Fail
      ensures if old(Met()).Err? then r == Err(old(Met()).error)
              else r.Ok? && (r.value == RES_ROW || r.value == RES_PARAM <==> old(Met()).value.Some?)
      ensures r.Ok? && old(Met()).value.Some? ==> Met() == old(Met())
      ensures r.Ok? && old(context.lastRes).Reads() ==>
                var rest := SkipSucceed(old(context.server.pending));
                rest != [] && rest[0].Rows? ==>
                  r.value == ResOf(rest[0].resultSet.kind) && context.server.open == Some(rest[0].resultSet)
      ensures old(context.lastRes).RES_STATUS? ==> r == Ok(RES_STATUS)
      ensures old(context.lastRes).Reads() ==>
                context.server.active == old(LeavesUnread(context.server.pending, context.server.cancelRet))
    {
      StreamFits(context);
      ghost var rs, c := context.Remaining(), context.CacheState();
      SkipSucceedRows(rs, c);
      if context.lastRes.Reads() {
        assert rs == context.server.pending;
      }
      r, disconnect := context.ReadNextResult();
      StreamFits(context);
    }

    /** The end of `exec`: asks for the first result of a new command. A row
        still in hand is kept and comes before the new rows. If the first
        result is a result set, it is open then. */
    method Begin() returns (r: Result<(), Error>, disconnect: bool)
      requires context != null && context.Synced()
      modifies this`taken, this`origin
      modifies context`rowcount, context`dirty, context`lastRes, context.server
      ensures Conserves() && taken == []
      ensures origin == old(Pending())
      ensures disconnect <==> r == Err(ResultsFailed) && context.server.cancelRet == Fail
      ensures r == if old(Met()).Err? then Err(old(Met()).error) else Ok(())
      ensures r.Ok? && old(Met()).value.Some? ==> Met() == old(Met())
      ensures old(context.lastRes).Reads() ==>
                var rest := SkipSucceed(old(context.server.pending));
                && (r == if rest != [] && rest[0].Failing? then Err(rest[0].error)
                         else if rest != [] && rest[0] == Done(None) then Err(NoRowCount)
                         else Ok(()))
                && (rest != [] && rest[0].Rows? ==>
                      context.lastRes == ResOf(rest[0].resultSet.kind) && context.server.open == Some(rest[0].resultSet))
      ensures context.server.active ==> old(context.server.active)
      ensures old(context.lastRes).Reads() ==>
                context.server.active == old(LeavesUnread(context.server.pending, context.server.cancelRet))
    {
      hide Server.Valid, Command.Synced, Unread;
      taken, origin := [], Pending();
      assert [] + Pending() == Pending();
      var res;
      res, disconnect := Announce();
      r := if res.Err? then Err(res.error) else Ok(());
    }

    /** `fetch_row`: hands out the row in hand, if there is one. */
    method FetchRow() returns (r: Option<Value>)
      modifies this`execRes, this`taken
      ensures r == old(execRes) && execRes == None
      ensures taken == old(taken) + Given(r)
      ensures context != null && context.Synced() ==> old(Pending()) == Given(r) + Pending()
      ensures old(Conserves()) ==> Conserves()
    {
      hide Server.Valid, Command.Synced, Unread;
      r := execRes;
      execRes := None;
      if r.Some? {
        taken := taken + [r.value];
      }
    }

    /** One round of `fetch_rows`: a `fetch_row`, whose row goes to the list, and
        the `next` after it. `start` and `due` are what had been taken before the
        list was begun and what was still to come then. */
    method Deliver(reslist: seq<Value>, ghost start: seq<Value>, ghost due: seq<Value>)
      returns (reslist': seq<Value>, more: Result<bool, StatementError>, disconnect: bool)
      requires context != null && context.Synced()
      requires taken == start + reslist && due == reslist + Pending()
      modifies this`execRes, this`taken, context`rowcount
      modifies context`lastRes, context`dirty, context`datafmt, context`outBuffers, context.server
      ensures context.Synced()
      ensures context.server.active ==> old(context.server.active)
      ensures disconnect <==> more == Err(ReadFailed(ResultsFailed)) && context.server.cancelRet == Fail
      ensures reslist' == reslist + Given(old(execRes)) && taken == start + reslist'
      ensures due == reslist' + Pending() && (more.Ok? ==> more.value == execRes.Some?)
      ensures more == Lifted(Answer(old(Met()), false))
      ensures more == Ok(true) ==> old(Met()).value.Some? && Met() == Ok(Some(Less(old(Met()).value.value)))
    {
      hide Server.Valid, Command.Synced, Unread, Pending, Met;
      var h := FetchRow();
      reslist' := reslist + Given(h);
      Assoc(start, reslist, Given(h));
      Assoc(reslist, Given(h), Pending());
      more, disconnect := NextRow();
    }

    /** `fetch_rows`: a do-while loop around `fetch_row` and `next`. What it
        returns is the front of the rows that were still to come. When a read
        fails, the rows taken so far are dropped with the list: they count as
        taken. */
    method FetchRows(n: int) returns (r: Result<seq<Value>, StatementError>, disconnect: bool)
      requires valid ==> context != null && context.Synced()
      modifies this`execRes, this`taken, ReadFootprint()
      ensures disconnect <==> valid && r == Err(ReadFailed(ResultsFailed)) && context.server.cancelRet == Fail
      ensures !valid ==> r == Err(ConnectionLost) && unchanged(this)
      ensures valid ==> context.Synced() && context.handle == old(context.handle)
      ensures valid ==> (context.server.active ==> old(context.server.active))
      ensures old(Conserves()) ==> Conserves()
      ensures valid && r.Ok? ==> taken == old(taken) + r.value
      ensures valid && r.Ok? ==> old(Pending()) == r.value + Pending()
      ensures valid && old(Met()).Err? ==> r == Err(ReadFailed(old(Met()).error))
      ensures valid && old(Met()) == Ok(None) ==> r == Ok(Given(old(execRes)))
      ensures valid && old(Met()).Ok? && old(Met()).value.Some? ==>
                var f := old(Met()).value.value;
                if f.fails.Some? && !(0 < n < f.rows) then r == Err(ReadFailed(f.fails.value))
                else r.Ok? && |r.value| == |Given(old(execRes))| + (if 0 < n < f.rows then n else f.rows)
    {
      disconnect := false;
      if CheckValid().Err? {
        return Err(CheckValid().error), false;
      }
      ghost var out;
      r, disconnect, out := FetchLoop(n, |Given(execRes)|, Met());
      Assoc(old(taken), out, Pending());
    }

    method FetchLoop(n: int, ghost inHand: nat, ghost met: Result<Option<Front>, Error>)
      returns (r: Result<seq<Value>, StatementError>, disconnect: bool, ghost out: seq<Value>)
      requires context != null && context.Synced()
      requires inHand == |Given(execRes)| && met == Met()
      modifies this`execRes, this`taken, context`rowcount
      modifies context`lastRes, context`dirty, context`datafmt, context`outBuffers, context.server
      ensures context.Synced()
      ensures context.server.active ==> old(context.server.active)
      ensures disconnect <==> r == Err(ReadFailed(ResultsFailed)) && context.server.cancelRet == Fail
      ensures taken == old(taken) + out && old(Pending()) == out + Pending() && (r.Ok? ==> r.value == out)
      ensures met.Err? ==> r == Err(ReadFailed(met.error))
      ensures met == Ok(None) ==> r.Ok? && r.value == Given(old(execRes))
      ensures met.Ok? && met.value.Some? ==>
                var f := met.value.value;
                if f.fails.Some? && !(0 < n < f.rows) then r == Err(ReadFailed(f.fails.value))
                else r.Ok? && |r.value| == inHand + (if 0 < n < f.rows then n else f.rows)
    {
      hide Server.Valid, Command.Synced, Unread, Met, Pending;
      disconnect := false;
      var limit, rows := n, n;
      var reslist: seq<Value> := [];
      ghost var first, now, due := true, met, Pending();
      while true
        invariant context.Synced()
        invariant context.server.active ==> old(context.server.active)
        invariant taken == old(taken) + reslist && due == reslist + Pending()
        invariant if first then execRes == old(execRes) && reslist == [] && rows == n else execRes.Some?
        invariant now == Met() && (first ==> now == met)
        invariant !first ==>
                    && met.Ok? && met.value.Some? && now.Ok? && now.value.Some?
                    && now.value.value.fails == met.value.value.fails
                    && Counted(n, rows, |reslist|, inHand, met.value.value.rows, now.value.value.rows)
        invariant if n > 0 then -1 <= rows <= n else rows == n
        decreases first, |due| - |reslist|
      {
        if limit > 0 {
          if rows < 0 {
            break;
          }
          rows := rows - 1;
        }
        var more;
        reslist, more, disconnect := Deliver(reslist, old(taken), due);
        if more.Err? {
          return Err(more.error), disconnect, reslist;
        }
        first, now := false, Met();
        if !more.value {
          break;
        }
      }
      return Ok(reslist), false, reslist;
    }
  }
}
