/**
 One command and the reading of its results (`class command`, src/command.h and
 src/command.cpp), on top of the ct-lib calls of `Server`.
 */
module Commands {
  import opened Wrappers
  import opened Values
  import opened Columns
  import opened Replies
  import opened Replay
  import opened ResultFactory

  datatype ResType =
    | RES_NONE | RES_PARAM | RES_STATUS | RES_ROW | RES_END | RES_DONE | RES_ERROR | RES_RETRY | RES_CANCELED
  {
    /** A result set is waiting to be fetched. */
    predicate Fetchable() {
      RES_PARAM? || RES_STATUS? || RES_ROW?
    }

    /** The states in which the next result may be asked for. */
    predicate Reads() {
      RES_NONE? || RES_DONE? || RES_RETRY?
    }
  }

  function ResOf(kind: SetKind): ResType {
    match kind
    case RowSet => RES_ROW
    case ParamSet => RES_PARAM
    case StatusSet => RES_STATUS
  }

  /** The replies left once leading CS_CMD_SUCCEED replies are skipped. */
  function SkipSucceed(rs: seq<Reply>): seq<Reply> {
    if rs != [] && rs[0].Succeed? then SkipSucceed(rs[1..]) else rs
  }

  lemma {:induction false} SkipSucceedKeeps(rs: seq<Reply>, f: Folding, mode: Mode, ph: seq<string>)
    requires ValidStream(rs) && FitsStream(f.cache, rs)
    ensures ValidStream(SkipSucceed(rs)) && FitsStream(f.cache, SkipSucceed(rs))
    ensures Fold(rs, f, mode, ph) == Fold(SkipSucceed(rs), f, mode, ph)
  {
    if rs != [] && rs[0].Succeed? {
      SkipSucceedKeeps(rs[1..], f, mode, ph);
    }
  }

  class Command {
    const server: Server
    var handle: bool                 // m_cmd is not null
    var rowcount: int
    var lastRes: ResType
    var dirty: bool
    var datafmt: seq<ColDesc>
    var outBuffers: seq<Raw>
    var placeholders: seq<string>    // query->placeholders

    /** What every step of a read keeps: a result set is open at the server
        exactly when the last result says one is to be fetched, and there is
        one buffer per described column. */
    ghost predicate Synced()
      reads this`lastRes, this`outBuffers, this`datafmt, server
    {
      && server.Valid()
      && |outBuffers| == |datafmt|
      && (lastRes.Fetchable() ==> server.open.Some? && lastRes == ResOf(server.open.value.kind))
      && (server.open.Some? ==> lastRes.Fetchable() || lastRes.RES_CANCELED?)
      && (server.open.Some? ==> server.bound == 0 || server.bound == |server.open.value.desc|)
      && (lastRes.Reads() ==> server.active)
      && (lastRes.RES_END? ==> !server.active)
      && (server.open.Some? && server.bound > 0 ==> datafmt == server.open.value.desc)
    }

    ghost function CacheState(): Cache
      reads this`dirty, this`outBuffers, this`datafmt, server`open, server`bound
    {
      Cache(dirty, datafmt, outBuffers, server.open.Some? && server.bound > 0)
    }

    /** Everything the server has still to deliver for this command. */
    ghost function Remaining(): seq<Reply>
      reads server`open, server`pending
    {
      (if server.open.Some? then [Rows(server.open.value)] else []) + server.pending
    }

    constructor (server: Server)
      requires server.Valid() && !server.active
      ensures this.server == server && handle && lastRes == RES_NONE && rowcount == -1
      ensures dirty && datafmt == [] && outBuffers == [] && placeholders == []
    {
      this.server := server;
      handle, rowcount, lastRes := true, -1, RES_NONE;
      dirty, datafmt, outBuffers, placeholders := true, [], [], [];
    }

    /** `ct_cmd_drop`: the handle must not have been dropped before. */
    method DropHandle()
      requires handle
      modifies this`handle
      ensures !handle
    {
      handle := false;
    }

    /** `send` of a command just set up. */
    method Send() returns (ret: CtRet)
      requires handle && server.Valid() && !server.active && lastRes == RES_NONE
      requires outBuffers == [] && datafmt == []
      modifies server
      ensures server.Valid() && ret == server.sendRet
      ensures ret == Success ==> Synced() && server.active && Remaining() == server.script && server.open.None?
      ensures ret != Success ==> !server.active
    {
      ret := server.Send();
    }

    /** `cancelDisconnect` */
    method CancelDisconnect()
      requires handle && server.Valid()
      modifies this`handle, server
      ensures !handle && server.Valid()
      ensures server.active == (old(server.active) && server.cancelRet != Success)
    {
      var _ := server.Cancel();
      DropHandle();
    }

    /** `cancel`: nothing to do for a command that has been read to its end. */
    method Cancel()
      requires handle && Synced()
      modifies this`lastRes, server
      ensures Synced() && (lastRes.RES_END? || lastRes.RES_CANCELED?)
      ensures server.active == (old(server.active) && server.cancelRet != Success)
    {
      if lastRes == RES_END {
        return;
      }
      lastRes := RES_CANCELED;
      var _ := server.Cancel();
    }

    /** `clear`, run when a command is destroyed: drops the handle unless it is
        gone already, after cancelling an unfinished command. False stands for
        the error thrown when that cancel fails, which leaves a destructor and so
        would end the program; here what follows goes on. */
    method Clear(aborted: bool) returns (ok: bool)
      requires server.Valid() && (lastRes.RES_END? ==> !server.active)
      modifies this`handle, server
      ensures server.Valid()
      ensures ok <==> !handle
      ensures ok <==> !old(handle) || server.cancelRet == Success || lastRes.RES_END? || lastRes.RES_CANCELED? || aborted
      ensures server.active
         <==> old(server.active)
              && !(old(handle) && !lastRes.RES_END? && !lastRes.RES_CANCELED? && !aborted && server.cancelRet == Success)
    {
      if !handle {
        return true;
      }
      if lastRes != RES_CANCELED && lastRes != RES_END && !aborted {
        var ret := server.Cancel();
        if ret != Success {
          return false;
        }
      }
      DropHandle();
      return true;
    }

    /** `read_next_result1`: one `ct_results` call. The value returned is
        assigned to `lastRes` by the caller unless the call throws. */
    method ReadNextResult1() returns (r: Result<ResType, Error>, disconnect: bool)
      requires Synced()
      modifies this`rowcount, this`dirty, server
      ensures server.active ==> old(server.active)
      ensures server.Valid()
      ensures !lastRes.Reads() ==>
                r == Ok(lastRes) && !disconnect && CacheState() == old(CacheState()) && rowcount == old(rowcount)
                && Remaining() == old(Remaining()) && server.active == old(server.active)
                && server.open == old(server.open) && server.bound == old(server.bound)
      ensures lastRes.Reads() ==> server.bound == 0
      ensures lastRes.Reads() && old(server.pending) == [] ==>
                r == Ok(RES_END) && !disconnect && !server.active && dirty == old(dirty) && rowcount == old(rowcount)
      ensures lastRes.Reads() && old(server.pending) != [] ==>
                var reply := old(server.pending)[0];
                && (reply.Succeed? ==> r == Ok(RES_RETRY) && !disconnect && server.active && server.open.None?
                                       && server.pending == old(server.pending)[1..]
                                       && dirty == old(dirty) && rowcount == old(rowcount))
                && (reply.Rows? ==> r == Ok(ResOf(reply.resultSet.kind)) && !disconnect
                                    && server.active && server.open == Some(reply.resultSet)
                                    && server.pending == old(server.pending)[1..]
                                    && dirty == old(dirty) && rowcount == old(rowcount))
                && (reply.Done? && reply.count.Some? ==>
                      r == Ok(RES_DONE) && !disconnect && server.active && server.open.None?
                      && server.pending == old(server.pending)[1..]
                      && dirty && rowcount == reply.count.value)
                && (reply.Done? && reply.count.None? ==>
                      r == Err(NoRowCount) && !disconnect && server.active && server.open.None?
                      && server.pending == old(server.pending)[1..]
                      && dirty == old(dirty) && rowcount == -1)
                && (reply.Failing? ==>
                      r == Err(reply.error) && server.open.None? && dirty == old(dirty)
                      && (disconnect <==> reply.error.ResultsFailed? && server.cancelRet == Fail)
                      && (reply.error.ResultsFailed? ==> server.active == (server.cancelRet != Success))
                      && (!reply.error.ResultsFailed? ==> server.active && server.pending == old(server.pending)[1..]))
    {
      disconnect := false;
      match lastRes {
        case RES_DONE =>
        case RES_NONE =>
        case RES_RETRY =>
        case _ =>
          return Ok(lastRes), false;
      }
      var err := server.Results();
      if err.EndResults? {
        return Ok(RES_END), false;
      }
      match err.reply {
        case Failing(e) =>
          if e.ResultsFailed? {
            var cancel := server.Cancel();
            disconnect := cancel == Fail;
          }
          return Err(e), disconnect;
        case Done(count) =>
          rowcount := -1;
          if count.None? {
            return Err(NoRowCount), false;
          }
          rowcount := count.value;
          dirty := true;
          return Ok(RES_DONE), false;
        case Succeed =>
          return Ok(RES_RETRY), false;
        case Rows(s) =>
          return Ok(ResOf(s.kind)), false;
      }
    }

    /** `read_next_result`: skips commands without output. The result is
        sticky: it is returned again until it has been dealt with. After
        CS_FAIL the state is an error for good; any other failure throws, the
        state stays one in which the next result may be asked for, and what
        comes behind the failed reply can still be read. */
    method ReadNextResult() returns (r: Result<ResType, Error>, disconnect: bool)
      requires Synced()
      modifies this`rowcount, this`dirty, this`lastRes, server
      ensures lastRes.RES_CANCELED? ==> old(lastRes).RES_CANCELED?
      ensures Synced()
      ensures server.active ==> old(server.active)
      ensures disconnect ==> r.Err?
      ensures !old(lastRes).Reads() ==>
                r == Ok(old(lastRes)) && lastRes == old(lastRes) && CacheState() == old(CacheState())
                && rowcount == old(rowcount) && Remaining() == old(Remaining()) && server.active == old(server.active)
      ensures r.Ok? ==> lastRes == r.value
      ensures old(lastRes).Reads() && r.Ok? ==> r.value.RES_END? || r.value.RES_DONE? || r.value.Fetchable()
      ensures old(lastRes).Reads() && r.Ok? ==>
                var rest := SkipSucceed(old(server.pending));
                && (r.value.RES_END? ==> rest == [] && !server.active && CacheState() == old(CacheState())
                                         && rowcount == old(rowcount))
                && (r.value.RES_DONE? ==>
                      rest != [] && rest[0] == Done(Some(rowcount)) && Remaining() == rest[1..] && server.active
                      && CacheState() == old(CacheState()).(dirty := true))
                && (r.value.Fetchable() ==>
                      rest != [] && rest[0].Rows? && r.value == ResOf(rest[0].resultSet.kind)
                      && Remaining() == rest && server.active && server.bound == 0
                      && CacheState() == old(CacheState()) && server.open == Some(rest[0].resultSet)
                      && rowcount == old(rowcount))
      ensures old(lastRes).Reads() && r.Err? ==>
                var rest := SkipSucceed(old(server.pending));
                && rest != []
                && ((rest[0].Failing? && rest[0].error == r.error) || (rest[0] == Done(None) && r.error == NoRowCount))
                && (disconnect <==> rest[0] == Failing(ResultsFailed) && server.cancelRet == Fail)
                && (rest[0] == Failing(ResultsFailed) ==>
                      lastRes == RES_ERROR && server.active == (server.cancelRet != Success))
                && (rest[0] != Failing(ResultsFailed) ==>
                      && lastRes == (if old(server.pending)[0].Succeed? then RES_RETRY else old(lastRes))
                      && Remaining() == rest[1..] && server.active && CacheState() == old(CacheState()))
    {
      hide ValidStream;
      ghost var rest, skipped := SkipSucceed(server.pending), false;
      while true
        invariant server.Valid() && Synced()
        invariant lastRes == if skipped then RES_RETRY else old(lastRes)
        invariant skipped ==> old(lastRes).Reads() && old(server.pending) != [] && old(server.pending)[0].Succeed?
        invariant !skipped ==> server.pending == old(server.pending)
        invariant CacheState() == old(CacheState()) && rowcount == old(rowcount)
        invariant lastRes.Reads() ==> SkipSucceed(server.pending) == rest
        invariant Remaining() == old(Remaining()) || lastRes.Reads()
        invariant server.active == old(server.active)
        decreases |server.pending|
      {
        r, disconnect := ReadNextResult1();
        if r.Err? {
          if r.error == ResultsFailed {
            lastRes := RES_ERROR;   // raised on the sink, not thrown
          }
          return;
        }
        lastRes := r.value;
        if lastRes != RES_RETRY {
          return;
        }
        skipped := true;
      }
    }

    /** `fetch_row_into_buffers`: one `ct_fetch`; true if a row was fetched. */
    method FetchRowIntoBuffers() returns (r: Result<bool, Error>)
      requires Synced() && lastRes.Fetchable()
      modifies this`lastRes, this`outBuffers, server
      ensures !lastRes.RES_CANCELED?
      ensures Synced() && server.pending == old(server.pending) && server.active == old(server.active)
      ensures old(server.open.value.rows) != [] ==>
                && r == Ok(true) && lastRes == old(lastRes)
                && server.open == Some(old(server.open.value).(rows := old(server.open.value.rows)[1..]))
                && CacheState() == AfterRows(old(CacheState()), old(server.open.value.rows)[..1])
      ensures old(server.open.value.rows) == [] && old(server.open.value.end).EndOfData? ==>
                r == Ok(false) && lastRes == RES_NONE && server.open.None?
                && CacheState() == old(CacheState()).(bound := false)
      ensures old(server.open.value.rows) == [] && old(server.open.value.end).FetchFails? ==>
                r == Err(old(server.open.value.end.error)) && lastRes == old(lastRes)
                && server.open == old(server.open) && CacheState() == old(CacheState())
    {
      var err, stored := server.Fetch();
      match err {
        case Row =>
          if stored.Some? {
            outBuffers := stored.value;
          }
          return Ok(true);
        case EndData =>
          lastRes := RES_NONE;
          return Ok(false);
        case Failed(e) =>
          return Err(e);
      }
    }

    /** `retr_colinfo`: describes the columns of the open set and binds a fresh
        buffer to each. */
    method RetrColinfo() returns (r: Result<(), Error>)
      requires Synced() && lastRes.Fetchable()
      modifies this`dirty, this`datafmt, this`outBuffers, server`bound
      ensures Synced()
      ensures r.Err? <==> Retrieved(server.open.value).Err?
      ensures r.Err? ==> r.error == NoColumns && CacheState() == old(CacheState())
      ensures r.Ok? ==> Retrieved(server.open.value) == Ok(CacheState())
    {
      ghost var desc := server.open.value.desc;
      var columns := |server.open.value.desc|;
      if columns <= 0 {
        return Err(NoColumns);
      }
      datafmt := [];
      dirty := true;
      for i := 0 to columns
        invariant datafmt == desc[..i]
        modifies this`datafmt
      {
        datafmt := datafmt + [server.open.value.desc[i]];
      }
      assert desc[..columns] == desc;
      outBuffers := [];
      server.Unbind();
      for i := 0 to columns
        invariant server.Valid() && server.bound == i
        invariant outBuffers == Blanks(i)
        modifies this`outBuffers, server`bound
      {
        outBuffers := outBuffers + [[]];
        server.Bind();
      }
      dirty := false;
      return Ok(());
    }

    /** `ensure_colinfo`: only a dirty or empty description is fetched again. */
    method EnsureColinfo() returns (r: Result<(), Error>)
      requires Synced() && lastRes.Fetchable()
      modifies this`dirty, this`datafmt, this`outBuffers, server`bound
      ensures Synced()
      ensures r.Err? <==> Ensured(old(CacheState()), server.open.value).Err?
      ensures r.Err? ==> r.error == NoColumns && CacheState() == old(CacheState())
      ensures r.Ok? ==> Ensured(old(CacheState()), server.open.value) == Ok(CacheState())
    {
      if !(dirty || datafmt == []) {
        return Ok(());
      }
      r := RetrColinfo();
    }

    /** `fetch_row`: the next row of the open set as a hash, if there is one. */
    method FetchRow(ph: seq<string>) returns (r: Result<Option<Value>, Error>)
      requires Synced() && lastRes.Fetchable()
      modifies this`lastRes, this`dirty, this`datafmt, this`outBuffers, server
      ensures Synced() && server.pending == old(server.pending) && server.active == old(server.active)
      ensures var s := old(server.open.value);
              var c := Ensured(old(CacheState()), s);
              if c.Err? then
                r == Err(c.error) && lastRes == old(lastRes) && server.open == old(server.open)
                && CacheState() == old(CacheState())
              else if s.rows != [] then
                && |Seen(c.value, s.rows)[0]| == |c.value.fmt|
                && r == Ok(Some(RowHash(c.value.fmt, ph, Seen(c.value, s.rows)[0])))
                && lastRes == old(lastRes)
                && server.open == Some(s.(rows := s.rows[1..]))
                && CacheState() == AfterRows(c.value, s.rows[..1])
              else if s.end.EndOfData? then
                r == Ok(None) && lastRes == RES_NONE && server.open.None? && CacheState() == c.value.(bound := false)
              else
                r == Err(s.end.error) && lastRes == old(lastRes) && server.open == old(server.open)
                && CacheState() == c.value
    {
      var ok := EnsureColinfo();
      if ok.Err? {
        return Err(ok.error);
      }
      var got := FetchRowIntoBuffers();
      if got.Err? {
        return Err(got.error);
      }
      if !got.value {
        return Ok(None);
      }
      var h := OutputBuffersToHash(datafmt, ph, outBuffers);
      return Ok(Some(h));
    }

    /** `k` rows of the set have been fetched since the cache was `c`. */
    ghost predicate Reading(s: ResultSet, c: Cache, k: nat)
      reads this, server
    {
      && Synced() && lastRes.Fetchable() && k <= |s.rows| && s.Valid() && Fits(c, s) && c.fmt != []
      && server.open == Some(s.(rows := s.rows[k..]))
      && CacheState() == AfterRows(c, s.rows[..k])
    }

    /** The set has been fetched to its end. */
    ghost predicate DoneReading(s: ResultSet, c: Cache)
      reads this, server
    {
      Synced() && lastRes == RES_NONE && server.open.None? && CacheState() == Drained(c, s)
    }

    /** One step of a fetching loop. */
    method FetchNth(ghost s: ResultSet, ghost c: Cache, ghost k: nat) returns (r: Result<bool, Error>)
      requires Reading(s, c, k)
      modifies this`lastRes, this`outBuffers, server
      ensures !lastRes.RES_CANCELED?
      ensures Synced() && server.pending == old(server.pending) && server.active == old(server.active)
      ensures r == Ok(true) <==> k < |s.rows|
      ensures r == Ok(true) ==> Reading(s, c, k + 1) && lastRes == old(lastRes) && outBuffers == Seen(c, s.rows)[k]
      ensures r == Ok(false) ==> s.end == EndOfData && DoneReading(s, c)
      ensures r.Err? ==> s.end.FetchFails? && s.end.error == r.error
    {
      if k < |s.rows| {
        AfterNextRow(c, s.rows, k);
        assert s.rows[k..][1..] == s.rows[k + 1..];
      } else {
        assert s.rows[..k] == s.rows;
      }
      r := FetchRowIntoBuffers();
    }

    /** The start of every reading method. */
    method StartReading() returns (r: Result<(), Error>)
      requires Synced() && lastRes.Fetchable()
      modifies this`dirty, this`datafmt, this`outBuffers, server`bound
      ensures Synced()
      ensures var s := server.open.value;
              var c := Ensured(old(CacheState()), s);
              if c.Err? then r == Err(c.error) else r.Ok? && Reading(s, c.value, 0) && datafmt == c.value.fmt
    {
      r := EnsureColinfo();
      assert server.open.value.rows[0..] == server.open.value.rows;
    }

    /** What `read_rows` holds after adding `vs`: nothing, a row, or a list. */
    ghost predicate Holds(rv: Value, l: Option<seq<Value>>, vs: seq<Value>) {
      if vs == [] then rv == Nothing && l == None
      else if |vs| == 1 then rv == vs[0] && l == None
      else l == Some(vs)
    }

    /** The body of the loop of `read_rows`. */
    method AddHash(rv: Value, l: Option<seq<Value>>, h: Value, single: bool, ghost vs: seq<Value>)
      returns (rv': Value, l': Option<seq<Value>>, r: Result<(), Error>)
      requires Holds(rv, l, vs) && h != Nothing && Nothing !in vs && (single ==> |vs| < 2)
      ensures r.Ok? ==> Holds(rv', l', vs + [h])
      ensures r == Err(MoreThanOneRow) <==> single && |vs| == 1
      ensures r.Ok? <==> !(single && |vs| == 1)
    {
      rv', l', r := rv, l, Ok(());
      if rv != Nothing || l.Some? {
        if l'.None? {
          l' := Some([rv]);
          assert [rv] == vs;
        }
        if single && |l'.value| == 1 {
          return rv', l', Err(MoreThanOneRow);
        }
        l' := Some(l'.value + [h]);
      } else {
        rv' := h;
      }
    }

    /** `read_rows(ph, xsink, single_row)` */
    method ReadRows(ph: seq<string>, single: bool) returns (r: Result<Value, Error>)
      requires Synced() && lastRes.Fetchable()
      modifies this`lastRes, this`dirty, this`datafmt, this`outBuffers, server
      ensures !lastRes.RES_CANCELED?
      ensures Synced() && server.pending == old(server.pending) && server.active == old(server.active)
      ensures var s := old(server.open.value);
              var c := Ensured(old(CacheState()), s);
              if c.Err? then r == Err(c.error)
              else
                && Wide(Seen(c.value, s.rows), |c.value.fmt|)
                && r == RowsValue(c.value, s, ph, single)
                && (r.Ok? ==> DoneReading(s, c.value))
    {
      ghost var s := server.open.value;
      ghost var c := Ensured(CacheState(), s);
      var ok := StartReading();
      if ok.Err? {
        return Err(ok.error);
      }
      SeenWide(c.value, s);
      r := FetchRows(ph, single, s, c.value);
    }

    /** Fetching a row and turning it into a hash. */
    method FetchHash(ph: seq<string>, ghost s: ResultSet, ghost c: Cache, ghost k: nat) returns (r: Result<Option<Value>, Error>)
      requires Reading(s, c, k) && datafmt == c.fmt && Wide(Seen(c, s.rows), |c.fmt|)
      modifies this`lastRes, this`outBuffers, server
      ensures !lastRes.RES_CANCELED?
      ensures Synced() && server.pending == old(server.pending) && server.active == old(server.active)
      ensures r.Err? ==> s.end.FetchFails? && s.end.error == r.error && k == |s.rows|
      ensures r == Ok(None) ==> k == |s.rows| && s.end == EndOfData && DoneReading(s, c)
      ensures r.Ok? && r.value.Some? ==>
                k < |s.rows| && Reading(s, c, k + 1) && r.value.value == RowHash(c.fmt, ph, Seen(c, s.rows)[k])
    {
      var got := FetchNth(s, c, k);
      if got.Err? {
        return Err(got.error);
      }
      if !got.value {
        return Ok(None);
      }
      var h := OutputBuffersToHash(datafmt, ph, outBuffers);
      return Ok(Some(h));
    }

    /** The loop of `read_rows`. */
    method FetchRows(ph: seq<string>, single: bool, ghost s: ResultSet, ghost c: Cache) returns (r: Result<Value, Error>)
      requires Reading(s, c, 0) && datafmt == c.fmt && Wide(Seen(c, s.rows), |c.fmt|)
      modifies this`lastRes, this`outBuffers, server
      ensures !lastRes.RES_CANCELED?
      ensures Synced() && server.pending == old(server.pending) && server.active == old(server.active)
      ensures r == RowsValue(c, s, ph, single)
      ensures r.Ok? ==> DoneReading(s, c)
    {
      ghost var all := RowHashes(c, ph, Seen(c, s.rows));
      var rv, l := Nothing, None;
      ghost var k: nat := 0;
      while true
        invariant Reading(s, c, k) && datafmt == c.fmt
        invariant server.pending == old(server.pending) && server.active == old(server.active)
        invariant Holds(rv, l, all[..k]) && (single ==> k < 2)
        decreases |s.rows| - k
      {
        var got := FetchHash(ph, s, c, k);
        if got.Err? {
          return Err(got.error);
        }
        if got.value.None? {
          break;
        }
        assert all[..k] + [got.value.value] == all[..k + 1];
        var added;
        rv, l, added := AddHash(rv, l, got.value.value, single, all[..k]);
        if added.Err? {
          return Err(added.error);
        }
        k := k + 1;
      }
      assert all[..|all|] == all;
      return Ok(if l.Some? then List(l.value) else rv);
    }

    /** The body of the loop of `read_cols`: the lists are set up with the
        first row if they have not been before. */
    method AddRow(h: seq<Entry>, ph: seq<string>, ghost seen: seq<seq<Raw>>, ghost k: nat) returns (h': seq<Entry>)
      requires |outBuffers| == |datafmt| > 0 && Wide(seen, |datafmt|) && k < |seen| && outBuffers == seen[k]
      requires if h == [] then k == 0 else Hash(h) == ColumnHash(datafmt, ph, seen[..k])
      ensures h' != [] && Hash(h') == ColumnHash(datafmt, ph, seen[..k + 1])
    {
      h' := h;
      if h' == [] {
        h' := SetupColumns(datafmt, ph);
        assert seen[..k] == [];
      }
      assert Wide(seen[..k], |datafmt|);
      h' := AppendBuffersToList(datafmt, outBuffers, h', ph, seen[..k]);
      assert seen[..k] + [outBuffers] == seen[..k + 1];
      assert Keys(h') == ColumnKeys(datafmt, ph);
    }

    /** `read_cols(ph, cnt, cols, xsink)`: with a positive count it may leave
        rows behind for the next call. */
    method ReadCols(ph: seq<string>, count: int, cols: bool) returns (r: Result<Value, Error>)
      requires Synced() && lastRes.Fetchable()
      modifies this`lastRes, this`dirty, this`datafmt, this`outBuffers, server
      ensures !lastRes.RES_CANCELED?
      ensures Synced() && server.pending == old(server.pending) && server.active == old(server.active)
      ensures var s := old(server.open.value);
              var c := Ensured(old(CacheState()), s);
              if c.Err? then r == Err(c.error)
              else
                && Wide(Seen(c.value, s.rows), |c.value.fmt|)
                && if 0 < count <= |s.rows| then
                     && r == Ok(ColumnHash(c.value.fmt, ph, Seen(c.value, s.rows)[..count]))
                     && Reading(s, c.value, count)
                   else
                     && r == ColsValue(c.value, s, ph, cols)
                     && (r.Ok? ==> DoneReading(s, c.value))
    {
      ghost var s := server.open.value;
      ghost var c := Ensured(CacheState(), s);
      var ok := StartReading();
      if ok.Err? {
        return Err(ok.error);
      }
      SeenWide(c.value, s);
      ghost var seen := Seen(c.value, s.rows);
      var h: seq<Entry> := [];
      if cols {
        h := SetupColumns(datafmt, ph);
        assert seen[..0] == [] && Keys(h) == ColumnKeys(datafmt, ph);
      }
      r := FetchCols(h, ph, count, cols, s, c.value);
      assert seen[..|seen|] == seen;
    }

    /** The loop of `read_cols`. */
    method FetchCols(h0: seq<Entry>, ph: seq<string>, count: int, cols: bool, ghost s: ResultSet, ghost c: Cache)
      returns (r: Result<Value, Error>)
      requires Reading(s, c, 0) && datafmt == c.fmt && Wide(Seen(c, s.rows), |c.fmt|)
      requires if cols then h0 != [] && Hash(h0) == ColumnHash(c.fmt, ph, Seen(c, s.rows)[..0]) else h0 == []
      modifies this`lastRes, this`outBuffers, server
      ensures !lastRes.RES_CANCELED?
      ensures Synced() && server.pending == old(server.pending) && server.active == old(server.active)
      ensures 0 < count <= |s.rows| ==>
                r == Ok(ColumnHash(c.fmt, ph, Seen(c, s.rows)[..count])) && Reading(s, c, count)
      ensures !(0 < count <= |s.rows|) ==>
                (match s.end
                 case FetchFails(e) => r == Err(e)
                 case EndOfData =>
                   && DoneReading(s, c)
                   && r == Ok(if cols || s.rows != [] then ColumnHash(c.fmt, ph, Seen(c, s.rows)[..|s.rows|]) else Hash([])))
    {
      ghost var seen := Seen(c, s.rows);
      var h, cnt := h0, count;
      ghost var k: nat := 0;
      while true
        invariant Reading(s, c, k) && datafmt == c.fmt
        invariant server.pending == old(server.pending) && server.active == old(server.active)
        invariant cnt == count - k && (count > 0 ==> cnt > 0)
        invariant h != [] <==> cols || k > 0
        invariant if h == [] then k == 0 else Hash(h) == ColumnHash(datafmt, ph, seen[..k])
        decreases |s.rows| - k
      {
        var got := FetchNth(s, c, k);
        if got.Err? {
          return Err(got.error);
        }
        if !got.value {
          break;
        }
        h := AddRow(h, ph, seen, k);
        k := k + 1;
        cnt := cnt - 1;
        if cnt == 0 {
          return Ok(Hash(h));
        }
      }
      return Ok(Hash(h));
    }

    /** `read_rows(ph, list, cols, xsink, single_row)`: chooses the layout. */
    method ReadSet(mode: Mode) returns (r: Result<Value, Error>)
      requires Synced() && lastRes.Fetchable()
      modifies this`lastRes, this`dirty, this`datafmt, this`outBuffers, server
      ensures !lastRes.RES_CANCELED?
      ensures Synced() && server.pending == old(server.pending) && server.active == old(server.active)
      ensures var s := old(server.open.value);
              var c := Ensured(old(CacheState()), s);
              if c.Err? then r == Err(c.error)
              else
                && Wide(Seen(c.value, s.rows), |c.value.fmt|)
                && r == SetValue(c.value, s, mode)
                && (r.Ok? ==> DoneReading(s, c.value))
    {
      var ok := EnsureColinfo();
      if ok.Err? {
        return Err(ok.error);
      }
      if !mode.list {
        r := ReadCols([], -1, mode.cols);
      } else {
        r := ReadRows([], mode.single);
      }
    }

    /** The fold that remains to be done from the present state. */
    ghost function Ahead(acc: Acc, mode: Mode): Result<Value, Error>
      requires Synced()
      reads this, server
    {
      Fold(Remaining(), Folding(CacheState(), acc), mode, placeholders)
    }

    /** The RES_PARAM branch of `readOutput`. */
    method ReadParams(ghost acc: Acc, ghost mode: Mode) returns (r: Result<Value, Error>)
      requires Synced() && lastRes == RES_PARAM
      modifies this`lastRes, this`dirty, this`datafmt, this`outBuffers, server
      ensures !lastRes.RES_CANCELED?
      ensures Synced() && server.active == old(server.active)
      ensures r.Err? ==> old(Ahead(acc, mode)) == Err(r.error) && r.error != ResultsFailed
      ensures r.Ok? ==> lastRes == RES_NONE && Remaining() == old(Remaining())[1..]
                        && Ahead(AddParams(acc, r.value), mode) == old(Ahead(acc, mode))
    {
      FoldStep(Remaining(), Folding(CacheState(), acc), mode, placeholders);
      var ok := RetrColinfo();
      if ok.Err? {
        return Err(ok.error);
      }
      r := ReadRows(placeholders, false);
    }

    /** The RES_ROW branch. */
    method ReadRowSet(mode: Mode, ghost acc: Acc) returns (r: Result<Value, Error>)
      requires Synced() && lastRes == RES_ROW
      modifies this`lastRes, this`dirty, this`datafmt, this`outBuffers, server
      ensures !lastRes.RES_CANCELED?
      ensures Synced() && server.active == old(server.active)
      ensures r.Err? ==> old(Ahead(acc, mode)) == Err(r.error) && r.error != ResultsFailed
      ensures r.Ok? ==> lastRes == RES_NONE && Remaining() == old(Remaining())[1..]
                        && Ahead(AddResult(acc, r.value), mode) == old(Ahead(acc, mode))
    {
      FoldStep(Remaining(), Folding(CacheState(), acc), mode, placeholders);
      r := ReadSet(mode);
    }

    /** The RES_STATUS branch: the values are read and dropped. */
    method ReadStatus(mode: Mode, ghost acc: Acc) returns (r: Result<(), Error>)
      requires Synced() && lastRes == RES_STATUS
      modifies this`lastRes, this`dirty, this`datafmt, this`outBuffers, server
      ensures !lastRes.RES_CANCELED?
      ensures Synced() && server.active == old(server.active)
      ensures r.Err? ==> old(Ahead(acc, mode)) == Err(r.error) && r.error != ResultsFailed
      ensures r.Ok? ==> lastRes == RES_NONE && Remaining() == old(Remaining())[1..]
                        && Ahead(acc, mode) == old(Ahead(acc, mode))
    {
      hide RowHashes, ColumnHash, Smart;
      FoldStep(Remaining(), Folding(CacheState(), acc), mode, placeholders);
      var ok := RetrColinfo();
      if ok.Err? {
        return Err(ok.error);
      }
      var status := ReadSet(Mode(mode.list, false, false));
      if status.Err? {
        return Err(status.error);
      }
      dirty := true;
      return Ok(());
    }

    /** The call of `readNextResult` in the loop of `readOutput`. */
    method NextForOutput(ghost acc: Acc, ghost mode: Mode) returns (rt: Result<ResType, Error>, disconnect: bool)
      requires Synced()
      modifies this`rowcount, this`dirty, this`lastRes, server
      ensures lastRes.RES_CANCELED? ==> old(lastRes).RES_CANCELED?
      ensures Synced()
      ensures rt.Ok? ==> lastRes == rt.value
      ensures !old(lastRes).Reads() ==> rt == Ok(old(lastRes))
      ensures old(lastRes).Reads() && rt.Ok? ==> lastRes.RES_END? || lastRes.RES_DONE? || lastRes.Fetchable()
      ensures rt.Err? ==> old(lastRes).Reads() && old(Ahead(acc, mode)) == Err(rt.error)
      ensures disconnect <==> rt == Err(ResultsFailed) && server.cancelRet == Fail
      ensures rt.Ok? && old(lastRes).Reads() && lastRes.RES_END? ==>
                old(Ahead(acc, mode)) == Ok(Shape(acc.params, acc.results))
      ensures rt.Ok? && old(lastRes).Reads() && lastRes.RES_DONE? ==>
                Ahead(AddDone(acc, rowcount), mode) == old(Ahead(acc, mode)) && |Remaining()| < |old(Remaining())|
      ensures rt.Ok? && lastRes.Fetchable() ==>
                Ahead(acc, mode) == old(Ahead(acc, mode)) && |Remaining()| <= |old(Remaining())|
    {
      if lastRes.Reads() {
        ghost var f := Folding(CacheState(), acc);
        assert Remaining() == server.pending;
        SkipSucceedKeeps(server.pending, f, mode, placeholders);
        SkipSucceedShrinks(server.pending);
        if SkipSucceed(server.pending) != [] {
          FoldStep(SkipSucceed(server.pending), f, mode, placeholders);
        }
      }
      rt, disconnect := ReadNextResult();
    }

    /** The branches of the loop that add to the result: `goal` is what the
        whole read comes to, seen from before and from after the branch. */
    method Absorb(rf: Factory, mode: Mode, ghost goal: Result<Value, Error>) returns (r: Result<(), Error>)
      requires Synced() && rf.Valid() && (lastRes.RES_DONE? || lastRes.Fetchable())
      requires lastRes.RES_DONE? ==> Ahead(AddDone(rf.Contents(), rowcount), mode) == goal
      requires lastRes.Fetchable() ==> Ahead(rf.Contents(), mode) == goal
      modifies this`lastRes, this`dirty, this`datafmt, this`outBuffers, server, rf, rf.params, rf.reslist
      ensures !lastRes.RES_CANCELED?
      ensures Synced() && rf.Valid()
      ensures r.Err? ==> goal == Err(r.error) && r.error != ResultsFailed
      ensures r.Ok? ==> lastRes.Reads() && Ahead(rf.Contents(), mode) == goal
      ensures r.Ok? ==> |Remaining()| == |old(Remaining())| - (if old(lastRes).RES_DONE? then 0 else 1)
    {
      ghost var acc := rf.Contents();
      r := Ok(());
      match lastRes {
        case RES_PARAM =>
          var qresult := ReadParams(acc, mode);
          if qresult.Err? {
            return Err(qresult.error);
          }
          rf.AddParams(qresult.value);
        case RES_ROW =>
          var qresult := ReadRowSet(mode, acc);
          if qresult.Err? {
            return Err(qresult.error);
          }
          rf.Add(qresult.value);
        case RES_STATUS =>
          r := ReadStatus(mode, acc);
        case RES_DONE =>
          rf.Done(rowcount);
      }
    }

    /** `readOutput`: reads everything the command still has to deliver and
        shapes it into one value. */
    method ReadOutput(mode: Mode) returns (r: Result<Value, Error>, disconnect: bool)
      requires Synced()
      modifies this`rowcount, this`lastRes, this`dirty, this`datafmt, this`outBuffers, server
      ensures lastRes.RES_CANCELED? ==> old(lastRes).RES_CANCELED?
      ensures Synced()
      ensures disconnect <==> r == Err(ResultsFailed) && server.cancelRet == Fail
      ensures old(lastRes).Reads() || old(lastRes).Fetchable() ==> r == old(Ahead(EMPTY, mode))
      ensures old(lastRes).RES_END? || old(lastRes).RES_ERROR? ==> r == Ok(Nothing)
      ensures old(lastRes).RES_CANCELED? ==> r == Err(UnknownState)
      ensures r.Ok? && !old(lastRes).RES_ERROR? ==> lastRes == RES_END
    {
      var rf := new Factory();
      ghost var goal := Ahead(EMPTY, mode);
      while true
        invariant Synced() && rf.Valid() && fresh(rf) && fresh(rf.params) && fresh(rf.reslist)
        invariant lastRes.RES_CANCELED? ==> old(lastRes).RES_CANCELED?
        invariant lastRes.Reads() || (lastRes == old(lastRes) && rf.Contents() == EMPTY)
        invariant lastRes.Reads() ==> old(lastRes).Reads() || old(lastRes).Fetchable()
        invariant lastRes.Reads() || lastRes.Fetchable() ==> Ahead(rf.Contents(), mode) == goal
        decreases |Remaining()|
      {
        var rt;
        rt, disconnect := NextForOutput(rf.Contents(), mode);
        if rt.Err? {
          return Err(rt.error), disconnect;
        }
        if rt.value == RES_ERROR {
          return Ok(Nothing), false;
        }
        if rt.value == RES_END {
          var v := rf.Res();
          return Ok(v), false;
        }
        if rt.value == RES_CANCELED {
          return Err(UnknownState), false;
        }
        var added := Absorb(rf, mode, goal);
        if added.Err? {
          return Err(added.error), false;
        }
      }
    }
  }

  lemma {:induction false} SkipSucceedShrinks(rs: seq<Reply>)
    ensures |SkipSucceed(rs)| <= |rs|
  {
    if rs != [] && rs[0].Succeed? {
      SkipSucceedShrinks(rs[1..]);
    }
  }
}
