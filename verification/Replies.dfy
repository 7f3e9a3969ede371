/**
 The server as the driver sees it through ct-lib: for one sent command, a finite
 stream of replies that `ct_results` announces one by one, each result set being
 drained by `ct_fetch`. The stream itself is arbitrary.
 */
module Replies {
  import opened Wrappers
  import opened Values
  import opened Columns

  datatype SetKind = RowSet | ParamSet | StatusSet

  /** Every failure of a read, whether thrown or raised on the sink. */
  datatype Error =
    | RowFail             // ct_fetch: CS_ROW_FAIL
    | FetchCode           // ct_fetch: any other code
    | NotOneRow           // ct_fetch: a row count other than one
    | NoColumns           // ct_res_info: no columns
    | NoRowCount          // ct_res_info: no row count
    | CommandFailed       // CS_CMD_FAIL
    | ResultsFailed       // ct_results: CS_FAIL
    | ResultsCode         // ct_results: any other code
    | UnknownType         // ct_results: unexpected result type
    | UnknownState        // readOutput: unexpected driver state
    | MoreThanOneRow      // selectRow
    | NotAHash            // selectRow

  /** The failures of `ct_fetch`, and those a reply can be. */
  type FetchError = e: Error | e.RowFail? || e.FetchCode? || e.NotOneRow? witness RowFail

  type ReplyError = e: Error | e.CommandFailed? || e.ResultsFailed? || e.ResultsCode? || e.UnknownType? witness CommandFailed

  /** How fetching ends once the rows are used up. */
  datatype FetchEnd = EndOfData | FetchFails(error: FetchError)

  datatype ResultSet = ResultSet(kind: SetKind, desc: seq<ColDesc>, rows: seq<seq<Raw>>, end: FetchEnd) {
    ghost predicate Valid() {
      Wide(rows, |desc|)
    }
  }

  datatype Reply =
    | Rows(resultSet: ResultSet)
    | Done(count: Option<int>)     // CS_CMD_DONE; None when ct_res_info fails
    | Succeed                      // CS_CMD_SUCCEED
    | Failing(error: ReplyError)

  ghost predicate ValidStream(rs: seq<Reply>) {
    forall i | 0 <= i < |rs| :: rs[i].Rows? ==> rs[i].resultSet.Valid()
  }

  datatype CtRet = Success | Fail | OtherCode

  datatype Announced = EndResults | Announces(reply: Reply)

  datatype Fetched = Row | EndData | Failed(error: Error)

  /** The ct-lib side of one command. `bound` counts the columns of the open
      set bound to buffers; bindings end with their result set, and a fetch
      stores a row only when all its columns are bound. */
  class Server {
    const script: seq<Reply>
    const sendRet: CtRet
    const cancelRet: CtRet
    var active: bool
    var pending: seq<Reply>
    var open: Option<ResultSet>
    var bound: nat

    ghost predicate Valid()
      reads this
    {
      && ValidStream(script)
      && ValidStream(pending)
      && (open.Some? ==> open.value.Valid() && bound <= |open.value.desc|)
      && (!active ==> open.None? && pending == [])
      && (open.None? ==> bound == 0)
    }

    constructor (script: seq<Reply>, sendRet: CtRet, cancelRet: CtRet)
      requires ValidStream(script)
      ensures Valid() && !active && open.None? && pending == []
      ensures this.script == script && this.sendRet == sendRet && this.cancelRet == cancelRet
    {
      this.script, this.sendRet, this.cancelRet := script, sendRet, cancelRet;
      active, pending, open, bound := false, [], None, 0;
    }

    /** `ct_send`: on success the replies of the command become readable. */
    method Send() returns (ret: CtRet)
      requires Valid() && !active
      modifies this
      ensures Valid() && ret == sendRet
      ensures ret == Success ==> active && pending == script && open.None?
      ensures ret != Success ==> !active
    {
      ret := sendRet;
      if ret == Success {
        active, pending := true, script;
      }
    }

    /** `ct_results`: announces the next reply. A result set must have been
        drained before. */
    method Results() returns (r: Announced)
      requires Valid() && active && open.None?
      modifies this
      ensures Valid()
      ensures old(pending) == [] ==> r == EndResults && !active && open.None? && pending == []
      ensures old(pending) != [] ==>
                && r == Announces(old(pending)[0])
                && active && pending == old(pending)[1..]
                && open == (if r.reply.Rows? then Some(r.reply.resultSet) else None)
      ensures bound == 0
    {
      if pending == [] {
        active := false;
        return EndResults;
      }
      r := Announces(pending[0]);
      pending := pending[1..];
      bound := 0;
      open := if r.reply.Rows? then Some(r.reply.resultSet) else None;
    }

    /** `ct_fetch`: only while a result set is open. */
    method Fetch() returns (r: Fetched, stored: Option<seq<Raw>>)
      requires Valid() && open.Some?
      modifies this
      ensures Valid() && pending == old(pending) && active == old(active)
      ensures old(open.value.rows) != [] ==>
                && r == Row
                && open == Some(old(open.value).(rows := old(open.value.rows)[1..])) && bound == old(bound)
                && stored == (if bound == |open.value.desc| > 0 then Some(old(open.value.rows)[0]) else None)
      ensures old(open.value.rows) == [] ==>
                match old(open.value.end)
                case EndOfData => r == EndData && open.None?
                case FetchFails(e) => r == Failed(e) && open == old(open) && bound == old(bound)
    {
      stored := None;
      var s := open.value;
      if s.rows != [] {
        if bound == |s.desc| > 0 {
          stored := Some(s.rows[0]);
        }
        open := Some(s.(rows := s.rows[1..]));
        return Row, stored;
      }
      match s.end {
        case EndOfData =>
          open, bound := None, 0;
          r := EndData;
        case FetchFails(e) =>
          r := Failed(e);
      }
    }

    /** `ct_bind` of the next column. */
    method Bind()
      requires Valid() && open.Some? && bound < |open.value.desc|
      modifies `bound
      ensures Valid() && bound == old(bound) + 1
    {
      bound := bound + 1;
    }

    /** Releasing the buffers ends their bindings. */
    method Unbind()
      requires Valid()
      modifies `bound
      ensures Valid() && bound == 0
    {
      bound := 0;
    }

    /** `ct_cancel(CS_CANCEL_ALL)`: when it succeeds nothing is left to read. */
    method Cancel() returns (ret: CtRet)
      requires Valid()
      modifies this
      ensures Valid() && ret == cancelRet
      ensures ret == Success ==> !active
      ensures ret != Success ==> active == old(active) && pending == old(pending) && open == old(open) && bound == old(bound)
    {
      ret := cancelRet;
      if ret == Success {
        active, pending, open, bound := false, [], None, 0;
      }
    }
  }
}
