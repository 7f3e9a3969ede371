/** The single-row and row-list adapters (src/sybase.cpp) over the reading of a
    command's output. */
module Selects {
  import opened Wrappers
  import opened Values
  import opened Columns
  import opened Replies
  import opened Replay
  import opened ReplayLaws
  import opened AnswerLaws
  import opened Commands

  const ROW_MODE := Mode(true, false, true)
  const ROWS_MODE := Mode(true, false, false)

  /** `sybase_select_row`: a hash or nothing is passed on, anything else is an
      error. */
  function RowResult(v: Result<Value, Error>): Result<Option<Value>, Error> {
    if v.Err? then Err(v.error)
    else if v.value == Nothing then Ok(None)
    else if v.value.Hash? then Ok(Some(v.value))
    else Err(NotAHash)
  }

  /** `sybase_select_rows`: a single hash is wrapped in a list. */
  function RowsResult(v: Result<Value, Error>): Result<Value, Error> {
    if v.Ok? && v.value.Hash? then Ok(List([v.value])) else v
  }

  method SelectRow(cmd: Command) returns (r: Result<Option<Value>, Error>)
    requires cmd.Synced() && cmd.lastRes == RES_NONE
    modifies cmd, cmd.server
    ensures r == RowResult(old(cmd.Ahead(EMPTY, ROW_MODE)))
  {
    var holder, _ := cmd.ReadOutput(ROW_MODE);
    if holder.Err? {
      return Err(holder.error);
    }
    if !holder.value.Hash? && !holder.value.Nothing? {
      return Err(NotAHash);
    }
    return Ok(if holder.value == Nothing then None else Some(holder.value));
  }

  method SelectRows(cmd: Command) returns (r: Result<Value, Error>)
    requires cmd.Synced() && cmd.lastRes == RES_NONE
    modifies cmd, cmd.server
    ensures r == RowsResult(old(cmd.Ahead(EMPTY, ROWS_MODE)))
  {
    var rv, _ := cmd.ReadOutput(ROWS_MODE);
    if rv.Ok? && rv.value.Hash? {
      return Ok(List([rv.value]));
    }
    return rv;
  }

  /** The replies to a plain query: one row set and a DONE that counts it. */
  function QueryReplies(desc: seq<ColDesc>, rows: seq<seq<Raw>>): seq<Reply> {
    [Rows(ResultSet(RowSet, desc, rows, EndOfData)), Done(Some(|rows|))]
  }

  function Hashes(desc: seq<ColDesc>, rows: seq<seq<Raw>>): (vs: seq<Value>)
    requires Wide(rows, |desc|)
    ensures |vs| == |rows|
  {
    seq(|rows|, j requires 0 <= j < |rows| => RowHash(desc, [], rows[j]))
  }

  /** Whatever the layout, a plain query's answer is what its one set comes to. */
  lemma OneSet(desc: seq<ColDesc>, rows: seq<seq<Raw>>, mode: Mode, ph: seq<string>)
    requires desc != [] && Wide(rows, |desc|)
    ensures var rs := QueryReplies(desc, rows);
            && ValidStream(rs) && FitsStream(NO_CACHE, rs) && rs[0].resultSet.Valid()
            && Fold(rs, Folding(NO_CACHE, EMPTY), mode, ph) == OwnValue(rs[0].resultSet, mode, ph)
  {
    var rs := QueryReplies(desc, rows);
    var s := rs[0].resultSet;
    ReadOutputMeans(rs, mode, ph);
    assert FailureAt(rs, 1, mode, ph).None?;
    var own := OwnValue(s, mode, ph);
    if own.Err? {
      assert FailureAt(rs, 0, mode, ph) == Some(own.error);
    } else {
      var v := own.value;
      assert FailureAt(rs, 0, mode, ph).None?;
      assert NoFailure(rs, 2, mode, ph);
      assert LastValue(rs, 1, mode, ph) == v;
      assert v == Nothing ==> rows == [];
      assert ResultOf(rs, 1, mode, ph) == [];
      assert Results(rs, 1, mode, ph) == [v];
      assert Results(rs, 2, mode, ph) == [v];
      assert ParamsOf(rs, 0, mode, ph) == [] && ParamsOf(rs, 1, mode, ph) == [];
      assert Params(rs, 0, mode, ph) == [];
      assert Params(rs, 1, mode, ph) == Params(rs, 0, mode, ph) + ParamsOf(rs, 0, mode, ph) == [];
      assert Params(rs, 2, mode, ph) == Params(rs, 1, mode, ph) + ParamsOf(rs, 1, mode, ph) == [];
    }
  }

  lemma QueryOutput(desc: seq<ColDesc>, rows: seq<seq<Raw>>, mode: Mode, ph: seq<string>)
    requires desc != [] && Wide(rows, |desc|) && mode.list
    ensures var rs := QueryReplies(desc, rows);
            && ValidStream(rs) && FitsStream(NO_CACHE, rs)
            && Fold(rs, Folding(NO_CACHE, EMPTY), mode, ph)
               == if mode.single && |rows| >= 2 then Err(MoreThanOneRow) else Ok(Smart(Hashes(desc, rows)))
  {
    OneSet(desc, rows, mode, ph);
    OwnRows(QueryReplies(desc, rows)[0].resultSet, [], mode.single);
  }

  /** `select` without options, and with columns asked for even without rows:
      under the key of every column the list of its cells, one for each row of
      the server, in order. Without rows, the hash is empty or its lists are. */
  lemma SelectReturnsColumns(desc: seq<ColDesc>, rows: seq<seq<Raw>>, cols: bool, single: bool, ph: seq<string>)
    requires desc != [] && Wide(rows, |desc|)
    ensures ValidStream(QueryReplies(desc, rows)) && FitsStream(NO_CACHE, QueryReplies(desc, rows))
    ensures var r := Fold(QueryReplies(desc, rows), Folding(NO_CACHE, EMPTY), Mode(false, cols, single), ph);
            if rows == [] && !cols then r == Ok(Hash([]))
            else
              && r.Ok? && r.value.Hash? && |r.value.entries| == |desc|
              && forall i | 0 <= i < |desc| ::
                   && r.value.entries[i].key == ColumnKeys(desc, [])[i]
                   && r.value.entries[i].value.List? && |r.value.entries[i].value.items| == |rows|
                   && forall j | 0 <= j < |rows| ::
                        |rows[j]| == |desc| && r.value.entries[i].value.items[j] == Cell(desc[i].typeCode, rows[j][i])
  {
    hide Fold;
    var s := QueryReplies(desc, rows)[0].resultSet;
    OneSet(desc, rows, Mode(false, cols, single), ph);
    ColumnsShown(Own(s), s, [], cols);
  }

  /** `selectRows` returns the list of exactly the rows of the server, in
      order, however many there are; without rows it returns nothing. */
  lemma SelectRowsReturnsAllRows(desc: seq<ColDesc>, rows: seq<seq<Raw>>, ph: seq<string>)
    requires desc != [] && Wide(rows, |desc|)
    ensures ValidStream(QueryReplies(desc, rows)) && FitsStream(NO_CACHE, QueryReplies(desc, rows))
    ensures RowsResult(Fold(QueryReplies(desc, rows), Folding(NO_CACHE, EMPTY), ROWS_MODE, ph))
         == Ok(if rows == [] then Nothing else List(Hashes(desc, rows)))
  {
    QueryOutput(desc, rows, ROWS_MODE, ph);
    if |rows| == 1 {
      assert Hashes(desc, rows) == [RowHash(desc, [], rows[0])];
    }
  }

  /** `selectRow` returns the only row, nothing without rows, and fails as soon
      as there is a second row. */
  lemma SelectRowReturnsOnlyRow(desc: seq<ColDesc>, rows: seq<seq<Raw>>, ph: seq<string>)
    requires desc != [] && Wide(rows, |desc|)
    ensures ValidStream(QueryReplies(desc, rows)) && FitsStream(NO_CACHE, QueryReplies(desc, rows))
    ensures RowResult(Fold(QueryReplies(desc, rows), Folding(NO_CACHE, EMPTY), ROW_MODE, ph))
         == if rows == [] then Ok(None)
            else if |rows| == 1 then Ok(Some(RowHash(desc, [], rows[0])))
            else Err(MoreThanOneRow)
  {
    QueryOutput(desc, rows, ROW_MODE, ph);
  }

  /** A command that only counts rows is an error for `selectRow` if it counts
      any, and its count is what `selectRows` returns. */
  lemma SelectOfUpdate(count: int, ph: seq<string>)
    ensures FitsStream(NO_CACHE, [Done(Some(count))])
    ensures RowResult(Fold([Done(Some(count))], Folding(NO_CACHE, EMPTY), ROW_MODE, ph))
         == if count > 0 then Err(NotAHash) else Ok(None)
    ensures RowsResult(Fold([Done(Some(count))], Folding(NO_CACHE, EMPTY), ROWS_MODE, ph))
         == Ok(if count > 0 then Count(count) else Nothing)
  {
    CountReturned(count, ROW_MODE, ph);
    CountReturned(count, ROWS_MODE, ph);
  }
}
