/**
 What reading a command's output returns, in terms of the replies and their rows
 alone: which reply stops the reading and how, what each of them adds, how one
 result set is laid out and how several are put together.
 */
module AnswerLaws {
  import opened Wrappers
  import opened Decimal
  import opened Values
  import opened Columns
  import opened Replies
  import opened Replay
  import opened ReplayLaws

  // ---------------------------------------------------------- one result set

  /** Columns as lists, from whatever cache: a list for every described column,
      with a cell for every row. The cell is the row's if the buffers are bound
      to the set, and what the buffers hold otherwise. */
  lemma ColumnsShown(c: Cache, s: ResultSet, ph: seq<string>, cols: bool)
    requires |c.cells| == |c.fmt| && Wide(Seen(c, s.rows), |c.fmt|)
    ensures var r := ColsValue(c, s, ph, cols);
            if s.end.FetchFails? then r == Err(s.end.error)
            else if s.rows == [] && !cols then r == Ok(Hash([]))
            else
              && r.Ok? && r.value.Hash? && |r.value.entries| == |c.fmt|
              && forall i | 0 <= i < |c.fmt| ::
                   && r.value.entries[i].key == ColumnKeys(c.fmt, ph)[i]
                   && r.value.entries[i].value.List? && |r.value.entries[i].value.items| == |s.rows|
                   && forall j | 0 <= j < |s.rows| ::
                        |Seen(c, s.rows)[j]| == |c.fmt|
                        && r.value.entries[i].value.items[j]
                           == Cell(c.fmt[i].typeCode, if c.bound then s.rows[j][i] else c.cells[i])
  {
  }

  /** Rows as hashes, in the same way: no row is nothing, one row is its hash,
      more are the list of their hashes. */
  lemma RowsShown(c: Cache, s: ResultSet, ph: seq<string>, single: bool)
    requires |c.cells| == |c.fmt| && Wide(Seen(c, s.rows), |c.fmt|)
    ensures var r := RowsValue(c, s, ph, single);
            if single && |s.rows| >= 2 then r == Err(MoreThanOneRow)
            else if s.end.FetchFails? then r == Err(s.end.error)
            else if s.rows == [] then r == Ok(Nothing)
            else
              && r.Ok? && (|s.rows| > 1 ==> r.value.List? && |r.value.items| == |s.rows|)
              && forall j | 0 <= j < |s.rows| ::
                   var v := if |s.rows| == 1 then r.value else r.value.items[j];
                   && v.Hash? && |v.entries| == |c.fmt| == |Seen(c, s.rows)[j]|
                   && forall i | 0 <= i < |c.fmt| ::
                        v.entries[i] == Entry(ColumnKeys(c.fmt, ph)[i],
                                              Cell(c.fmt[i].typeCode, if c.bound then s.rows[j][i] else c.cells[i]))
  {
  }

  // ------------------------------------------------------------ reply by reply

  lemma FailureIs(rs: seq<Reply>, i: nat, mode: Mode, ph: seq<string>)
    requires ValidStream(rs) && i < |rs|
    ensures var e := FailureAt(rs, i, mode, ph);
            && (rs[i].Succeed? ==> e.None?)
            && (rs[i].Failing? ==> e == Some(rs[i].error))
            && (rs[i].Done? ==> e == if rs[i].count.None? then Some(NoRowCount) else None)
            && (rs[i].Rows? ==>
                  var s := rs[i].resultSet;
                  e == if s.desc == [] && (s.kind != RowSet || Described(rs, i)) then Some(NoColumns)
                       else if s.kind == RowSet && mode.list && mode.single && |s.rows| >= 2 then Some(MoreThanOneRow)
                       else if s.end.FetchFails? then Some(s.end.error)
                       else None)
  {
    hide RowHashes, ColumnHash, Smart;
  }

  lemma StopsWith(rs: seq<Reply>, i: nat, mode: Mode, ph: seq<string>)
    requires ValidStream(rs) && i < |rs| && FoldTo(rs, i, mode, ph).Ok?
    ensures FitsStream(NO_CACHE, rs)
    ensures var r, e := FoldTo(rs, i + 1, mode, ph), FailureAt(rs, i, mode, ph);
            && (if e.Some? then r == Err(e.value) else r.Ok?)
            && (r.Err? ==> Fold(rs, Folding(NO_CACHE, EMPTY), mode, ph) == Err(r.error))
  {
    hide FailureAt, Process, Shown, Fold;
    FoldSplits(rs, i + 1, mode, ph);
    FoldToMeans(rs, i, mode, ph);
    ProcessMeans(rs, i, FoldTo(rs, i, mode, ph).value.cache, mode, ph);
  }

  /** If all replies before it can be read, the next one stops the reading under
      just these conditions and with these errors. */
  lemma ReadingStopsIff(rs: seq<Reply>, i: nat, mode: Mode, ph: seq<string>)
    requires ValidStream(rs) && i < |rs| && FoldTo(rs, i, mode, ph).Ok?
    ensures FitsStream(NO_CACHE, rs)
    ensures var r := FoldTo(rs, i + 1, mode, ph);
            && (r.Err? ==> Fold(rs, Folding(NO_CACHE, EMPTY), mode, ph) == Err(r.error))
            && (rs[i].Succeed? ==> r.Ok?)
            && (rs[i].Failing? ==> r == Err(rs[i].error))
            && (rs[i].Done? ==> if rs[i].count.None? then r == Err(NoRowCount) else r.Ok?)
            && (rs[i].Rows? ==>
                  var s := rs[i].resultSet;
                  if s.desc == [] && (s.kind != RowSet || Described(rs, i)) then r == Err(NoColumns)
                  else if s.kind == RowSet && mode.list && mode.single && |s.rows| >= 2 then r == Err(MoreThanOneRow)
                  else if s.end.FetchFails? then r == Err(s.end.error)
                  else r.Ok?)
  {
    hide FoldTo, Fold, FailureAt;
    StopsWith(rs, i, mode, ph);
    FailureIs(rs, i, mode, ph);
  }

  /** What it adds if it does not stop the reading. A row set is read under its
      own description, or with that of an earlier set; a parameter set is read
      under its own and as rows in any mode; a status adds nothing. */
  lemma ReplyAdds(rs: seq<Reply>, i: nat, mode: Mode, ph: seq<string>)
    requires ValidStream(rs) && i < |rs| && FoldTo(rs, i + 1, mode, ph).Ok?
    ensures FoldTo(rs, i, mode, ph).Ok?
    ensures var a, b := FoldTo(rs, i, mode, ph).value.acc, FoldTo(rs, i + 1, mode, ph).value.acc;
            && (IsKind(rs[i], RowSet) ==>
                  var d := if Described(rs, i) then Own(rs[i].resultSet) else Left(rs[Describer(rs, i)].resultSet);
                  && b.params == a.params && |b.results| == |a.results| + 1 && a.results <= b.results
                  && Wide(Seen(d, rs[i].resultSet.rows), |d.fmt|)
                  && Ok(b.results[|a.results|]) == SetValue(d, rs[i].resultSet, mode))
            && (IsKind(rs[i], ParamSet) ==>
                  && b.results == a.results && |b.params| == |a.params| + 1 && a.params <= b.params
                  && Ok(b.params[|a.params|]) == RowsValue(Own(rs[i].resultSet), rs[i].resultSet, ph, false))
            && (rs[i].Done? ==>
                  && b.params == a.params
                  && (b.results == a.results
                      || (rs[i].count.value > 0 && b.results == a.results + [Count(rs[i].count.value)])))
            && (!IsData(rs[i]) && !rs[i].Done? ==> b.params == a.params && b.results == a.results)
  {
    FoldToMeans(rs, i, mode, ph);
    FoldToMeans(rs, i + 1, mode, ph);
    if IsKind(rs[i], RowSet) && !Described(rs, i) {
      LeftSeenWide(rs[Describer(rs, i)].resultSet, rs[i].resultSet.rows);
    }
    assert FailureAt(rs, i, mode, ph).None?;
  }

  // -------------------------------------------------------- several of them

  /** Results without parameters, parameters without results, and both. */
  lemma ShapeIs(params: seq<Value>, results: seq<Value>)
    ensures params == [] && results == [] ==> Shape(params, results) == Nothing
    ensures params == [] && |results| == 1 ==> Shape(params, results) == results[0]
    ensures |params| == 1 && results == [] ==> Shape(params, results) == params[0]
    ensures var v := Shape(params, results);
            params == [] && |results| > 1 ==>
              && v.Hash? && |v.entries| == |results|
              && forall i | 0 <= i < |results| :: v.entries[i] == Entry("query" + Digits(i), results[i])
    ensures results == [] ==> Shape(params, results) == Shape([], params)
    ensures params != [] && results != [] ==>
              Shape(params, results) == Hash([Entry("query", Shape([], results)), Entry("params", Shape([], params))])
  {
  }

  /** A command without result sets yields its row count if it is positive. */
  lemma CountReturned(count: int, mode: Mode, ph: seq<string>)
    ensures var rs := [Done(Some(count))];
            && FitsStream(NO_CACHE, rs)
            && Fold(rs, Folding(NO_CACHE, EMPTY), mode, ph) == Ok(if count > 0 then Count(count) else Nothing)
  {
  }
}
