/** The rows a statement's cursor will hand out, as a function of the replies
    still to be read and the column cache (src/statement.h, src/statement.cpp). */
module CursorRows {
  import opened Wrappers
  import opened Values
  import opened Columns
  import opened Replies
  import opened Replay
  import opened Commands

  /** `expect_row`: the result sets `next` takes rows from. */
  predicate ExpectRow(kind: SetKind) {
    kind == RowSet || kind == ParamSet
  }

  /** The rows of the row and parameter sets the cursor gets to when it is asked
      again and again, errors notwithstanding, each decoded as the cursor will
      decode it. A description is fetched anew only after a DONE whose row count
      can be had. Some replies are the end of it. A status set is never fetched
      from, and the next result cannot be asked for before it is. A set without
      columns, or one whose fetching ends with an error, fails again with every
      fetch. After CS_FAIL nothing more is read. All other failures only make
      one call fail. */
  function RowsOf(rs: seq<Reply>, c: Cache): seq<Value>
    requires FitsStream(c, rs)
    decreases |rs|
  {
    if rs == [] then []
    else match rs[0]
      case Done(count) => RowsOf(rs[1..], if count.Some? then c.(dirty := true) else c)
      case Succeed => RowsOf(rs[1..], c)
      case Failing(e) => if e.ResultsFailed? then [] else RowsOf(rs[1..], c)
      case Rows(s) =>
        if !ExpectRow(s.kind) then []
        else
          var e := Ensured(c, s);
          if e.Err? then []
          else
            SeenWide(e.value, s);
            RowHashes(e.value, [], Seen(e.value, s.rows))
            + (if s.end.EndOfData? then RowsOf(rs[1..], Drained(e.value, s)) else [])
  }

  lemma {:induction false} SkipSucceedRows(rs: seq<Reply>, c: Cache)
    requires FitsStream(c, rs)
    ensures FitsStream(c, SkipSucceed(rs)) && RowsOf(SkipSucceed(rs), c) == RowsOf(rs, c)
  {
    if rs != [] && rs[0].Succeed? {
      SkipSucceedRows(rs[1..], c);
    }
  }

  /** Fetching one row of the set at the front takes the first of the rows. */
  lemma FirstRow(s: ResultSet, rest: seq<Reply>, c: Cache)
    requires FitsStream(c, [Rows(s)] + rest) && ExpectRow(s.kind) && s.rows != []
    requires Ensured(c, s).Ok?
    ensures var e := Ensured(c, s).value;
            var s' := s.(rows := s.rows[1..]);
            var c' := AfterRows(e, s.rows[..1]);
            && Wide(Seen(e, s.rows), |e.fmt|)
            && FitsStream(c', [Rows(s')] + rest)
            && Ensured(c', s') == Ok(c')
            && RowsOf([Rows(s)] + rest, c)
               == [RowHash(e.fmt, [], Seen(e, s.rows)[0])] + RowsOf([Rows(s')] + rest, c')
  {
    var rs := [Rows(s)] + rest;
    assert rs[0] == Rows(s) && rs[1..] == rest;
    var e := Ensured(c, s).value;
    var s' := s.(rows := s.rows[1..]);
    var c' := AfterRows(e, s.rows[..1]);
    SeenWide(e, s);
    ValidTail(rs);
    var rs' := [Rows(s')] + rest;
    assert rs'[0] == Rows(s') && rs'[1..] == rest;
    assert FitsStream(c', rs') by {
      forall i | 0 <= i < |rs'| && rs'[i].Rows? ensures rs'[i].resultSet.Valid() {
        assert i > 0 ==> rs'[i] == rs[i];
      }
    }
    assert Seen(c', s'.rows) == Seen(e, s.rows)[1..];
    assert RowHashes(e, [], Seen(e, s.rows))
        == [RowHash(e.fmt, [], Seen(e, s.rows)[0])] + RowHashes(c', [], Seen(c', s'.rows));
    assert Drained(c', s') == Drained(e, s);
    assert FitsStream(Drained(e, s), rest);
  }

  lemma ValidTail(rs: seq<Reply>)
    requires ValidStream(rs) && rs != []
    ensures ValidStream(rs[1..])
    ensures rs[0].Rows? ==> rs[0].resultSet.Valid()
  {
  }

  /** At the end of the set at the front, only the later rows are left. */
  lemma NoRow(s: ResultSet, rest: seq<Reply>, c: Cache)
    requires FitsStream(c, [Rows(s)] + rest) && ExpectRow(s.kind) && s.rows == []
    requires Ensured(c, s).Ok? && s.end == EndOfData
    ensures var e := Ensured(c, s).value.(bound := false);
            FitsStream(e, rest) && RowsOf([Rows(s)] + rest, c) == RowsOf(rest, e)
  {
    var rs := [Rows(s)] + rest;
    assert rs[0] == Rows(s) && rs[1..] == rest;
    ValidTail(rs);
    var e := Ensured(c, s).value;
    assert RowHashes(e, [], Seen(e, s.rows)) == [];
  }

  /** A set whose fetching fails keeps the cursor where it is. */
  lemma NoWayOn(s: ResultSet, rest: seq<Reply>, c: Cache)
    requires FitsStream(c, [Rows(s)] + rest) && ExpectRow(s.kind)
    requires Ensured(c, s).Err? || (s.rows == [] && s.end.FetchFails?)
    ensures RowsOf([Rows(s)] + rest, c) == []
    ensures Ensured(c, s).Ok? ==> FitsStream(Ensured(c, s).value, [Rows(s)] + rest)
                                  && RowsOf([Rows(s)] + rest, Ensured(c, s).value) == []
  {
    var rs := [Rows(s)] + rest;
    assert rs[0] == Rows(s);
    ValidTail(rs);
    if Ensured(c, s).Ok? {
      var e := Ensured(c, s).value;
      assert RowHashes(e, [], Seen(e, s.rows)) == [];
    }
  }

  // ------------------------------------------------------ how far the cursor gets

  /** The rows of the server, each under its own description. */
  function ServerRows(rs: seq<Reply>): seq<Value>
    requires ValidStream(rs)
  {
    if rs == [] then []
    else
      ValidTail(rs);
      (if rs[0].Rows? && ExpectRow(rs[0].resultSet.kind) then OwnHashes(rs[0].resultSet) else []) + ServerRows(rs[1..])
  }

  function OwnHashes(s: ResultSet): seq<Value>
    requires s.Valid()
  {
    seq(|s.rows|, j requires 0 <= j < |s.rows| => RowHash(s.desc, [], s.rows[j]))
  }

  predicate NoRows(rs: seq<Reply>) {
    rs == []
    || ((rs[0].Rows? && ExpectRow(rs[0].resultSet.kind) ==> rs[0].resultSet.rows == []) && NoRows(rs[1..]))
  }

  /** No row comes after the first reply that keeps the cursor from going on: a
      status set, a set whose fetching fails, CS_FAIL, or a set to be described
      that has no columns. `described` says whether the next set is described. */
  predicate NoRowsBehindStop(rs: seq<Reply>, described: bool) {
    if rs == [] then true
    else match rs[0]
      case Done(count) => NoRowsBehindStop(rs[1..], described || count.Some?)
      case Succeed => NoRowsBehindStop(rs[1..], described)
      case Failing(e) => if e.ResultsFailed? then NoRows(rs[1..]) else NoRowsBehindStop(rs[1..], described)
      case Rows(s) =>
        if !ExpectRow(s.kind) || s.end.FetchFails? then
          NoRows(rs[1..]) && (ExpectRow(s.kind) && described && s.desc == [] ==> s.rows == [])
        else if described && s.desc == [] then NoRows(rs)
        else NoRowsBehindStop(rs[1..], false)
  }

  /** Every set the cursor gets to is preceded by a DONE, with its row count,
      since the set before it: `described` says whether one has gone by. */
  predicate SeparatedByDone(rs: seq<Reply>, described: bool) {
    if rs == [] then true
    else match rs[0]
      case Done(count) => SeparatedByDone(rs[1..], described || count.Some?)
      case Succeed => SeparatedByDone(rs[1..], described)
      case Failing(e) => e.ResultsFailed? || SeparatedByDone(rs[1..], described)
      case Rows(s) => ExpectRow(s.kind) ==>
                        described && (s.end.EndOfData? && s.desc != [] ==> SeparatedByDone(rs[1..], false))
  }

  /** Whether the next set will be described. */
  predicate Describes(c: Cache) {
    c.dirty || c.fmt == []
  }

  lemma {:induction false} NoServerRowsIff(rs: seq<Reply>)
    requires ValidStream(rs)
    ensures ServerRows(rs) == [] <==> NoRows(rs)
    decreases |rs|
  {
    if rs != [] {
      ValidTail(rs);
      NoServerRowsIff(rs[1..]);
    }
  }

  /** From any stream the cursor gets no more rows than the server has, and as
      many exactly if none comes after the reply that stops it. */
  lemma {:induction false} CursorReachesAllIff(rs: seq<Reply>, c: Cache)
    requires FitsStream(c, rs) && !c.bound
    ensures |RowsOf(rs, c)| <= |ServerRows(rs)|
    ensures |RowsOf(rs, c)| == |ServerRows(rs)| <==> NoRowsBehindStop(rs, Describes(c))
    decreases |rs|
  {
    if rs != [] {
      ValidTail(rs);
      NoServerRowsIff(rs[1..]);
      match rs[0] {
        case Done(count) => CursorReachesAllIff(rs[1..], if count.Some? then c.(dirty := true) else c);
        case Succeed => CursorReachesAllIff(rs[1..], c);
        case Failing(e) =>
          if !e.ResultsFailed? {
            CursorReachesAllIff(rs[1..], c);
          }
        case Rows(s) =>
          NoServerRowsIff(rs);
          if ExpectRow(s.kind) && Ensured(c, s).Ok? && s.end.EndOfData? {
            CursorReachesAllIff(rs[1..], Drained(Ensured(c, s).value, s));
          }
      }
    }
  }

  lemma LongerFront(front: seq<Value>, a: seq<Value>, b: seq<Value>)
    requires a <= b
    ensures front + a <= front + b
  {
  }

  /** A set that is described when the cursor gets to it. */
  lemma DecodedSet(s: ResultSet, c: Cache)
    requires s.Valid() && Fits(c, s) && Describes(c) && s.desc != []
    ensures Ensured(c, s).Ok? && Wide(Seen(Ensured(c, s).value, s.rows), |Ensured(c, s).value.fmt|)
    ensures var e := Ensured(c, s).value;
            RowHashes(e, [], Seen(e, s.rows)) == OwnHashes(s) && !Describes(Drained(e, s))
  {
    var e := Ensured(c, s).value;
    assert e == Cache(false, s.desc, Blanks(|s.desc|), true);
    assert RowHashes(e, [], s.rows) == OwnHashes(s);
  }

  /** When the sets the cursor gets to are separated by DONEs, it hands out the
      front of the server's rows, every row decoded with the description of the
      set it came from. */
  lemma {:induction false} DecodedAsDescribed(rs: seq<Reply>, c: Cache)
    requires FitsStream(c, rs) && !c.bound && SeparatedByDone(rs, Describes(c))
    ensures RowsOf(rs, c) <= ServerRows(rs)
    decreases |rs|, 1
  {
    hide RowHashes, OwnHashes, Seen;
    if rs != [] {
      ValidTail(rs);
      match rs[0] {
        case Done(count) => DecodedAsDescribed(rs[1..], if count.Some? then c.(dirty := true) else c);
        case Succeed => DecodedAsDescribed(rs[1..], c);
        case Failing(e) =>
          if !e.ResultsFailed? {
            DecodedAsDescribed(rs[1..], c);
          }
        case Rows(_) => DecodedFirst(rs, c);
      }
    }
  }

  lemma {:induction false} DecodedFirst(rs: seq<Reply>, c: Cache)
    requires FitsStream(c, rs) && !c.bound && SeparatedByDone(rs, Describes(c)) && rs != [] && rs[0].Rows?
    ensures RowsOf(rs, c) <= ServerRows(rs)
    decreases |rs|, 0
  {
    hide RowHashes, OwnHashes, Seen;
    var s := rs[0].resultSet;
    ValidTail(rs);
    if ExpectRow(s.kind) && s.desc != [] {
      DecodedSet(s, c);
      var e := Ensured(c, s).value;
      var more := if s.end.EndOfData? then RowsOf(rs[1..], Drained(e, s)) else [];
      if s.end.EndOfData? {
        DecodedAsDescribed(rs[1..], Drained(e, s));
      }
      LongerFront(OwnHashes(s), more, ServerRows(rs[1..]));
    }
  }

  /** A status, a DONE and a row: the cursor delivers nothing. */
  lemma RowBehindStatusLost(d: ColDesc, e: ColDesc, row: seq<Raw>, status: seq<Raw>)
    requires |row| == 1 && |status| == 1
    ensures var rs := [Rows(ResultSet(StatusSet, [e], [status], EndOfData)), Done(Some(0)),
                       Rows(ResultSet(RowSet, [d], [row], EndOfData))];
            && FitsStream(NO_CACHE, rs) && RowsOf(rs, NO_CACHE) == []
            && ServerRows(rs) == [RowHash([d], [], row)]
  {
    OneRowBehind(Rows(ResultSet(StatusSet, [e], [status], EndOfData)), d, row);
  }

  /** The same behind CS_FAIL, and behind a set whose fetching fails. */
  lemma RowBehindFailureLost(d: ColDesc, e: ColDesc, row: seq<Raw>)
    requires |row| == 1
    ensures var rs := [Failing(ResultsFailed), Done(Some(0)), Rows(ResultSet(RowSet, [d], [row], EndOfData))];
            && FitsStream(NO_CACHE, rs) && RowsOf(rs, NO_CACHE) == []
            && ServerRows(rs) == [RowHash([d], [], row)]
    ensures var rs := [Rows(ResultSet(RowSet, [e], [], FetchFails(RowFail))), Done(Some(0)),
                       Rows(ResultSet(RowSet, [d], [row], EndOfData))];
            && FitsStream(NO_CACHE, rs) && RowsOf(rs, NO_CACHE) == []
            && ServerRows(rs) == [RowHash([d], [], row)]
  {
    OneRowBehind(Failing(ResultsFailed), d, row);
    OneRowBehind(Rows(ResultSet(RowSet, [e], [], FetchFails(RowFail))), d, row);
  }

  lemma OneRowBehind(stop: Reply, d: ColDesc, row: seq<Raw>)
    requires |row| == 1 && ValidStream([stop])
    requires stop == Failing(ResultsFailed)
             || (stop.Rows? && stop.resultSet.kind == StatusSet)
             || (stop.Rows? && ExpectRow(stop.resultSet.kind) && stop.resultSet.rows == []
                 && stop.resultSet.end.FetchFails?)
    ensures var rs := [stop, Done(Some(0)), Rows(ResultSet(RowSet, [d], [row], EndOfData))];
            && FitsStream(NO_CACHE, rs) && RowsOf(rs, NO_CACHE) == []
            && ServerRows(rs) == [RowHash([d], [], row)]
  {
    var s := ResultSet(RowSet, [d], [row], EndOfData);
    var rs := [stop, Done(Some(0)), Rows(s)];
    assert rs[1..] == [Done(Some(0)), Rows(s)] && rs[1..][1..] == [Rows(s)] && [Rows(s)][1..] == [];
    assert [stop][0] == stop;
    assert ValidStream(rs);
    assert OwnHashes(s) == [RowHash([d], [], row)];
    assert ServerRows([Rows(s)]) == OwnHashes(s) + [];
    assert ServerRows(rs[1..]) == [] + ServerRows([Rows(s)]);
    assert ServerRows(rs) == [] + ServerRows(rs[1..]);
  }

  // ------------------------------------------------------- what comes next

  /** What reading meets next: a row or parameter set with so many rows, and the
      error that comes after them, if any. A set that cannot be described has no
      rows and fails. */
  datatype Front = Front(rows: nat, fails: Option<Error>)

  function FrontOf(s: ResultSet, c: Cache): Front {
    if Ensured(c, s).Err? then Front(0, Some(NoColumns))
    else Front(|s.rows|, if s.end.FetchFails? then Some(s.end.error) else None)
  }

  /** What the replies not yet asked for come to: an error, a set, or neither. */
  function MetIn(rs: seq<Reply>, c: Cache): Result<Option<Front>, Error> {
    var rest := SkipSucceed(rs);
    if rest == [] then Ok(None)
    else match rest[0]
      case Failing(e) => Err(e)
      case Done(count) => if count.None? then Err(NoRowCount) else Ok(None)
      case Rows(s) => Ok(if ExpectRow(s.kind) then Some(FrontOf(s, c)) else None)
      case Succeed => Ok(None)
  }

  /** What the first fetch from a set comes to: whether there is a row. */
  function FirstFetch(f: Front): Result<bool, Error> {
    if f.rows > 0 then Ok(true) else if f.fails.None? then Ok(false) else Err(f.fails.value)
  }

  /** The same for `next`, which fetches only if there is no row in hand. */
  function Answer(met: Result<Option<Front>, Error>, inHand: bool): Result<bool, Error> {
    if met.Err? then Err(met.error)
    else if met.value.None? || inHand then Ok(inHand)
    else FirstFetch(met.value.value)
  }

  /** The set once a row has been fetched. */
  function Less(f: Front): Front
    requires f.rows > 0
  {
    Front(f.rows - 1, f.fails)
  }

  /** Replies without output in front do not count. */
  lemma {:induction false} SkipSucceedIs(rs: seq<Reply>, i: nat)
    requires i <= |rs| && (forall j | 0 <= j < i :: rs[j].Succeed?) && (i < |rs| ==> !rs[i].Succeed?)
    ensures SkipSucceed(rs) == rs[i..]
  {
    if i > 0 {
      SkipSucceedIs(rs[1..], i - 1);
      assert rs[1..][i - 1..] == rs[i..];
    }
  }

  /** Whether anything is left at the server once the first result has been
      asked for: not if there is none, nor after CS_FAIL and a cancel. */
  predicate LeavesUnread(rs: seq<Reply>, cancelRet: CtRet) {
    var rest := SkipSucceed(rs);
    rest != [] && (rest[0] == Failing(ResultsFailed) ==> cancelRet != Success)
  }
}
