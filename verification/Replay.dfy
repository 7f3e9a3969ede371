/**
 The meaning of reading a command's output: a fold over its reply stream
 (`command::readOutput`, src/command.cpp, with the accumulation rules of
 src/resultfactory.h and src/utils.h). The driver keeps the column description
 of one result set for the next, so the fold carries that cache along.
 */
module Replay {
  import opened Wrappers
  import opened Decimal
  import opened Values
  import opened Columns
  import opened Replies

  // -------------------------------------------------------------- the cache

  /** The described columns, the buffers, and whether the buffers are bound to
      the result set being read. */
  datatype Cache = Cache(dirty: bool, fmt: seq<ColDesc>, cells: seq<Raw>, bound: bool)

  const NO_CACHE := Cache(true, [], [], false)

  /** One buffer per described column; a bound cache describes its set. */
  ghost predicate Fits(c: Cache, s: ResultSet) {
    |c.cells| == |c.fmt| && (c.bound ==> c.fmt == s.desc)
  }

  function Blanks(n: nat): (s: seq<Raw>)
    ensures |s| == n
  {
    seq(n, _ => [])
  }

  /** `retr_colinfo` */
  function Retrieved(s: ResultSet): Result<Cache, Error> {
    if s.desc == [] then Err(NoColumns) else Ok(Cache(false, s.desc, Blanks(|s.desc|), true))
  }

  /** `ensure_colinfo` */
  function Ensured(c: Cache, s: ResultSet): Result<Cache, Error> {
    if c.dirty || c.fmt == [] then Retrieved(s) else Ok(c)
  }

  /** The rows a reader finds in the buffers, one after each fetch. */
  function Seen(c: Cache, rows: seq<seq<Raw>>): (seen: seq<seq<Raw>>)
    ensures |seen| == |rows|
  {
    if c.bound then rows else seq(|rows|, _ => c.cells)
  }

  function AfterRows(c: Cache, rows: seq<seq<Raw>>): Cache {
    c.(cells := if c.bound && rows != [] then rows[|rows| - 1] else c.cells)
  }

  /** Fetching one row more: the buffers then hold what is seen of that row. */
  lemma AfterNextRow(c: Cache, rows: seq<seq<Raw>>, k: nat)
    requires k < |rows|
    ensures AfterRows(AfterRows(c, rows[..k]), rows[k..][..1]) == AfterRows(c, rows[..k + 1])
    ensures AfterRows(c, rows[..k + 1]).cells == Seen(c, rows)[k]
    ensures Seen(c, rows[..k]) == Seen(c, rows)[..k]
  {
    assert rows[k..][..1] == [rows[k]];
  }

  // --------------------------------------------------- the value of one set

  /** `list`: rows as hashes rather than columns as lists; `cols`: a column
      hash even without rows; `single`: at most one row is acceptable. */
  datatype Mode = Mode(list: bool, cols: bool, single: bool)

  function RowHashes(c: Cache, ph: seq<string>, seen: seq<seq<Raw>>): (vs: seq<Value>)
    requires Wide(seen, |c.fmt|)
    ensures |vs| == |seen|
  {
    seq(|seen|, j requires 0 <= j < |seen| => RowHash(c.fmt, ph, seen[j]))
  }

  /** No row is nothing, one row is itself, more rows are a list. */
  function Smart(vs: seq<Value>): Value {
    if vs == [] then Nothing else if |vs| == 1 then vs[0] else List(vs)
  }

  function Ended(end: FetchEnd, v: Value): Result<Value, Error> {
    if end.FetchFails? then Err(end.error) else Ok(v)
  }

  function RowsValue(c: Cache, s: ResultSet, ph: seq<string>, single: bool): Result<Value, Error>
    requires Wide(Seen(c, s.rows), |c.fmt|)
  {
    if single && |s.rows| >= 2 then Err(MoreThanOneRow)
    else Ended(s.end, Smart(RowHashes(c, ph, Seen(c, s.rows))))
  }

  function ColsValue(c: Cache, s: ResultSet, ph: seq<string>, cols: bool): Result<Value, Error>
    requires Wide(Seen(c, s.rows), |c.fmt|)
  {
    Ended(s.end, if cols || s.rows != [] then ColumnHash(c.fmt, ph, Seen(c, s.rows)) else Hash([]))
  }

  function SetValue(c: Cache, s: ResultSet, mode: Mode): Result<Value, Error>
    requires Wide(Seen(c, s.rows), |c.fmt|)
  {
    if mode.list then RowsValue(c, s, [], mode.single) else ColsValue(c, s, [], mode.cols)
  }

  // ------------------------------------------------------- the accumulation

  /** The result factory: parameter sets, results, and the last value added
      since the previous DONE. */
  datatype Acc = Acc(params: seq<Value>, results: seq<Value>, last: Value)

  const EMPTY := Acc([], [], Nothing)

  function AddParams(a: Acc, v: Value): Acc {
    Acc(a.params + [v], a.results, v)
  }

  function AddResult(a: Acc, v: Value): Acc {
    Acc(a.params, a.results + [v], v)
  }

  /** A DONE contributes its row count only if it is positive and nothing was
      returned before it. */
  function AddDone(a: Acc, count: int): Acc {
    Acc(a.params, if count > 0 && a.last == Nothing then a.results + [Count(count)] else a.results, Nothing)
  }

  function QueryKey(i: nat): string {
    "query" + Digits(i)
  }

  lemma QueryKeysDistinct(i: nat, j: nat)
    requires QueryKey(i) == QueryKey(j)
    ensures i == j
  {
    assert QueryKey(i)[5..] == Digits(i) && QueryKey(j)[5..] == Digits(j);
    DigitsInjective(i, j);
  }

  function QueryHash(vs: seq<Value>): Value {
    Hash(seq(|vs|, i requires 0 <= i < |vs| => Entry(QueryKey(i), vs[i])))
  }

  /** `release_smart` */
  function Released(vs: seq<Value>): Value {
    if vs == [] then Nothing else if |vs| == 1 then vs[0] else QueryHash(vs)
  }

  function Shape(params: seq<Value>, results: seq<Value>): Value {
    if params == [] then Released(results)
    else if results == [] then Released(params)
    else Hash([Entry("query", Released(results)), Entry("params", Released(params))])
  }

  // --------------------------------------------------------------- the fold

  datatype Folding = Folding(cache: Cache, acc: Acc)

  ghost predicate FitsStream(c: Cache, rs: seq<Reply>) {
    && |c.cells| == |c.fmt|
    && ValidStream(rs)
    && (c.bound ==> rs != [] && rs[0].Rows? && c.fmt == rs[0].resultSet.desc)
  }

  /** The cache once a set has been drained. */
  function Drained(c: Cache, s: ResultSet): Cache {
    AfterRows(c, s.rows).(bound := false)
  }

  lemma SeenWide(c: Cache, s: ResultSet)
    requires s.Valid() && Fits(c, s)
    ensures Wide(Seen(c, s.rows), |c.fmt|)
  {
  }

  function ProcessSet(s: ResultSet, f: Folding, mode: Mode, ph: seq<string>): (r: Result<Folding, Error>)
    requires s.Valid() && Fits(f.cache, s)
    ensures r.Ok? ==> !r.value.cache.bound && |r.value.cache.cells| == |r.value.cache.fmt|
  {
    var c := if s.kind == RowSet then Ensured(f.cache, s) else Retrieved(s);
    if c.Err? then Err(c.error)
    else
      SeenWide(c.value, s);
      match s.kind
      case RowSet =>
        var v := SetValue(c.value, s, mode);
        if v.Err? then Err(v.error) else Ok(Folding(Drained(c.value, s), AddResult(f.acc, v.value)))
      case ParamSet =>
        var v := RowsValue(c.value, s, ph, false);
        if v.Err? then Err(v.error) else Ok(Folding(Drained(c.value, s), AddParams(f.acc, v.value)))
      case StatusSet =>
        var v := SetValue(c.value, s, Mode(mode.list, false, false));
        if v.Err? then Err(v.error) else Ok(Folding(Drained(c.value, s).(dirty := true), f.acc))
  }

  function Process(reply: Reply, f: Folding, mode: Mode, ph: seq<string>): (r: Result<Folding, Error>)
    requires FitsStream(f.cache, [reply])
    ensures r.Ok? ==> !r.value.cache.bound && |r.value.cache.cells| == |r.value.cache.fmt|
  {
    match reply
    case Rows(s) =>
      assert [reply][0].resultSet.Valid();
      ProcessSet(s, f, mode, ph)
    case Done(None) => Err(NoRowCount)
    case Done(Some(n)) => Ok(Folding(f.cache.(dirty := true), AddDone(f.acc, n)))
    case Succeed => Ok(f)
    case Failing(e) => Err(e)
  }

  /** What reading the replies yields. */
  function Fold(rs: seq<Reply>, f: Folding, mode: Mode, ph: seq<string>): Result<Value, Error>
    requires FitsStream(f.cache, rs)
    decreases |rs|
  {
    if rs == [] then Ok(Shape(f.acc.params, f.acc.results))
    else
      assert [rs[0]][0] == rs[0];
      var r := Process(rs[0], f, mode, ph);
      if r.Err? then Err(r.error)
      else
        assert FitsStream(r.value.cache, rs[1..]);
        Fold(rs[1..], r.value, mode, ph)
  }

  lemma FoldStep(rs: seq<Reply>, f: Folding, mode: Mode, ph: seq<string>)
    requires FitsStream(f.cache, rs) && rs != []
    ensures FitsStream(f.cache, [rs[0]])
    ensures var r := Process(rs[0], f, mode, ph);
            if r.Err? then Fold(rs, f, mode, ph) == Err(r.error)
            else FitsStream(r.value.cache, rs[1..]) && Fold(rs, f, mode, ph) == Fold(rs[1..], r.value, mode, ph)
  {
    assert [rs[0]][0] == rs[0];
  }

  /** The state of the fold after the first `k` replies, read with a new
      command. */
  function FoldTo(rs: seq<Reply>, k: nat, mode: Mode, ph: seq<string>): (r: Result<Folding, Error>)
    requires ValidStream(rs) && k <= |rs|
    ensures r.Ok? ==> !r.value.cache.bound && |r.value.cache.cells| == |r.value.cache.fmt|
  {
    if k == 0 then Ok(Folding(NO_CACHE, EMPTY))
    else
      var r := FoldTo(rs, k - 1, mode, ph);
      if r.Err? then r
      else
        assert [rs[k - 1]][0] == rs[k - 1];
        Process(rs[k - 1], r.value, mode, ph)
  }

  lemma {:induction false} FoldSplits(rs: seq<Reply>, k: nat, mode: Mode, ph: seq<string>)
    requires ValidStream(rs) && k <= |rs|
    ensures FitsStream(NO_CACHE, rs)
    ensures var to := FoldTo(rs, k, mode, ph);
            var whole := Fold(rs, Folding(NO_CACHE, EMPTY), mode, ph);
            if to.Err? then whole == Err(to.error)
            else FitsStream(to.value.cache, rs[k..]) && whole == Fold(rs[k..], to.value, mode, ph)
  {
    if k == 0 {
      assert rs[0..] == rs;
    } else {
      FoldSplits(rs, k - 1, mode, ph);
      var before := FoldTo(rs, k - 1, mode, ph);
      if before.Ok? {
        assert rs[k - 1..][0] == rs[k - 1] && rs[k - 1..][1..] == rs[k..];
        FoldStep(rs[k - 1..], before.value, mode, ph);
      }
    }
  }
}
