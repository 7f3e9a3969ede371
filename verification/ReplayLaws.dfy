/**
 What the fold over a reply stream means, said without its accumulators and
 without the column cache: the contribution of every reply by its position.
 */
module ReplayLaws {
  import opened Wrappers
  import opened Decimal
  import opened Values
  import opened Columns
  import opened Replies
  import opened Replay

  /** The cache of a set that has just been described. */
  function Own(s: ResultSet): Cache {
    Cache(false, s.desc, Blanks(|s.desc|), true)
  }

  /** What a set comes to when it is read under its own description. */
  function OwnValue(s: ResultSet, mode: Mode, ph: seq<string>): Result<Value, Error>
    requires s.Valid()
  {
    if s.desc == [] then Err(NoColumns)
    else match s.kind
      case RowSet => SetValue(Own(s), s, mode)
      case ParamSet => RowsValue(Own(s), s, ph, false)
      case StatusSet => SetValue(Own(s), s, Mode(mode.list, false, false))
  }

  predicate IsKind(reply: Reply, kind: SetKind) {
    reply.Rows? && reply.resultSet.kind == kind
  }

  /** A row or parameter set. */
  predicate IsData(reply: Reply) {
    reply.Rows? && reply.resultSet.kind != StatusSet
  }

  // ------------------------------------------- the description in force

  /** No row or parameter set before position `i`, or a DONE or a status since
      the last one: a row set at `i` is read under its own description. */
  predicate Described(rs: seq<Reply>, i: nat)
    requires i <= |rs|
  {
    i == 0 || rs[i - 1].Done? || IsKind(rs[i - 1], StatusSet) || (!IsData(rs[i - 1]) && Described(rs, i - 1))
  }

  /** Otherwise, the set whose description and buffers are still in use: a
      parameter set is always described, a row set possibly not. */
  function Describer(rs: seq<Reply>, i: nat): (d: nat)
    requires i <= |rs| && !Described(rs, i)
    ensures d < i && IsData(rs[d]) && (IsKind(rs[d], ParamSet) || Described(rs, d))
  {
    if IsData(rs[i - 1]) && (IsKind(rs[i - 1], ParamSet) || Described(rs, i - 1)) then i - 1
    else Describer(rs, i - 1)
  }

  /** Described means that a DONE or a status comes after every row or parameter
      set before it. */
  lemma {:induction false} DescribedIff(rs: seq<Reply>, i: nat)
    requires i <= |rs|
    ensures Described(rs, i)
       <==> forall j | 0 <= j < i && rs[j].Rows? && rs[j].resultSet.kind != StatusSet ::
              exists k | j < k < i :: rs[k].Done? || (rs[k].Rows? && rs[k].resultSet.kind == StatusSet)
  {
    if i > 0 && !rs[i - 1].Done? && !IsKind(rs[i - 1], StatusSet) && !IsData(rs[i - 1]) {
      DescribedIff(rs, i - 1);
    }
  }

  /** The set in use is the last before `i` that was read under a description of
      its own, and nothing has come in between that would end its use. */
  lemma {:induction false} DescriberIs(rs: seq<Reply>, i: nat)
    requires i <= |rs| && !Described(rs, i)
    ensures var d := Describer(rs, i);
            && d < i && rs[d].Rows? && (rs[d].resultSet.kind == ParamSet || (IsData(rs[d]) && Described(rs, d)))
            && forall k | d < k < i ::
                 && !rs[k].Done? && (rs[k].Rows? ==> rs[k].resultSet.kind == RowSet)
                 && !Described(rs, k)
  {
    if !(IsData(rs[i - 1]) && (IsKind(rs[i - 1], ParamSet) || Described(rs, i - 1))) {
      DescriberIs(rs, i - 1);
    }
  }

  /** What the buffers hold of a set that has been read: its last row. */
  function LastCells(s: ResultSet): seq<Raw> {
    if s.rows == [] then Blanks(|s.desc|) else s.rows[|s.rows| - 1]
  }

  /** The cache a set leaves behind. */
  function Left(s: ResultSet): Cache {
    Cache(false, s.desc, LastCells(s), false)
  }

  lemma LeftSeenWide(s: ResultSet, rows: seq<seq<Raw>>)
    requires s.Valid()
    ensures Wide(Seen(Left(s), rows), |Left(s).fmt|)
  {
  }

  /** The set at `i` as it is shown: under its own description, or, row after
      row, as the last row of the set described before it. */
  function Shown(rs: seq<Reply>, i: nat, mode: Mode, ph: seq<string>): Result<Value, Error>
    requires ValidStream(rs) && i < |rs| && rs[i].Rows?
  {
    var s := rs[i].resultSet;
    if s.kind == RowSet && !Described(rs, i) then
      var d := rs[Describer(rs, i)].resultSet;
      LeftSeenWide(d, s.rows);
      SetValue(Left(d), s, mode)
    else OwnValue(s, mode, ph)
  }

  /** A set that is not described shows the other set's last row, once for
      every row of its own. */
  lemma StaleRows(d: ResultSet, s: ResultSet)
    requires d.Valid() && s.end == EndOfData
    ensures |LastCells(d)| == |d.desc| && Wide(Seen(Left(d), s.rows), |d.desc|)
    ensures d.rows != [] ==> LastCells(d) == d.rows[|d.rows| - 1]
    ensures d.rows == [] ==> forall cell | cell in LastCells(d) :: cell == []
    ensures RowsValue(Left(d), s, [], false) == Ok(Smart(seq(|s.rows|, _ => RowHash(d.desc, [], LastCells(d)))))
  {
    LeftSeenWide(d, s.rows);
    assert |LastCells(d)| == |d.desc|;
    assert RowHashes(Left(d), [], Seen(Left(d), s.rows)) == seq(|s.rows|, _ => RowHash(d.desc, [], LastCells(d)));
  }

  // --------------------------------------------------- reply by reply

  /** The error the reply at `i` stops the reading with, if it does. */
  function FailureAt(rs: seq<Reply>, i: nat, mode: Mode, ph: seq<string>): Option<Error>
    requires ValidStream(rs) && i < |rs|
  {
    match rs[i]
    case Rows(s) => (var v := Shown(rs, i, mode, ph); if v.Err? then Some(v.error) else None)
    case Done(count) => if count.None? then Some(NoRowCount) else None
    case Succeed => None
    case Failing(e) => Some(e)
  }

  ghost predicate NoFailure(rs: seq<Reply>, n: nat, mode: Mode, ph: seq<string>)
    requires ValidStream(rs) && n <= |rs|
  {
    forall i | 0 <= i < n :: FailureAt(rs, i, mode, ph).None?
  }

  /** The most recent row or parameter value before position `i`, as far back
      as the last DONE. */
  function LastValue(rs: seq<Reply>, i: nat, mode: Mode, ph: seq<string>): Value
    requires ValidStream(rs) && i <= |rs| && NoFailure(rs, i, mode, ph)
  {
    if i == 0 || rs[i - 1].Done? then Nothing
    else
      assert FailureAt(rs, i - 1, mode, ph).None?;
      if IsData(rs[i - 1]) then Shown(rs, i - 1, mode, ph).value else LastValue(rs, i - 1, mode, ph)
  }

  /** What the reply at `i` adds to the results: its rows, or a positive row
      count when the last value is nothing. */
  function ResultOf(rs: seq<Reply>, i: nat, mode: Mode, ph: seq<string>): seq<Value>
    requires ValidStream(rs) && i < |rs| && NoFailure(rs, i + 1, mode, ph)
  {
    assert FailureAt(rs, i, mode, ph).None?;
    if IsKind(rs[i], RowSet) then [Shown(rs, i, mode, ph).value]
    else if rs[i].Done? && rs[i].count.value > 0 && LastValue(rs, i, mode, ph) == Nothing
    then [Count(rs[i].count.value)]
    else []
  }

  /** What the reply at `i` adds to the parameters. */
  function ParamsOf(rs: seq<Reply>, i: nat, mode: Mode, ph: seq<string>): seq<Value>
    requires ValidStream(rs) && i < |rs| && NoFailure(rs, i + 1, mode, ph)
  {
    assert FailureAt(rs, i, mode, ph).None?;
    if IsKind(rs[i], ParamSet) then [Shown(rs, i, mode, ph).value] else []
  }

  function Results(rs: seq<Reply>, n: nat, mode: Mode, ph: seq<string>): seq<Value>
    requires ValidStream(rs) && n <= |rs| && NoFailure(rs, n, mode, ph)
  {
    if n == 0 then [] else Results(rs, n - 1, mode, ph) + ResultOf(rs, n - 1, mode, ph)
  }

  function Params(rs: seq<Reply>, n: nat, mode: Mode, ph: seq<string>): seq<Value>
    requires ValidStream(rs) && n <= |rs| && NoFailure(rs, n, mode, ph)
  {
    if n == 0 then [] else Params(rs, n - 1, mode, ph) + ParamsOf(rs, n - 1, mode, ph)
  }

  function AccAt(rs: seq<Reply>, k: nat, mode: Mode, ph: seq<string>): Acc
    requires ValidStream(rs) && k <= |rs| && NoFailure(rs, k, mode, ph)
  {
    Acc(Params(rs, k, mode, ph), Results(rs, k, mode, ph), LastValue(rs, k, mode, ph))
  }

  /** The cache the fold carries before the reply at `k` is due to be refreshed
      exactly if a row set there is described. */
  ghost predicate CacheOk(rs: seq<Reply>, k: nat, c: Cache)
    requires k <= |rs|
  {
    && !c.bound && |c.cells| == |c.fmt|
    && (c.dirty <==> Described(rs, k))
    && (!c.dirty ==> c == Left(rs[Describer(rs, k)].resultSet) && c.fmt != [])
  }

  /** One set, read from the cache carried to it. */
  lemma ProcessSetMeans(rs: seq<Reply>, k: nat, f: Folding, mode: Mode, ph: seq<string>)
    requires ValidStream(rs) && k < |rs| && rs[k].Rows? && CacheOk(rs, k, f.cache)
    ensures Fits(f.cache, rs[k].resultSet)
    ensures var s := rs[k].resultSet;
            var r := ProcessSet(s, f, mode, ph);
            var v := Shown(rs, k, mode, ph);
            if v.Err? then r == Err(v.error)
            else
              && r.Ok? && CacheOk(rs, k + 1, r.value.cache)
              && r.value.acc == (if s.kind == RowSet then AddResult(f.acc, v.value)
                                 else if s.kind == ParamSet then AddParams(f.acc, v.value)
                                 else f.acc)
  {
    var s := rs[k].resultSet;
    if s.kind == RowSet && !f.cache.dirty {
      assert Ensured(f.cache, s) == Ok(f.cache);
      assert Drained(f.cache, s) == f.cache;
    } else if s.desc != [] {
      assert Retrieved(s) == Ok(Own(s));
      assert Drained(Own(s), s) == Left(s);
    }
  }

  lemma ProcessMeans(rs: seq<Reply>, k: nat, c: Cache, mode: Mode, ph: seq<string>)
    requires ValidStream(rs) && k < |rs| && NoFailure(rs, k, mode, ph) && CacheOk(rs, k, c)
    ensures FitsStream(c, [rs[k]])
    ensures var r := Process(rs[k], Folding(c, AccAt(rs, k, mode, ph)), mode, ph);
            var e := FailureAt(rs, k, mode, ph);
            if e.Some? then r == Err(e.value)
            else
              && NoFailure(rs, k + 1, mode, ph)
              && r.Ok? && r.value.acc == AccAt(rs, k + 1, mode, ph) && CacheOk(rs, k + 1, r.value.cache)
  {
    assert [rs[k]][0] == rs[k];
    var acc := AccAt(rs, k, mode, ph);
    assert acc.params + [] == acc.params && acc.results + [] == acc.results;
    if rs[k].Rows? {
      ProcessSetMeans(rs, k, Folding(c, acc), mode, ph);
    }
    if FailureAt(rs, k, mode, ph).None? {
      assert NoFailure(rs, k + 1, mode, ph);
    }
  }

  /** The state of the fold after `k` replies. */
  lemma {:induction false} FoldToMeans(rs: seq<Reply>, k: nat, mode: Mode, ph: seq<string>)
    requires ValidStream(rs) && k <= |rs|
    ensures var r := FoldTo(rs, k, mode, ph);
            && (r.Ok? <==> NoFailure(rs, k, mode, ph))
            && (r.Ok? ==> r.value.acc == AccAt(rs, k, mode, ph) && CacheOk(rs, k, r.value.cache))
            && (r.Err? ==> exists i | 0 <= i < k ::
                  NoFailure(rs, i, mode, ph) && FailureAt(rs, i, mode, ph) == Some(r.error))
  {
    if k > 0 {
      FoldToMeans(rs, k - 1, mode, ph);
      var before := FoldTo(rs, k - 1, mode, ph);
      if before.Ok? {
        ProcessMeans(rs, k - 1, before.value.cache, mode, ph);
      }
    }
  }

  /** Reading any stream with a new command: it fails exactly when some reply
      fails, with the error of the first that does; otherwise it yields the
      parameter values and the results of all replies in order, every set as it
      is shown. */
  lemma ReadOutputMeans(rs: seq<Reply>, mode: Mode, ph: seq<string>)
    requires ValidStream(rs)
    ensures FitsStream(NO_CACHE, rs)
    ensures var r := Fold(rs, Folding(NO_CACHE, EMPTY), mode, ph);
            && (r.Ok? <==> NoFailure(rs, |rs|, mode, ph))
            && (r.Ok? ==> r.value == Shape(Params(rs, |rs|, mode, ph), Results(rs, |rs|, mode, ph)))
            && (r.Err? ==> exists i | 0 <= i < |rs| ::
                  NoFailure(rs, i, mode, ph) && FailureAt(rs, i, mode, ph) == Some(r.error))
  {
    FoldSplits(rs, |rs|, mode, ph);
    FoldToMeans(rs, |rs|, mode, ph);
  }

  // ---------------------------------------------------- under its own description

  /** Every row set is separated by a DONE or a status from the row or parameter
      set before it. */
  predicate Separated(rs: seq<Reply>) {
    forall i | 0 <= i < |rs| && IsKind(rs[i], RowSet) :: Described(rs, i)
  }

  /** In a separated stream, every set is shown under its own description. */
  lemma SeparatedShowsOwn(rs: seq<Reply>, i: nat, mode: Mode, ph: seq<string>)
    requires ValidStream(rs) && Separated(rs) && i < |rs| && rs[i].Rows?
    ensures Shown(rs, i, mode, ph) == OwnValue(rs[i].resultSet, mode, ph)
  {
  }

  /** In the reading of any stream, a row set that is reached gets a description
      and buffers of its own exactly if it is described; otherwise it is read
      with the description and the last row of an earlier set. */
  lemma RefreshedIffDescribed(rs: seq<Reply>, k: nat, mode: Mode, ph: seq<string>)
    requires ValidStream(rs) && k < |rs| && IsKind(rs[k], RowSet) && rs[k].resultSet.desc != []
    requires FoldTo(rs, k, mode, ph).Ok?
    ensures var s := rs[k].resultSet;
            var used := Ensured(FoldTo(rs, k, mode, ph).value.cache, s);
            && (used == Ok(Own(s)) <==> Described(rs, k))
            && (!Described(rs, k) ==> used == Ok(Left(rs[Describer(rs, k)].resultSet)))
  {
    FoldToMeans(rs, k, mode, ph);
  }

  // --------------------------------------------------------------- row counts

  /** A row or parameter set that comes to nothing. */
  predicate Blank(s: ResultSet, mode: Mode) {
    s.rows == [] && (s.kind == ParamSet || mode.list)
  }

  lemma BlankShowsNothing(rs: seq<Reply>, i: nat, mode: Mode, ph: seq<string>)
    requires ValidStream(rs) && i < |rs| && IsData(rs[i]) && Shown(rs, i, mode, ph).Ok?
    ensures Shown(rs, i, mode, ph).value == Nothing <==> Blank(rs[i].resultSet, mode)
  {
  }

  /** The set at `j` lies before `i`, with no DONE between them. */
  predicate Since(rs: seq<Reply>, j: nat, i: nat)
    requires i <= |rs|
  {
    j < i && IsData(rs[j]) && forall k | j <= k < i :: !rs[k].Done?
  }

  /** Nothing has been returned before `i` since the last DONE. */
  predicate NothingReturned(rs: seq<Reply>, i: nat, mode: Mode)
    requires i <= |rs|
  {
    forall j | 0 <= j < i && Since(rs, j, i) :: Blank(rs[j].resultSet, mode)
  }

  /** The last of the sets since the last DONE has no rows, an earlier one has. */
  predicate EndsBlank(rs: seq<Reply>, i: nat, mode: Mode)
    requires i <= |rs|
  {
    exists j | 0 <= j < i && Since(rs, j, i) && Blank(rs[j].resultSet, mode) ::
      && (forall k | j < k < i :: !IsData(rs[k]))
      && !NothingReturned(rs, j, mode)
  }

  /** A reply that is neither a DONE nor a row or parameter set changes nothing
      of what has been returned. */
  lemma OtherReply(rs: seq<Reply>, n: nat, mode: Mode)
    requires n < |rs| && !rs[n].Done? && !IsData(rs[n])
    ensures NothingReturned(rs, n + 1, mode) <==> NothingReturned(rs, n, mode)
    ensures EndsBlank(rs, n + 1, mode) <==> EndsBlank(rs, n, mode)
  {
    assert forall j | 0 <= j < n :: Since(rs, j, n + 1) <==> Since(rs, j, n);
    assert !Since(rs, n, n + 1);
  }

  lemma DataReply(rs: seq<Reply>, n: nat, mode: Mode)
    requires n < |rs| && IsData(rs[n])
    ensures NothingReturned(rs, n + 1, mode) || EndsBlank(rs, n + 1, mode) <==> Blank(rs[n].resultSet, mode)
  {
    assert Since(rs, n, n + 1);
    if Blank(rs[n].resultSet, mode) && !NothingReturned(rs, n + 1, mode) {
      var j :| 0 <= j < n + 1 && Since(rs, j, n + 1) && !Blank(rs[j].resultSet, mode);
      assert j < n && Since(rs, j, n);
    }
  }

  lemma {:induction false} LastValueIs(rs: seq<Reply>, i: nat, mode: Mode, ph: seq<string>)
    requires ValidStream(rs) && i <= |rs| && NoFailure(rs, i, mode, ph)
    ensures LastValue(rs, i, mode, ph) == Nothing <==> NothingReturned(rs, i, mode) || EndsBlank(rs, i, mode)
  {
    if i > 0 && !rs[i - 1].Done? {
      assert FailureAt(rs, i - 1, mode, ph).None?;
      if IsData(rs[i - 1]) {
        BlankShowsNothing(rs, i - 1, mode, ph);
        DataReply(rs, i - 1, mode);
      } else {
        LastValueIs(rs, i - 1, mode, ph);
        OtherReply(rs, i - 1, mode);
      }
    }
  }

  /** A positive row count is meant to be added when nothing was returned for
      its command. That is what happens unless the command's last set has no
      rows and an earlier one has: then it is added all the same. */
  lemma CountRuleIff(rs: seq<Reply>, i: nat, mode: Mode, ph: seq<string>)
    requires ValidStream(rs) && i < |rs| && NoFailure(rs, i + 1, mode, ph)
    requires rs[i].Done? && rs[i].count.Some? && rs[i].count.value > 0
    ensures (ResultOf(rs, i, mode, ph) == [Count(rs[i].count.value)] <==> NothingReturned(rs, i, mode))
       <==> !EndsBlank(rs, i, mode)
    ensures EndsBlank(rs, i, mode) ==> ResultOf(rs, i, mode, ph) == [Count(rs[i].count.value)]
  {
    assert NoFailure(rs, i, mode, ph);
    LastValueIs(rs, i, mode, ph);
    if EndsBlank(rs, i, mode) {
      var j :| 0 <= j < i && Since(rs, j, i) && Blank(rs[j].resultSet, mode)
               && (forall k | j < k < i :: !IsData(rs[k])) && !NothingReturned(rs, j, mode);
      var k :| 0 <= k < j && Since(rs, k, j) && !Blank(rs[k].resultSet, mode);
      assert Since(rs, k, i);
    }
  }

  /** Several results lie under "query0", "query1", ... in order, none hidden
      by another. */
  lemma QueryHashHolds(vs: seq<Value>, i: nat)
    requires i < |vs|
    ensures var h := QueryHash(vs).entries;
            && |h| == |vs| && Distinct(Keys(h))
            && h[i] == Entry("query" + Digits(i), vs[i])
            && h[i].key in Keys(h) && Lookup(h, h[i].key) == vs[i]
  {
    var h := QueryHash(vs).entries;
    forall j, k | 0 <= j < k < |h| ensures Keys(h)[j] != Keys(h)[k] {
      if QueryKey(j) == QueryKey(k) {
        QueryKeysDistinct(j, k);
      }
    }
    LookupDistinct(h, i);
  }

  /** Parameters and results together are kept apart under two keys. */
  lemma ShapeOfBoth(params: seq<Value>, results: seq<Value>)
    requires params != [] && results != []
    ensures var v := Shape(params, results);
            && v.Hash? && "query" in Keys(v.entries) && "params" in Keys(v.entries)
            && Lookup(v.entries, "query") == Released(results)
            && Lookup(v.entries, "params") == Released(params)
  {
    var h := Shape(params, results).entries;
    assert Keys(h)[0] == "query" && Keys(h)[1] == "params";
    assert "query"[0] != "params"[0];
    LookupDistinct(h, 0);
    LookupDistinct(h, 1);
  }

  // ------------------------------------------------------------ sets by rows

  /** A set read under its own description, as a list of row hashes. */
  lemma OwnRows(s: ResultSet, ph: seq<string>, single: bool)
    requires s.Valid() && s.end == EndOfData
    ensures RowsValue(Own(s), s, ph, single)
         == if single && |s.rows| >= 2 then Err(MoreThanOneRow)
            else Ok(Smart(seq(|s.rows|, j requires 0 <= j < |s.rows| => RowHash(s.desc, ph, s.rows[j]))))
  {
    assert RowHashes(Own(s), ph, s.rows)
        == seq(|s.rows|, j requires 0 <= j < |s.rows| => RowHash(s.desc, ph, s.rows[j]));
  }

  /** A reader that stopped after `n` rows, as `read_cols` with a positive count
      does, goes on with exactly the rows after them. */
  lemma ReadingContinues(c: Cache, s: ResultSet, n: nat)
    requires s.Valid() && Fits(c, s) && c.fmt != [] && !c.dirty && n <= |s.rows|
    ensures var c' := AfterRows(c, s.rows[..n]);
            && Ensured(c', s.(rows := s.rows[n..])) == Ok(c')
            && Seen(c', s.rows[n..]) == Seen(c, s.rows)[n..]
            && Seen(c, s.rows[..n]) == Seen(c, s.rows)[..n]
  {
  }

  function Sum(counts: seq<nat>): nat {
    if counts == [] then 0 else counts[0] + Sum(counts[1..])
  }

  /** What successive calls of `read_cols` return for positive counts, as long
      as there are rows: each goes on with the open set and the cache the one
      before it left. */
  function SliceCalls(c: Cache, s: ResultSet, ph: seq<string>, counts: seq<nat>): (vs: seq<Value>)
    requires s.Valid() && Fits(c, s) && Ensured(c, s).Ok? && 0 !in counts && Sum(counts) <= |s.rows|
    ensures |vs| == |counts|
    decreases |counts|
  {
    if counts == [] then []
    else
      var e, n := Ensured(c, s).value, counts[0];
      SeenWide(e, s);
      ReadingContinues(e, s, n);
      var rest := s.(rows := s.rows[n..]);
      [ColumnHash(e.fmt, ph, Seen(e, s.rows)[..n])] + SliceCalls(AfterRows(e, s.rows[..n]), rest, ph, counts[1..])
  }

  /** The lists of column `i`, one slice after the other. */
  function JoinedColumn(vs: seq<Value>, i: nat): seq<Value> {
    if vs == [] then []
    else
      var v := vs[0];
      (if v.Hash? && i < |v.entries| && v.entries[i].value.List? then v.entries[i].value.items else [])
      + JoinedColumn(vs[1..], i)
  }

  /** Rows cut into consecutive slices, every slice as columns. */
  function CutColumns(descs: seq<ColDesc>, ph: seq<string>, rows: seq<seq<Raw>>, counts: seq<nat>): seq<Value>
    requires Wide(rows, |descs|) && Sum(counts) <= |rows|
    decreases |counts|
  {
    if counts == [] then []
    else [ColumnHash(descs, ph, rows[..counts[0]])] + CutColumns(descs, ph, rows[counts[0]..], counts[1..])
  }

  lemma {:induction false} CallsCut(c: Cache, s: ResultSet, ph: seq<string>, counts: seq<nat>)
    requires s.Valid() && Fits(c, s) && Ensured(c, s).Ok? && 0 !in counts && Sum(counts) <= |s.rows|
    ensures var e := Ensured(c, s).value;
            && Wide(Seen(e, s.rows), |e.fmt|)
            && SliceCalls(c, s, ph, counts) == CutColumns(e.fmt, ph, Seen(e, s.rows), counts)
    decreases |counts|
  {
    var e := Ensured(c, s).value;
    SeenWide(e, s);
    if counts != [] {
      ReadingContinues(e, s, counts[0]);
      CallsCut(AfterRows(e, s.rows[..counts[0]]), s.(rows := s.rows[counts[0]..]), ph, counts[1..]);
    }
  }

  lemma {:induction false} CutJoins(descs: seq<ColDesc>, ph: seq<string>, rows: seq<seq<Raw>>, counts: seq<nat>, i: nat)
    requires Wide(rows, |descs|) && Sum(counts) <= |rows| && i < |descs|
    ensures forall v | v in CutColumns(descs, ph, rows, counts) :: v.Hash? && Keys(v.entries) == ColumnKeys(descs, ph)
    ensures JoinedColumn(CutColumns(descs, ph, rows, counts), i) == ColumnOf(descs[i], i, rows[..Sum(counts)]).items
    decreases |counts|
  {
    if counts != [] {
      var n, m := counts[0], Sum(counts[1..]);
      CutJoins(descs, ph, rows[n..], counts[1..], i);
      SlicesJoin(descs, ph, rows[..n + m], n, i);
      assert rows[..n + m][..n] == rows[..n] && rows[..n + m][n..] == rows[n..][..m];
      var vs := CutColumns(descs, ph, rows, counts);
      assert vs[1..] == CutColumns(descs, ph, rows[n..], counts[1..]);
    }
  }

  /** However many calls read the rows of a set, every slice has the same keys,
      and the slices of a column join to that column of all the rows read, none
      lost or repeated. */
  lemma SliceCallsJoin(c: Cache, s: ResultSet, ph: seq<string>, counts: seq<nat>, i: nat)
    requires s.Valid() && Fits(c, s) && Ensured(c, s).Ok? && 0 !in counts && Sum(counts) <= |s.rows|
    requires i < |Ensured(c, s).value.fmt|
    ensures var e := Ensured(c, s).value;
            && Wide(Seen(e, s.rows), |e.fmt|)
            && (forall v | v in SliceCalls(c, s, ph, counts) :: v.Hash? && Keys(v.entries) == ColumnKeys(e.fmt, ph))
            && JoinedColumn(SliceCalls(c, s, ph, counts), i)
               == ColumnOf(e.fmt[i], i, Seen(e, s.rows)[..Sum(counts)]).items
  {
    CallsCut(c, s, ph, counts);
    var e := Ensured(c, s).value;
    CutJoins(e.fmt, ph, Seen(e, s.rows), counts, i);
  }

  /** One row, a status, an empty row set, and a DONE that counts one row: the
      count is added although a row has been returned. */
  lemma CountAfterRows(d: ColDesc, e: ColDesc, row: seq<Raw>, status: seq<Raw>)
    requires |row| == 1 && |status| == 1
    ensures var mode := Mode(true, false, false);
            var s := ResultSet(RowSet, [d], [row], EndOfData);
            var t := ResultSet(StatusSet, [e], [status], EndOfData);
            var u := ResultSet(RowSet, [d], [], EndOfData);
            var rs := [Rows(s), Rows(t), Rows(u), Done(Some(1))];
            && ValidStream(rs) && Separated(rs) && NoFailure(rs, 4, mode, [])
            && EndsBlank(rs, 3, mode)
            && Results(rs, 4, mode, []) == [RowHash([d], [], row), Nothing, Count(1)]
  {
    var mode := Mode(true, false, false);
    var s := ResultSet(RowSet, [d], [row], EndOfData);
    var t := ResultSet(StatusSet, [e], [status], EndOfData);
    var u := ResultSet(RowSet, [d], [], EndOfData);
    var rs := [Rows(s), Rows(t), Rows(u), Done(Some(1))];
    assert ValidStream(rs) && Separated(rs);
    OwnRows(s, [], false);
    OwnRows(t, [], false);
    OwnRows(u, [], false);
    var v := RowHash([d], [], row);
    assert seq(1, j requires 0 <= j < 1 => RowHash(s.desc, [], s.rows[j])) == [v];
    assert Shown(rs, 0, mode, []) == Ok(v) && Shown(rs, 1, mode, []).Ok? && Shown(rs, 2, mode, []) == Ok(Nothing);
    assert NoFailure(rs, 4, mode, []);
    assert Since(rs, 0, 2) && Since(rs, 2, 3);
    assert EndsBlank(rs, 3, mode);
    CountRuleIff(rs, 3, mode, []);
    assert Results(rs, 1, mode, []) == [] + [v];
    assert Results(rs, 2, mode, []) == [v] + [];
    assert Results(rs, 3, mode, []) == [v] + [Nothing];
  }

  /** Without a DONE or a status between them, a second row set is decoded
      with the description, and from the buffers, of the first. */
  lemma UnseparatedRowsMisread()
    ensures var s := ResultSet(RowSet, [ColDesc("a", 1)], [[[1]]], EndOfData);
            var t := ResultSet(RowSet, [ColDesc("b", 2)], [[[2]]], EndOfData);
            var mode := Mode(true, false, false);
            && ValidStream([Rows(s), Rows(t)])
            && FitsStream(NO_CACHE, [Rows(s), Rows(t)])
            && Fold([Rows(s), Rows(t)], Folding(NO_CACHE, EMPTY), mode, [])
               == Ok(QueryHash([RowHash(s.desc, [], [[1]]), RowHash(s.desc, [], [[1]])]))
  {
    var s := ResultSet(RowSet, [ColDesc("a", 1)], [[[1]]], EndOfData);
    var t := ResultSet(RowSet, [ColDesc("b", 2)], [[[2]]], EndOfData);
    var mode := Mode(true, false, false);
    var rs := [Rows(s), Rows(t)];
    var c := Cache(false, s.desc, [[1]], false);
    var v := RowHash(s.desc, [], [[1]]);
    assert RowHashes(Own(s), [], s.rows) == [v];
    assert Process(rs[0], Folding(NO_CACHE, EMPTY), mode, []) == Ok(Folding(c, AddResult(EMPTY, v)));
    assert Seen(c, t.rows) == [[[1]]];
    assert RowHashes(c, [], [[[1]]]) == [v];
    assert rs[1..] == [Rows(t)] && rs[1..][1..] == [];
    var f := Folding(c, AddResult(EMPTY, v));
    assert FitsStream(c, rs[1..]);
    var g := Folding(c, AddResult(AddResult(EMPTY, v), v));
    assert Process(rs[1], f, mode, []) == Ok(g);
    assert Fold(rs[1..][1..], g, mode, []) == Ok(Shape([], [] + [v] + [v]));
    assert [] + [v] + [v] == [v, v];
  }
}
