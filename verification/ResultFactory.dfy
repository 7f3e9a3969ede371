/** The accumulator `readOutput` adds results to (src/resultfactory.h), and the
    vectors it keeps them in (`RefHolderVector`, src/utils.h). */
module ResultFactory {
  import opened Decimal
  import opened Values
  import opened Replay

  /** `setKeyValue`: overwrites the value under an existing key, otherwise adds
      an entry at the end. */
  function SetKeyValue(h: seq<Entry>, key: string, value: Value): seq<Entry> {
    if h == [] then [Entry(key, value)]
    else if h[0].key == key then [Entry(key, value)] + h[1..]
    else [h[0]] + SetKeyValue(h[1..], key, value)
  }

  lemma {:induction false} SetNewKey(h: seq<Entry>, key: string, value: Value)
    requires key !in Keys(h)
    ensures SetKeyValue(h, key, value) == h + [Entry(key, value)]
  {
    if h != [] {
      assert Keys(h)[0] == h[0].key;
      assert Keys(h[1..]) == Keys(h)[1..];
      SetNewKey(h[1..], key, value);
      assert h == [h[0]] + h[1..];
    }
  }

  class RefHolderVector {
    var v: seq<Value>

    constructor ()
      ensures v == []
    {
      v := [];
    }

    method PushBack(n: Value)
      modifies this
      ensures v == old(v) + [n]
    {
      v := v + [n];
    }

    method ReleaseToHash() returns (r: Value)
      modifies this
      ensures r == QueryHash(old(v)) && v == []
    {
      var h: seq<Entry> := [];
      for i := 0 to |v|
        invariant v == old(v)
        invariant Hash(h) == QueryHash(v[..i])
      {
        assert QueryKey(i) !in Keys(h) by {
          if QueryKey(i) in Keys(h) {
            var j :| 0 <= j < |h| && Keys(h)[j] == QueryKey(i);
            QueryKeysDistinct(i, j);
          }
        }
        SetNewKey(h, QueryKey(i), v[i]);
        h := SetKeyValue(h, "query" + Digits(i), v[i]);
      }
      assert v[..|v|] == v;
      v := [];
      return Hash(h);
    }

    method ReleaseSmart() returns (r: Value)
      modifies this
      ensures r == Released(old(v)) && v == []
    {
      if v == [] {
        return Nothing;
      }
      if |v| == 1 {
        r := v[0];
        v := [];
        return;
      }
      r := ReleaseToHash();
    }
  }

  class Factory {
    const params: RefHolderVector
    const reslist: RefHolderVector
    var last: Value

    ghost predicate Valid()
      reads this
    {
      params != reslist
    }

    function Contents(): Acc
      reads this, params, reslist
    {
      Acc(params.v, reslist.v, last)
    }

    constructor ()
      ensures Valid() && Contents() == EMPTY
      ensures fresh(params) && fresh(reslist)
    {
      params := new RefHolderVector();
      reslist := new RefHolderVector();
      last := Nothing;
    }

    method AddParams(v: Value)
      requires Valid()
      modifies this, params
      ensures Valid() && Contents() == Replay.AddParams(old(Contents()), v)
    {
      params.PushBack(v);
      last := v;
    }

    method Add(v: Value)
      requires Valid()
      modifies this, reslist
      ensures Valid() && Contents() == AddResult(old(Contents()), v)
    {
      reslist.PushBack(v);
      last := v;
    }

    /** Called for every CS_CMD_DONE. */
    method Done(rowcount: int)
      requires Valid()
      modifies this, reslist
      ensures Valid() && Contents() == AddDone(old(Contents()), rowcount)
    {
      if rowcount <= 0 {
        last := Nothing;
        return;
      }
      if last == Nothing {
        reslist.PushBack(Count(rowcount));
        return;
      }
      last := Nothing;
    }

    method Res() returns (r: Value)
      requires Valid()
      modifies params, reslist
      ensures r == Shape(old(Contents()).params, old(Contents()).results)
    {
      if params.v == [] {
        r := reslist.ReleaseSmart();
        return;
      }
      if reslist.v == [] {
        r := params.ReleaseSmart();
        return;
      }
      var query := reslist.ReleaseSmart();
      var ps := params.ReleaseSmart();
      SetNewKey([Entry("query", query)], "params", ps);
      return Hash(SetKeyValue(SetKeyValue([], "query", query), "params", ps));
    }
  }
}
