/** Qore values as the driver builds them. A hash is an insertion-ordered list
    of entries; a column cell is kept abstract as the raw bytes fetched for it
    together with the type code they were decoded under. */
module Values {

  type Raw = seq<int>

  datatype Value =
    | Nothing
    | Count(n: int)
    | Cell(typeCode: int, raw: Raw)
    | List(items: seq<Value>)
    | Hash(entries: seq<Entry>)

  datatype Entry = Entry(key: string, value: Value)

  function Keys(h: seq<Entry>): (ks: seq<string>)
    ensures |ks| == |h|
    ensures forall i | 0 <= i < |h| :: ks[i] == h[i].key
  {
    seq(|h|, i requires 0 <= i < |h| => h[i].key)
  }

  predicate Distinct(ks: seq<string>) {
    forall i, j | 0 <= i < j < |ks| :: ks[i] != ks[j]
  }

  /** The value under a key. */
  function Lookup(h: seq<Entry>, key: string): (v: Value)
    requires key in Keys(h)
    ensures Entry(key, v) in h
  {
    if h[0].key == key then h[0].value
    else
      assert Keys(h[1..]) == Keys(h)[1..];
      Lookup(h[1..], key)
  }

  lemma {:induction false} LookupDistinct(h: seq<Entry>, i: nat)
    requires i < |h| && Distinct(Keys(h))
    ensures h[i].key in Keys(h) && Lookup(h, h[i].key) == h[i].value
  {
    assert Keys(h)[i] == h[i].key && Keys(h)[0] == h[0].key;
    if i > 0 {
      assert Keys(h[1..]) == Keys(h)[1..];
      LookupDistinct(h[1..], i - 1);
    }
  }
}
