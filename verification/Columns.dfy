/**
 Column descriptions and the keys rows are returned under: `setupColumns` and
 `output_buffers_to_hash` (src/command.cpp).
 */
module Columns {
  import opened Decimal
  import opened Values

  /** One described column; an unnamed column has the empty name. */
  datatype ColDesc = ColDesc(name: string, typeCode: int)

  function LowerChar(c: char): char {
    if 'A' <= c <= 'Z' then (c as int + 32) as char else c
  }

  function ToLower(s: string): string {
    seq(|s|, i requires 0 <= i < |s| => LowerChar(s[i]))
  }

  /** `get_placeholder_at`: the caller's name for a column, or its index. */
  function PlaceholderAt(ph: seq<string>, i: nat): string {
    if |ph| <= i || ph[i] == "" then Digits(i) else ph[i]
  }

  function BaseName(d: ColDesc, ph: seq<string>, i: nat): string {
    if d.name != "" then ToLower(d.name) else PlaceholderAt(ph, i)
  }

  // ------------------------------------------------------------- unique keys

  function Suffixed(base: string, k: nat): string {
    base + "_" + Digits(k)
  }

  lemma SuffixedInjective(base: string, j: nat, k: nat)
    requires Suffixed(base, j) == Suffixed(base, k)
    ensures j == k
  {
    assert Suffixed(base, j)[|base| + 1..] == Digits(j);
    assert Suffixed(base, k)[|base| + 1..] == Digits(k);
    DigitsInjective(j, k);
  }

  ghost predicate Taken(base: string, keys: seq<string>, num: nat) {
    forall j | 1 <= j < num :: Suffixed(base, j) in keys
  }

  function KeySet(keys: seq<string>): (s: set<string>)
    ensures |s| <= |keys|
    ensures forall k :: k in s <==> k in keys
  {
    if keys == [] then {}
    else
      var s := KeySet(keys[1..]);
      assert keys == [keys[0]] + keys[1..];
      {keys[0]} + s
  }

  function SuffixSet(base: string, n: nat): (s: set<string>)
    ensures |s| == n
    ensures forall x | x in s :: exists j | 1 <= j <= n :: x == Suffixed(base, j)
  {
    if n == 0 then {}
    else
      var s := SuffixSet(base, n - 1);
      NewSuffix(base, n, s);
      s + {Suffixed(base, n)}
  }

  lemma NewSuffix(base: string, n: nat, s: set<string>)
    requires forall x | x in s :: exists j | 1 <= j <= n - 1 :: x == Suffixed(base, j)
    ensures Suffixed(base, n) !in s
  {
    if Suffixed(base, n) in s {
      var j :| 1 <= j <= n - 1 && Suffixed(base, n) == Suffixed(base, j);
      SuffixedInjective(base, n, j);
    }
  }

  /** Pigeonhole: no more suffixes can be taken than there are keys. */
  lemma TakenBounded(base: string, keys: seq<string>, num: nat)
    requires num >= 1 && Taken(base, keys, num)
    ensures num - 1 <= |keys|
  {
    var taken, all := SuffixSet(base, num - 1), KeySet(keys);
    assert taken <= all;
    assert all == taken + (all - taken);
    assert |all| == |taken| + |all - taken|;
  }

  /** The first unused suffix from `num` on. */
  function FirstUnused(base: string, keys: seq<string>, num: nat): (k: nat)
    requires num >= 1 && Taken(base, keys, num)
    ensures k >= num && Suffixed(base, k) !in keys && Taken(base, keys, k)
    decreases |keys| + 1 - num
  {
    TakenBounded(base, keys, num);
    if Suffixed(base, num) in keys then FirstUnused(base, keys, num + 1) else num
  }

  /** The key a column named `base` gets when `keys` are in use. */
  function UniqueKey(base: string, keys: seq<string>): (key: string)
    ensures key !in keys
    ensures base !in keys ==> key == base
    ensures base in keys ==>
              exists k | k >= 1 :: key == Suffixed(base, k) && forall j | 1 <= j < k :: Suffixed(base, j) in keys
  {
    if base in keys then Suffixed(base, FirstUnused(base, keys, 1)) else base
  }

  /** The keys of a row, in column order. */
  function ColumnKeys(descs: seq<ColDesc>, ph: seq<string>): (ks: seq<string>)
    ensures |ks| == |descs|
    ensures Distinct(ks)
  {
    if descs == [] then []
    else
      var n := |descs| - 1;
      var ks := ColumnKeys(descs[..n], ph);
      ks + [UniqueKey(BaseName(descs[n], ph, n), ks)]
  }

  /** The key of a column depends only on the columns up to it. */
  lemma {:induction false} ColumnKeysPrefix(descs: seq<ColDesc>, ph: seq<string>, n: nat)
    requires n <= |descs|
    ensures ColumnKeys(descs[..n], ph) == ColumnKeys(descs, ph)[..n]
  {
    if n < |descs| {
      var m := |descs| - 1;
      ColumnKeysPrefix(descs[..m], ph, n);
      assert descs[..m][..n] == descs[..n];
    } else {
      assert descs[..n] == descs;
    }
  }

  /** Every column keeps its own name unless an earlier column has taken it,
      and then gets the name with the least suffix no earlier column has. */
  lemma ColumnKeyIs(descs: seq<ColDesc>, ph: seq<string>, i: nat)
    requires i < |descs|
    ensures var key := ColumnKeys(descs, ph)[i];
            var base := BaseName(descs[i], ph, i);
            var earlier := ColumnKeys(descs, ph)[..i];
            && (base !in earlier ==> key == base)
            && key !in earlier
            && (base in earlier ==>
                  exists k | k >= 1 :: key == Suffixed(base, k)
                    && forall j | 1 <= j < k :: Suffixed(base, j) in earlier)
  {
    ColumnKeysPrefix(descs, ph, i + 1);
    ColumnKeysPrefix(descs, ph, i);
    var ds := descs[..i + 1];
    assert ds[..i] == descs[..i] && ds[i] == descs[i];
    assert ColumnKeys(ds, ph)[i] == UniqueKey(BaseName(ds[i], ph, i), ColumnKeys(ds[..i], ph));
    assert ColumnKeys(ds, ph)[i] == ColumnKeys(descs, ph)[i];
  }

  // ------------------------------------------------------------------ layouts

  /** A row as a hash of cells. */
  function RowHash(descs: seq<ColDesc>, ph: seq<string>, row: seq<Raw>): (v: Value)
    requires |row| == |descs|
    ensures v.Hash? && Keys(v.entries) == ColumnKeys(descs, ph)
  {
    var ks := ColumnKeys(descs, ph);
    Hash(seq(|descs|, i requires 0 <= i < |descs| => Entry(ks[i], Cell(descs[i].typeCode, row[i]))))
  }

  predicate Wide(rows: seq<seq<Raw>>, n: nat) {
    forall j | 0 <= j < |rows| :: |rows[j]| == n
  }

  /** The cells of one column. */
  function ColumnOf(d: ColDesc, i: nat, rows: seq<seq<Raw>>): (v: Value)
    requires forall j | 0 <= j < |rows| :: i < |rows[j]|
    ensures v.List? && |v.items| == |rows|
  {
    List(seq(|rows|, j requires 0 <= j < |rows| => Cell(d.typeCode, rows[j][i])))
  }

  /** Rows as a hash of lists of cells. */
  function ColumnHash(descs: seq<ColDesc>, ph: seq<string>, rows: seq<seq<Raw>>): (v: Value)
    requires Wide(rows, |descs|)
    ensures v.Hash? && Keys(v.entries) == ColumnKeys(descs, ph)
    ensures forall i | 0 <= i < |descs| :: v.entries[i].value.List? && |v.entries[i].value.items| == |rows|
  {
    var ks := ColumnKeys(descs, ph);
    Hash(seq(|descs|, i requires 0 <= i < |descs| => Entry(ks[i], ColumnOf(descs[i], i, rows))))
  }

  /** The two layouts are transposes of each other under the same keys. */
  lemma LayoutsTranspose(descs: seq<ColDesc>, ph: seq<string>, rows: seq<seq<Raw>>, j: nat, key: string)
    requires Wide(rows, |descs|) && j < |rows| && key in ColumnKeys(descs, ph)
    ensures var cols := ColumnHash(descs, ph, rows).entries;
            var row := RowHash(descs, ph, rows[j]).entries;
            && Keys(cols) == Keys(row)
            && key in Keys(cols)
            && Lookup(cols, key).List? && j < |Lookup(cols, key).items|
            && Lookup(cols, key).items[j] == Lookup(row, key)
  {
    var cols := ColumnHash(descs, ph, rows).entries;
    var row := RowHash(descs, ph, rows[j]).entries;
    var i :| 0 <= i < |descs| && ColumnKeys(descs, ph)[i] == key;
    assert Keys(cols)[i] == key && Keys(row)[i] == key;
    LookupDistinct(cols, i);
    LookupDistinct(row, i);
  }

  /** Columns read in two slices are the columns read at once: the same keys,
      and under each key the second list continues the first. */
  lemma SlicesJoin(descs: seq<ColDesc>, ph: seq<string>, rows: seq<seq<Raw>>, n: nat, i: nat)
    requires Wide(rows, |descs|) && n <= |rows| && i < |descs|
    ensures Wide(rows[..n], |descs|) && Wide(rows[n..], |descs|)
    ensures var first := ColumnHash(descs, ph, rows[..n]).entries;
            var second := ColumnHash(descs, ph, rows[n..]).entries;
            var whole := ColumnHash(descs, ph, rows).entries;
            && first[i].key == second[i].key == whole[i].key
            && first[i].value.items + second[i].value.items == whole[i].value.items
  {
    assert rows == rows[..n] + rows[n..];
    assert ColumnOf(descs[i], i, rows[..n]).items + ColumnOf(descs[i], i, rows[n..]).items
        == ColumnOf(descs[i], i, rows).items;
  }

  // ------------------------------------------------------------- the methods

  /** The loop that probes `base_1`, `base_2`, ... for a free key. */
  method FindKey(h: seq<Entry>, base: string) returns (key: string)
    ensures key == UniqueKey(base, Keys(h))
  {
    key := base;
    if base in Keys(h) {
      var num: nat := 1;
      while true
        invariant num >= 1 && Taken(base, Keys(h), num)
        invariant FirstUnused(base, Keys(h), num) == FirstUnused(base, Keys(h), 1)
        decreases |h| + 1 - num
      {
        TakenBounded(base, Keys(h), num);
        key := base + "_" + Digits(num);
        if key !in Keys(h) {
          break;
        }
        num := num + 1;
      }
    }
  }

  lemma KeyAdded(descs: seq<ColDesc>, ph: seq<string>, i: nat, h: seq<Entry>, e: Entry)
    requires i < |descs| && Keys(h) == ColumnKeys(descs[..i], ph)
    requires e.key == UniqueKey(BaseName(descs[i], ph, i), Keys(h))
    ensures Keys(h + [e]) == ColumnKeys(descs[..i + 1], ph)
  {
    assert descs[..i + 1][..i] == descs[..i];
    assert Keys(h + [e]) == Keys(h) + [e.key];
  }

  /** `setupColumns`: one empty list per column. */
  method SetupColumns(descs: seq<ColDesc>, ph: seq<string>) returns (h: seq<Entry>)
    ensures Hash(h) == ColumnHash(descs, ph, [])
  {
    h := [];
    for i := 0 to |descs|
      invariant |h| == i && Keys(h) == ColumnKeys(descs[..i], ph)
      invariant forall k | 0 <= k < i :: h[k].value == List([])
    {
      var key := FindKey(h, BaseName(descs[i], ph, i));
      KeyAdded(descs, ph, i, h, Entry(key, List([])));
      h := h + [Entry(key, List([]))];
    }
    assert descs[..|descs|] == descs;
    assert Keys(ColumnHash(descs, ph, []).entries) == Keys(h);
    SameEntries(h, ColumnHash(descs, ph, []).entries);
  }

  /** `output_buffers_to_hash`: the buffered row under unique keys. */
  method OutputBuffersToHash(descs: seq<ColDesc>, ph: seq<string>, buffers: seq<Raw>) returns (v: Value)
    requires |buffers| == |descs|
    ensures v == RowHash(descs, ph, buffers)
  {
    var h: seq<Entry> := [];
    for i := 0 to |descs|
      invariant |h| == i && Keys(h) == ColumnKeys(descs[..i], ph)
      invariant forall k | 0 <= k < i :: h[k].value == Cell(descs[k].typeCode, buffers[k])
    {
      var key := FindKey(h, BaseName(descs[i], ph, i));
      var value := Cell(descs[i].typeCode, buffers[i]);
      KeyAdded(descs, ph, i, h, Entry(key, value));
      h := h + [Entry(key, value)];
    }
    assert descs[..|descs|] == descs;
    v := Hash(h);
    SameEntries(h, RowHash(descs, ph, buffers).entries);
  }

  /** `append_buffers_to_list`: the buffered row's cells go to the ends of the
      lists, by position. */
  method AppendBuffersToList(descs: seq<ColDesc>, buffers: seq<Raw>, h: seq<Entry>,
                             ghost ph: seq<string>, ghost rows: seq<seq<Raw>>)
    returns (h': seq<Entry>)
    requires |buffers| == |descs| && Wide(rows, |descs|)
    requires Hash(h) == ColumnHash(descs, ph, rows)
    ensures Hash(h') == ColumnHash(descs, ph, rows + [buffers])
  {
    h' := h;
    for i := 0 to |descs|
      invariant |h'| == |descs| && Keys(h') == Keys(h)
      invariant forall k | 0 <= k < i :: h'[k].value == ColumnOf(descs[k], k, rows + [buffers])
      invariant forall k | i <= k < |descs| :: h'[k] == h[k]
    {
      var value := Cell(descs[i].typeCode, buffers[i]);
      var l := h'[i].value.items;
      h' := h'[i := Entry(h'[i].key, List(l + [value]))];
      assert l + [value] == ColumnOf(descs[i], i, rows + [buffers]).items;
    }
    SameEntries(h', ColumnHash(descs, ph, rows + [buffers]).entries);
  }

  lemma SameEntries(h: seq<Entry>, g: seq<Entry>)
    requires Keys(h) == Keys(g)
    requires forall k | 0 <= k < |h| && k < |g| :: h[k].value == g[k].value
    ensures h == g
  {
    assert |h| == |g|;
    forall k | 0 <= k < |h| ensures h[k] == g[k] {
      assert Keys(h)[k] == Keys(g)[k];
    }
  }
}
