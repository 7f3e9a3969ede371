/**
 What the keys and the cells of a row are, in terms of the columns' names, the
 caller's names and the row alone.
 */
module ColumnLaws {
  import opened Decimal
  import opened Values
  import opened Columns

  /** A named column is called by its name in lower case, an unnamed one by the
      caller's name for it or else by its number. That is its key unless an
      earlier column has it; then the key is that name, an underscore and the
      least number that makes it a new one. */
  lemma KeyFromName(descs: seq<ColDesc>, ph: seq<string>, i: nat, base: string)
    requires i < |descs|
    requires descs[i].name == "" ==> base == if i < |ph| && ph[i] != "" then ph[i] else Digits(i)
    requires var name := descs[i].name;
             name != "" ==>
               && |base| == |name|
               && forall k | 0 <= k < |name| ::
                    base[k] == if 'A' <= name[k] <= 'Z' then (name[k] as int + 32) as char else name[k]
    ensures var keys := ColumnKeys(descs, ph);
            && |keys| == |descs|
            && (base !in keys[..i] ==> keys[i] == base)
            && (base in keys[..i] ==>
                  exists n: nat | n >= 1 ::
                    && keys[i] == base + "_" + Digits(n) && keys[i] !in keys[..i]
                    && forall m: nat | 1 <= m < n :: base + "_" + Digits(m) in keys[..i])
  {
    hide Digits, ColumnKeys;
    assert base == BaseName(descs[i], ph, i);
    ColumnKeyIs(descs, ph, i);
    var keys := ColumnKeys(descs, ph);
    if base in keys[..i] {
      var n :| n >= 1 && keys[i] == Suffixed(base, n) && forall j | 1 <= j < n :: Suffixed(base, j) in keys[..i];
      forall m: nat | 1 <= m < n ensures base + "_" + Digits(m) in keys[..i] {
        assert base + "_" + Digits(m) == Suffixed(base, m);
      }
    }
  }

  /** So a column whose name is in lower case and differs from all others comes
      back under just that name. */
  lemma OwnNameKept(descs: seq<ColDesc>, ph: seq<string>, i: nat)
    requires i < |descs| && descs[i].name != ""
    requires forall k | 0 <= k < |descs[i].name| :: !('A' <= descs[i].name[k] <= 'Z')
    requires descs[i].name !in ColumnKeys(descs, ph)[..i]
    ensures ColumnKeys(descs, ph)[i] == descs[i].name
  {
    ColumnKeyIs(descs, ph, i);
    assert ToLower(descs[i].name) == descs[i].name;
  }

  /** The cells of a row lie under the keys of their columns. */
  lemma RowHashHolds(descs: seq<ColDesc>, ph: seq<string>, row: seq<Raw>, i: nat)
    requires |row| == |descs| && i < |descs|
    ensures var h := RowHash(descs, ph, row).entries;
            && |h| == |descs| && h[i] == Entry(ColumnKeys(descs, ph)[i], Cell(descs[i].typeCode, row[i]))
            && h[i].key in Keys(h) && Lookup(h, h[i].key) == Cell(descs[i].typeCode, row[i])
  {
    LookupDistinct(RowHash(descs, ph, row).entries, i);
  }
}
