/**
 The column diffing of `diff_columns.py`: transpose row dicts into per-column
 value lists, keep the columns whose values are not all one value, count the
 values of each column, and transpose a column dict back into a header and
 data rows.
 */
module DiffColumns {
  import opened Seqs
  import opened Dicts
  import opened CsvTable

  /** Column name to the list of its values, in key order. */
  type Columns = Dict<seq<string>>

  /** The keys of every row, row after row, each row's keys in its own order. */
  function AllKeys(rows: seq<Row>): seq<string>
  {
    if |rows| == 0 then [] else AllKeys(rows[..|rows| - 1]) + rows[|rows| - 1].keys
  }

  /** The values of `key` in row order, taken from the rows that have that key. */
  function ColumnOf(rows: seq<Row>, key: string): seq<string>
  {
    if |rows| == 0 then []
    else
      var last := rows[|rows| - 1];
      ColumnOf(rows[..|rows| - 1], key) + (if key in last.vals then [last.vals[key]] else [])
  }

  /**
   The transposition `get_csv_columns` computes: every key that occurs in some
   row, in order of first occurrence, mapped to its values in row order.
   */
  function CsvColumns(rows: seq<Row>): Columns
  {
    var keys := AllKeys(rows);
    DictRep(Dedup(keys), map k | k in keys :: ColumnOf(rows, k))
  }

  /** A key that no row has gets no values. */
  lemma {:induction false} ColumnOfAbsent(rows: seq<Row>, key: string)
    requires key !in AllKeys(rows)
    ensures ColumnOf(rows, key) == []
  {
    if |rows| > 0 {
      ColumnOfAbsent(rows[..|rows| - 1], key);
    }
  }

  lemma AppendRow(rows: seq<Row>, row: Row)
    ensures AllKeys(rows + [row]) == AllKeys(rows) + row.keys
    ensures forall k :: ColumnOf(rows + [row], k) == ColumnOf(rows, k) + (if k in row.vals then [row.vals[k]] else [])
  {
    assert (rows + [row])[..|rows|] == rows;
  }

  /**
   The dict `get_csv_columns` holds after the first rows `done` and the first
   `j` items of the next row `row`.
   */
  ghost function PartialColumns(done: seq<Row>, row: Row, j: nat): Columns
    requires j <= |row.keys|
  {
    DictRep(Dedup(AllKeys(done) + row.keys[..j]), PartialVals(done, row, j))
  }

  ghost function PartialVals(done: seq<Row>, row: Row, j: nat): map<string, seq<string>>
    requires j <= |row.keys|
  {
    var keys := AllKeys(done) + row.keys[..j];
    map k | k in keys :: ColumnOf(done, k) + (if k in row.keys[..j] then [row.vals[k]] else [])
  }

  lemma PartialStart(done: seq<Row>, row: Row)
    ensures PartialColumns(done, row, 0) == CsvColumns(done)
  {
    assert row.keys[..0] == [];
    assert AllKeys(done) + row.keys[..0] == AllKeys(done);
    var a := PartialColumns(done, row, 0);
    var b := CsvColumns(done);
    forall k | k in a.vals ensures a.vals[k] == b.vals[k] {
    }
    assert a.vals == b.vals;
  }

  lemma PartialEnd(done: seq<Row>, row: Row)
    ensures PartialColumns(done, row, |row.keys|) == CsvColumns(done + [row])
  {
    AppendRow(done, row);
    assert row.keys[..|row.keys|] == row.keys;
    var a := PartialColumns(done, row, |row.keys|);
    var b := CsvColumns(done + [row]);
    assert a.keys == b.keys;
    forall k | k in a.vals ensures k in b.vals && a.vals[k] == b.vals[k] {
    }
    assert a.vals == b.vals;
  }

  /** The list of `key` after `columns[key].append(value)`, a missing key starting empty. */
  function Appended(columns: Columns, key: string, value: string): seq<string>
  {
    (if key in columns.vals then columns.vals[key] else []) + [value]
  }

  /** One inner step: `columns[key].append(value)` for the `j`-th item of `row`. */
  lemma PartialStep(done: seq<Row>, row: Row, j: nat)
    requires j < |row.keys|
    ensures var columns := PartialColumns(done, row, j);
      var key := row.keys[j];
      Store(columns, key, Appended(columns, key, row.vals[key])) == PartialColumns(done, row, j + 1)
  {
    var columns := PartialColumns(done, row, j);
    var key := row.keys[j];
    var s := AllKeys(done) + row.keys[..j];
    var s' := AllKeys(done) + row.keys[..j + 1];
    assert row.keys[..j + 1] == row.keys[..j] + [key];
    assert s' == s + [key];
    assert key !in row.keys[..j];
    var values := if key in columns.vals then columns.vals[key] else [];
    assert Appended(columns, key, row.vals[key]) == values + [row.vals[key]];
    assert values == ColumnOf(done, key) by {
      if key !in AllKeys(done) {
        ColumnOfAbsent(done, key);
      }
    }
    var a := Store(columns, key, values + [row.vals[key]]);
    var b := PartialColumns(done, row, j + 1);
    assert a.keys == b.keys by {
      DedupSnoc(s, key);
    }
    PartialStepVals(done, row, j, values);
  }

  /** One key of `PartialStepVals`. */
  lemma PartialStepAt(done: seq<Row>, row: Row, j: nat, values: seq<string>, k: string)
    requires j < |row.keys|
    requires values == ColumnOf(done, row.keys[j])
    ensures var a := PartialVals(done, row, j)[row.keys[j] := values + [row.vals[row.keys[j]]]];
      var b := PartialVals(done, row, j + 1);
      (k in a <==> k in b) && (k in b ==> a[k] == b[k])
  {
    var key := row.keys[j];
    var pre, next := row.keys[..j], row.keys[..j + 1];
    assert next == pre + [key];
    assert key !in pre;
    if k != key {
      assert (k in next) == (k in pre);
      assert (k in AllKeys(done) + next) == (k in AllKeys(done) + pre);
    }
  }

  lemma PartialStepVals(done: seq<Row>, row: Row, j: nat, values: seq<string>)
    requires j < |row.keys|
    requires values == ColumnOf(done, row.keys[j])
    ensures PartialVals(done, row, j)[row.keys[j] := values + [row.vals[row.keys[j]]]] == PartialVals(done, row, j + 1)
  {
    var a := PartialVals(done, row, j)[row.keys[j] := values + [row.vals[row.keys[j]]]];
    var b := PartialVals(done, row, j + 1);
    forall k ensures (k in a <==> k in b) && (k in b ==> a[k] == b[k]) {
      PartialStepAt(done, row, j, values, k);
    }
    assert a == b;
  }

  /**
   The inner loop of `get_csv_columns`: for each item of `row` in order, append
   the value to the list of that key, a missing key starting empty.
   */
  method AppendItems(columns: Columns, done: seq<Row>, row: Row) returns (updated: Columns)
    requires columns == PartialColumns(done, row, 0)
    ensures updated == PartialColumns(done, row, |row.keys|)
  {
    updated := columns;
    var j := 0;
    while j < |row.keys|
      invariant 0 <= j <= |row.keys|
      invariant updated == PartialColumns(done, row, j)
    {
      var key := row.keys[j];
      PartialStep(done, row, j);
      updated := Store(updated, key, Appended(updated, key, row.vals[key]));
      j := j + 1;
    }
  }

  /** `get_csv_columns(rows)`: the items of every row, row after row, appended to their columns. */
  method GetCsvColumns(rows: seq<Row>) returns (columns: Columns)
    ensures columns == CsvColumns(rows)
  {
    columns := EmptyDict();
    var i := 0;
    while i < |rows|
      invariant 0 <= i <= |rows|
      invariant columns == CsvColumns(rows[..i])
    {
      PartialStart(rows[..i], rows[i]);
      columns := AppendItems(columns, rows[..i], rows[i]);
      PartialEnd(rows[..i], rows[i]);
      assert rows[..i + 1] == rows[..i] + [rows[i]];
      i := i + 1;
    }
    assert rows[..i] == rows;
  }

  /** All rows have the same key set as the first. */
  predicate SameKeys(rows: seq<Row>)
  {
    forall i | 0 <= i < |rows| :: rows[i].vals.Keys == rows[0].vals.Keys
  }

  /** With uniform rows, the keys of all rows are those of the first row, then repeats of them. */
  lemma {:induction false} AllKeysUniform(rows: seq<Row>)
    requires |rows| > 0 && SameKeys(rows)
    ensures |AllKeys(rows)| >= |rows[0].keys|
    ensures AllKeys(rows)[..|rows[0].keys|] == rows[0].keys
    ensures forall t | |rows[0].keys| <= t < |AllKeys(rows)| :: AllKeys(rows)[t] in rows[0].keys
  {
    var init := rows[..|rows| - 1];
    var last := rows[|rows| - 1];
    if |rows| == 1 {
      assert AllKeys(init) == [];
      assert AllKeys(rows) == rows[0].keys;
    } else {
      assert init[0] == rows[0];
      AllKeysUniform(init);
      var a := AllKeys(init);
      assert AllKeys(rows) == a + last.keys;
      forall t | |rows[0].keys| <= t < |AllKeys(rows)| ensures AllKeys(rows)[t] in rows[0].keys {
        if t >= |a| {
          assert AllKeys(rows)[t] == last.keys[t - |a|];
          assert last.keys[t - |a|] in last.vals;
        }
      }
    }
  }

  /** A key every row has gets one value per row, in row order. */
  lemma {:induction false} ColumnOfFull(rows: seq<Row>, key: string)
    requires forall i | 0 <= i < |rows| :: key in rows[i].vals
    ensures |ColumnOf(rows, key)| == |rows|
    ensures forall i | 0 <= i < |rows| :: ColumnOf(rows, key)[i] == rows[i].vals[key]
  {
    if |rows| > 0 {
      ColumnOfFull(rows[..|rows| - 1], key);
    }
  }

  /**
   When every row has the same key set, the columns are the first row's keys in
   its order, and column `k` lists `rows[i][k]` for every `i`.
   */
  lemma CsvColumnsUniform(rows: seq<Row>)
    requires |rows| > 0 && SameKeys(rows)
    ensures CsvColumns(rows).keys == rows[0].keys
    ensures forall k | k in rows[0].vals :: (k in CsvColumns(rows).vals
      && |CsvColumns(rows).vals[k]| == |rows|
      && forall i | 0 <= i < |rows| :: CsvColumns(rows).vals[k][i] == rows[i].vals[k])
  {
    var keys := rows[0].keys;
    var all := AllKeys(rows);
    AllKeysUniform(rows);
    assert all == keys + all[|keys|..];
    DedupAbsorb(keys, all[|keys|..]);
    DedupOfDistinct(keys);
    forall k | k in rows[0].vals
      ensures k in CsvColumns(rows).vals && |CsvColumns(rows).vals[k]| == |rows|
      ensures forall i | 0 <= i < |rows| :: CsvColumns(rows).vals[k][i] == rows[i].vals[k]
    {
      assert k in keys;
      ColumnOfFull(rows, k);
    }
  }

  /** `all_same(values)`: the list holds exactly one distinct value. */
  predicate AllSame(values: seq<string>)
  {
    |set v | v in values| == 1
  }

  /** One distinct value means: at least one value, and every value equals the first. */
  lemma AllSameMeans(values: seq<string>)
    ensures AllSame(values) <==> |values| > 0 && forall i | 0 <= i < |values| :: values[i] == values[0]
  {
    var s := set v | v in values;
    if |values| > 0 && forall i | 0 <= i < |values| :: values[i] == values[0] {
      assert s == {values[0]};
    }
    if AllSame(values) {
      var x :| x in s;
      assert |s - {x}| == 0;
      assert s == {x};
      assert values[0] in s;
      forall i | 0 <= i < |values| ensures values[i] == values[0] {
        assert values[i] in s;
      }
    }
  }

  /**
   `get_diff_columns(columns)`: the columns whose values are not all one value
   (an empty column counts as differing), with their lists unchanged, in key order.
   */
  function GetDiffColumns(columns: Columns): (diff: Columns)
    ensures forall k :: k in diff.vals <==> k in columns.vals && !AllSame(columns.vals[k])
    ensures forall k | k in diff.vals :: diff.vals[k] == columns.vals[k]
    ensures IsSubsequence(diff.keys, columns.keys)
  {
    var keys := KeepIf(columns.keys, k => k in columns.vals && !AllSame(columns.vals[k]));
    KeepIfSubsequence(columns.keys, k => k in columns.vals && !AllSame(columns.vals[k]));
    KeepIfDistinct(columns.keys, k => k in columns.vals && !AllSame(columns.vals[k]));
    DictRep(keys, map k | k in keys :: columns.vals[k])
  }

  /** `counts.get(v, 0) + 1`. */
  function Bumped(counts: Dict<nat>, v: string): nat
  {
    (if v in counts.vals then counts.vals[v] else 0) + 1
  }

  /**
   `Counter(values)` as a dict: each value once, in order of first occurrence,
   mapped to its number of occurrences.
   */
  function Counter(values: seq<string>): (counts: Dict<nat>)
    ensures counts.keys == Dedup(values)
  {
    if |values| == 0 then EmptyDict()
    else
      var init := values[..|values| - 1];
      var v := values[|values| - 1];
      var c := Counter(init);
      assert values == init + [v];
      DedupSnoc(init, v);
      Store(c, v, Bumped(c, v))
  }

  /** Each counted value is mapped to its number of occurrences in the list. */
  lemma {:induction false} CounterCounts(values: seq<string>)
    ensures forall v | v in Counter(values).vals :: Counter(values).vals[v] == multiset(values)[v]
  {
    if |values| > 0 {
      var init := values[..|values| - 1];
      var v := values[|values| - 1];
      var c := Counter(init);
      CounterCounts(init);
      assert values == init + [v];
      assert multiset(values) == multiset(init) + multiset{v};
      if v !in c.vals {
        assert v !in Dedup(init);
      }
    }
  }

  /** The sum of `m[k]` over the listed keys. */
  function SumOver(keys: seq<string>, m: map<string, nat>): nat
    requires forall t | 0 <= t < |keys| :: keys[t] in m
  {
    if |keys| == 0 then 0 else SumOver(keys[..|keys| - 1], m) + m[keys[|keys| - 1]]
  }

  /** The sum of all counts of a count dict. */
  function Total(counts: Dict<nat>): nat
  {
    SumOver(counts.keys, counts.vals)
  }

  lemma {:induction false} SumOverOther(keys: seq<string>, m: map<string, nat>, k: string, x: nat)
    requires forall t | 0 <= t < |keys| :: keys[t] in m
    requires k !in keys
    ensures SumOver(keys, m[k := x]) == SumOver(keys, m)
  {
    if |keys| > 0 {
      SumOverOther(keys[..|keys| - 1], m, k, x);
    }
  }

  lemma {:induction false} SumOverBump(keys: seq<string>, m: map<string, nat>, k: string)
    requires forall t | 0 <= t < |keys| :: keys[t] in m
    requires Distinct(keys) && k in keys
    ensures SumOver(keys, m[k := m[k] + 1]) == SumOver(keys, m) + 1
  {
    var init := keys[..|keys| - 1];
    var last := keys[|keys| - 1];
    assert keys == init + [last];
    if last == k {
      assert k !in init;
      SumOverOther(init, m, k, m[k] + 1);
    } else {
      assert k in init;
      SumOverBump(init, m, k);
    }
  }

  /** Counting one more occurrence of `k` raises the total by one. */
  lemma TotalBump(d: Dict<nat>, k: string)
    ensures Total(Store(d, k, Bumped(d, k))) == Total(d) + 1
  {
    if k in d.vals {
      TotalBumpPresent(d, k);
    } else {
      TotalBumpAbsent(d, k);
    }
  }

  lemma TotalBumpPresent(d: Dict<nat>, k: string)
    requires k in d.vals
    ensures Total(Store(d, k, d.vals[k] + 1)) == Total(d) + 1
  {
    assert k in d.keys;
    SumOverBump(d.keys, d.vals, k);
  }

  lemma TotalBumpAbsent(d: Dict<nat>, k: string)
    requires k !in d.vals
    ensures Total(Store(d, k, 1)) == Total(d) + 1
  {
    var r := Store(d, k, 1);
    assert r.keys[..|d.keys|] == d.keys;
    assert k !in d.keys;
    SumOverOther(d.keys, d.vals, k, 1);
  }

  /** The counts of a list add up to its length. */
  lemma {:induction false} CounterTotal(values: seq<string>)
    ensures Total(Counter(values)) == |values|
  {
    if |values| > 0 {
      var init := values[..|values| - 1];
      CounterTotal(init);
      TotalBump(Counter(init), values[|values| - 1]);
    }
  }

  /** `add_counts_columns(columns)`: every column replaced by the counts of its values. */
  function AddCountsColumns(columns: Columns): (counted: Dict<Dict<nat>>)
    ensures counted.keys == columns.keys
    ensures forall k | k in counted.vals :: k in columns.vals && counted.vals[k].keys == Dedup(columns.vals[k])
  {
    DictRep(columns.keys, map k | k in columns.vals :: Counter(columns.vals[k]))
  }

  /**
   For each column, the counted values are exactly the distinct values of the
   list, each count is that value's number of occurrences, and the counts add
   up to the length of the list.
   */
  lemma AddCountsColumnsCounts(columns: Columns, k: string)
    requires k in columns.vals
    ensures var counts := AddCountsColumns(columns).vals[k];
      && (forall v :: v in counts.vals <==> v in columns.vals[k])
      && (forall v | v in counts.vals :: counts.vals[v] == multiset(columns.vals[k])[v])
      && Total(counts) == |columns.vals[k]|
  {
    CounterTotal(columns.vals[k]);
    CounterCounts(columns.vals[k]);
  }

  /** The length of the shortest listed column; 0 when none is listed. */
  function ShortestOf(keys: seq<string>, m: map<string, seq<string>>): (n: nat)
    requires forall t | 0 <= t < |keys| :: keys[t] in m
    ensures forall t | 0 <= t < |keys| :: n <= |m[keys[t]]|
    ensures |keys| == 0 ==> n == 0
    ensures |keys| > 0 ==> exists t | 0 <= t < |keys| :: n == |m[keys[t]]|
  {
    if |keys| == 0 then 0
    else
      var n0 := ShortestOf(keys[..|keys| - 1], m);
      var last := |m[keys[|keys| - 1]]|;
      if |keys| == 1 || last < n0 then last else n0
  }

  /**
   `convert_columns_to_rows(columns)`: the keys as header, then `zip(*columns)`,
   which stops at the shortest column (and yields nothing for an empty dict).
   */
  function ConvertColumnsToRows(columns: Columns): (table: seq<seq<string>>)
    ensures |table| >= 1 && table[0] == columns.keys
    ensures forall k | k in columns.vals :: |table| - 1 <= |columns.vals[k]|
    ensures |columns.keys| == 0 ==> table == [[]]
    ensures |columns.keys| > 0 ==> exists k | k in columns.vals :: |table| - 1 == |columns.vals[k]|
    ensures forall i, j | 0 <= i < |table| - 1 && 0 <= j < |columns.keys| ::
      |table[i + 1]| == |columns.keys| && table[i + 1][j] == columns.vals[columns.keys[j]][i]
  {
    var header := columns.keys;
    var n := ShortestOf(header, columns.vals);
    assert forall k | k in columns.vals :: exists t | 0 <= t < |header| :: header[t] == k;
    [header] + seq(n, i requires 0 <= i < n =>
      seq(|header|, j requires 0 <= j < |header| => columns.vals[header[j]][i]))
  }

  /** The key order of uniform rows: the first row's keys, or none without rows. */
  function HeaderOf(rows: seq<Row>): seq<string>
  {
    if |rows| == 0 then [] else rows[0].keys
  }

  /** `line` lists the values of `row` in `header` order. */
  predicate Spells(line: seq<string>, header: seq<string>, row: Row)
  {
    |line| == |header| && forall j | 0 <= j < |header| :: header[j] in row.vals && line[j] == row.vals[header[j]]
  }

  /**
   Round trip: for rows that share one key set (and have at least one key when
   there are rows), transposing to columns and back gives the first row's keys
   as header and then each row's values in that key order.
   */
  lemma RowsRoundTrip(rows: seq<Row>)
    requires SameKeys(rows)
    requires |rows| > 0 ==> |rows[0].keys| > 0
    ensures ConvertColumnsToRows(CsvColumns(rows))[0] == HeaderOf(rows)
    ensures |ConvertColumnsToRows(CsvColumns(rows))| == |rows| + 1
    ensures forall i | 0 <= i < |rows| :: Spells(ConvertColumnsToRows(CsvColumns(rows))[i + 1], HeaderOf(rows), rows[i])
  {
    if |rows| > 0 {
      CsvColumnsUniform(rows);
      UniformRowCount(rows);
      UniformCells(rows);
    } else {
      assert AllKeys(rows) == [];
    }
  }

  /** Each data row of the round trip spells one original row. */
  lemma UniformCells(rows: seq<Row>)
    requires |rows| > 0 && SameKeys(rows) && |rows[0].keys| > 0
    requires |ConvertColumnsToRows(CsvColumns(rows))| == |rows| + 1
    ensures forall i | 0 <= i < |rows| :: Spells(ConvertColumnsToRows(CsvColumns(rows))[i + 1], rows[0].keys, rows[i])
  {
    var columns := CsvColumns(rows);
    CsvColumnsUniform(rows);
    forall i | 0 <= i < |rows| ensures Spells(ConvertColumnsToRows(columns)[i + 1], rows[0].keys, rows[i]) {
      SpellsRow(columns, rows, i);
    }
  }

  /**
   Data row `i + 1` of the table made from columns that list, under each key of
   the first row, the values of all rows in order, spells row `i`.
   */
  lemma SpellsRow(columns: Columns, rows: seq<Row>, i: nat)
    requires |rows| > 0 && |rows[0].keys| > 0 && i < |rows|
    requires SameKeys(rows)
    requires columns.keys == rows[0].keys
    requires forall k | k in rows[0].vals :: (k in columns.vals
      && |columns.vals[k]| == |rows|
      && forall i | 0 <= i < |rows| :: columns.vals[k][i] == rows[i].vals[k])
    requires |ConvertColumnsToRows(columns)| == |rows| + 1
    ensures Spells(ConvertColumnsToRows(columns)[i + 1], rows[0].keys, rows[i])
  {
    var header := rows[0].keys;
    var table := ConvertColumnsToRows(columns);
    assert |table[i + 1]| == |header|;
    forall j | 0 <= j < |header| ensures header[j] in rows[i].vals && table[i + 1][j] == rows[i].vals[header[j]] {
      var k := header[j];
      assert k in rows[0].vals;
      assert table[i + 1][j] == columns.vals[k][i];
    }
  }

  /** Uniform rows with at least one key come back as one data row each. */
  lemma UniformRowCount(rows: seq<Row>)
    requires |rows| > 0 && SameKeys(rows) && |rows[0].keys| > 0
    ensures |ConvertColumnsToRows(CsvColumns(rows))| == |rows| + 1
  {
    CsvColumnsUniform(rows);
    var columns := CsvColumns(rows);
    var table := ConvertColumnsToRows(columns);
    var k :| k in columns.vals && |table| - 1 == |columns.vals[k]|;
    assert k in rows[0].keys;
  }
}
