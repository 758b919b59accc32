# Candidate superkeys and differing columns of a CSV table

This project models two small command-line tools for tables read from CSV files.

`find_super_keys.py` looks for the column tuples that identify every row of a table: its superkeys. It reads the table and makes the header titles unique by appending ` - <index>`. It is meant to drop the excluded columns (as written it raises NameError; see "## Findings"), and it drops the columns an exclusion regex matches. It then enumerates the column combinations of size 1 up to a bound, in itertools order. It keeps the combinations whose values never repeat across rows and reports at most `number` of them.

`diff_columns.py` turns the row dicts into one value list per column. It keeps the columns whose values are not all equal, and can count each column's values. It can also turn the columns back into a header row and data rows.

The modules follow the programs:

- `Seqs` holds list helpers: filtering, de-duplication, `islice`, and the subsequence order.
- `Dicts` models an insertion-ordered Python dict.
- `CsvTable` covers header renaming and `dict(zip(header, row))`.
- `Combinations` covers `itertools.combinations` and the chain over sizes.
- `SuperKeys` holds the superkey search.
- `DiffColumns` holds the column tools.
- `SuperKeyScenarios` works through small tables.

A Python dict is modelled as a key list without repeats plus a map over exactly those keys. CSV tokenisation happens before the model, which starts from the list of records (lists of fields). The regular-expression engine is a parameter `matchAtStart(pattern, text)`, standing for `re.match(...) is not None`.

## Model

| member | source | states |
|---|---|---|
| CsvTable.RenameHeader | find_super_keys.py:24 | the renamed header has one title per original title; each new title starts with the original one; no two new titles are equal, even when the original titles repeat |
| CsvTable.Decimal | find_super_keys.py:24 | `str(index)`: at least one character, every character a decimal digit, and exactly one digit when the number is below 10 |
| CsvTable.DecimalInjective | find_super_keys.py:24 | different indices give different numerals, which is why the renamed titles are unique |
| CsvTable.Label | find_super_keys.py:24 | the renamed title `f'{title} - {index}'`; `CsvTable.LabelsDiffer` states that labels for different positions differ |
| CsvTable.LabelsDiffer | find_super_keys.py:24 | two labels made for different positions differ, whatever the two titles are |
| CsvTable.ZipRow | diff_columns.py:23 | `dict(zip(header, record))`; `CsvTable.ZipRowFields` states its keys and values |
| CsvTable.ZipRowFields | diff_columns.py:23 | with distinct titles, `dict(zip(header, row))` maps the i-th title to the i-th field for every position both lists have; its keys are that header prefix in order, and it has no other key |
| CsvTable.GetCsvRows | diff_columns.py:16-23 | one row per record after the header; `CsvTable.GetCsvRowsFields` states each row's fields |
| CsvTable.GetCsvRowsFields | diff_columns.py:16-23 | row i of `get_csv_rows` maps the j-th renamed title to field j of record i+1, and has no key beyond the fields the record has |
| SuperKeys.GetCsvData | find_super_keys.py:19-25 | the header is as wide as the first record and has no repeated title; there is one row per later record |
| SuperKeys.GetCsvDataHasColumns | find_super_keys.py:22-25 | when no record is shorter than the header, every row has every header column |
| SuperKeys.ScanSuperKey | find_super_keys.py:27-34 | the loop answers true exactly when no two rows agree on the key's columns; when it answers false, it stops at the first row whose projection already occurred, and the rows before that are still pairwise distinct |
| SuperKeys.SuperKeyMonotone | find_super_keys.py:27-34 | adding header columns to a superkey gives a superkey; with `SuperKeys.SuperKeysComplete`, a wider combination in header order within the bound is therefore also reported when no `number` is given |
| SuperKeys.FilterRegex | find_super_keys.py:36-39 | with a falsy regex the header comes back unchanged; otherwise the titles the pattern does not match at their start are kept, in header order, every copy of a repeated title included, and a matched title loses every copy; a header without repeated titles gives a result without them |
| SuperKeys.FilterExclusions | find_super_keys.py:41-44 | with no exclusions the header comes back unchanged; otherwise the titles not listed are kept, in header order, every copy of a repeated title included, and a listed title loses every copy; a header without repeated titles gives a result without them |
| SuperKeys.FilterExclusionsAsWritten | find_super_keys.py:41-44 | the function as written fails with a NameError exactly when the exclusions and the header are both non-empty, and otherwise agrees with the intended filter |
| SuperKeys.FilterExclusionsAsWrittenFails | find_super_keys.py:43 | for the header `id - 0, name - 1` with exclusion `name - 1`, the code as written fails while the intended filter returns `id - 0` |
| SuperKeys.FiltersCommute | find_super_keys.py:50 | applying the exclusion filter and the regex filter in either order gives the same header |
| SuperKeys.KeySizeBound | find_super_keys.py:52 | the bound never exceeds the header width; it is the width when the maximum is absent or 0; it is below the width exactly when a non-zero maximum below the width is given, and then it equals that maximum |
| SuperKeys.PickCovered | find_super_keys.py:53 | a combination drawn from the header only uses header columns |
| SuperKeys.CoveredHasColumns | find_super_keys.py:53-54 | rows that have every header column have every column of a combination drawn from it, so the row lookups of line 30 cannot fail |
| SuperKeys.KeyCandidatesShape | find_super_keys.py:53 | every candidate is the header at a strictly increasing index tuple whose size is between 1 and the bound |
| SuperKeys.SuperKeysSound | find_super_keys.py:52-55 | every reported key is a superkey of the rows, made of 1 to `bound` header columns at increasing positions |
| SuperKeys.SuperKeysComplete | find_super_keys.py:52-54 | a combination of 1 to `bound` header columns at increasing positions is reported, when no `number` is given, exactly when it is a superkey |
| SuperKeys.SuperKeysPrefix | find_super_keys.py:55 | with `number` given, the output is the first `number` keys of the unlimited output, or all of them when there are fewer |
| SuperKeys.SuperKeysOrdered | find_super_keys.py:53-55 | the keys are a subsequence of the candidates, so they come in generation order, and their sizes never decrease |
| SuperKeys.PickInjective | find_super_keys.py:53 | from a header without repeated titles, different index tuples pick different column tuples |
| SuperKeys.KeyCandidatesDistinct | find_super_keys.py:53 | from a header without repeated titles, no candidate column tuple is generated twice |
| SuperKeys.SuperKeysDistinct | find_super_keys.py:52-55 | from a header without repeated titles (the renamed header never has any), no key is reported twice, with or without `number` |
| SuperKeys.SearchDistinct | find_super_keys.py:46-55 | from a header without repeated titles, the whole search, both filters included, reports no key twice |
| SuperKeys.SuperKeysOf | find_super_keys.py:52-55 | lines 52-55 as one function: never more keys than candidates, and never more than `number` when it is given; its meaning is given by `SuperKeys.SuperKeysSound`, `SuperKeys.SuperKeysComplete`, `SuperKeys.SuperKeysPrefix`, `SuperKeys.SuperKeysOrdered` and `SuperKeys.SuperKeysDistinct` |
| SuperKeys.Search | find_super_keys.py:46-55 | the intended `main` after reading the file: the exclusion filter, then the regex filter, then lines 52-55 over the columns that remain; the rows need only have those columns; never more than `number` keys; `SuperKeys.SearchSound` gives what the keys are |
| SuperKeys.SearchSound | find_super_keys.py:46-55 | for rows that have every column left after filtering, every key of the whole pipeline is a superkey of the rows made of header columns, none of them excluded by name or matched by the regex |
| SuperKeys.IsSuperKey | find_super_keys.py:27-34 | no two rows have the same value tuple at the key's columns; `SuperKeys.ScanSuperKey` proves that the loop computes exactly this |
| SuperKeys.Project | find_super_keys.py:30 | the value tuple has one entry per key column, `row[k]` for each `k` of the key in order |
| SuperKeys.KeyCandidates | find_super_keys.py:53 | one column tuple per index tuple of the chained combinations, so as many as there are index tuples; `SuperKeys.KeyCandidatesShape` gives every element |
| Seqs.TakeAtMost | find_super_keys.py:55 | `islice(s, None, n)`: the first `min(n, len(s))` elements of `s`, a prefix of it |
| Combinations.Combos | find_super_keys.py:53 | `combinations(range(lo, n), k)` as index tuples; `Combinations.CombosShape`, `Combinations.CombosSorted` and `Combinations.CombosComplete` state that it is exactly the strictly increasing `k`-tuples in range, in lexicographic order |
| Combinations.Candidates | find_super_keys.py:53 | the chain of combinations of sizes 1 to the bound; `Combinations.CandidatesShape`, `Combinations.CandidatesOrdered`, `Combinations.CandidatesComplete` and `Combinations.CandidatesDistinct` state what it holds, in which order, and that nothing repeats |
| Combinations.CombosShape | find_super_keys.py:53 | each generated combination has the requested size and is a strictly increasing tuple inside the range |
| Combinations.CombosSorted | find_super_keys.py:53 | the combinations of one size come in strictly increasing lexicographic order of positions, as itertools emits them |
| Combinations.CombosComplete | find_super_keys.py:53 | every strictly increasing tuple of the requested size inside the range is generated |
| Combinations.CandidatesShape | find_super_keys.py:53 | every chained candidate has a size from 1 to the bound and strictly increasing positions |
| Combinations.CandidatesOrdered | find_super_keys.py:53 | chained candidates go through the sizes in increasing order, lexicographically within one size |
| Combinations.CandidatesComplete | find_super_keys.py:53 | every strictly increasing tuple of size 1 to the bound is a candidate |
| Combinations.CandidatesDistinct | find_super_keys.py:53 | no candidate is generated twice |
| SuperKeyScenarios.DistinctFirstColumn | find_super_keys.py:52-55 | on rows `(1,x) (2,x) (3,y)` the keys are `(A,)` then `(A,B)`, and with maximum size 1 only `(A,)` |
| SuperKeyScenarios.RepeatedFirstColumn | find_super_keys.py:52-55 | on rows `(1,x) (1,y)` the keys are `(B,)` then `(A,B)` |
| SuperKeyScenarios.NoRows | find_super_keys.py:52-55 | with no rows every combination is a key, and `number` 2 keeps the first two |
| SuperKeyScenarios.NegativeBound | find_super_keys.py:52-53 | a negative maximum size leaves no size to enumerate, so no key is reported |
| SuperKeyScenarios.ShortRecordOfFilteredColumn | find_super_keys.py:27-55 | with header `id - 0, name - 1, notes - 2`, a second record lacking `notes`, and a regex matching only `notes - 2`, the search applies although the rows lack a header column, and it reports `(id - 0,)`, `(name - 1,)` and `(id - 0, name - 1)` |
| SuperKeyScenarios.ExcludeMiddle | find_super_keys.py:41-44 | excluding `B` from `A, B, C` leaves `A, C` |
| DiffColumns.CsvColumns | diff_columns.py:25-30 | the transposition in closed form: every key of some row, in order of first occurrence, mapped to its values in row order; `DiffColumns.GetCsvColumns` proves the nested loop computes it, and `DiffColumns.CsvColumnsUniform` and `DiffColumns.ColumnOfAbsent` state its contents |
| DiffColumns.AppendItems | diff_columns.py:28-29 | the inner loop appends each item of one row, in key order, to the list of its key, a new key starting an empty list; afterwards the dict is the transposition of the earlier rows extended by this row |
| DiffColumns.GetCsvColumns | diff_columns.py:25-30 | the nested loop builds exactly the transposed table: every key of some row, in order of first occurrence, mapped to its values in row order |
| DiffColumns.ColumnOfAbsent | diff_columns.py:25-30 | a key that no row has gets no values |
| DiffColumns.CsvColumnsUniform | diff_columns.py:25-30 | when all rows have the first row's keys, the columns are those keys in that order, each with one value per row, in row order |
| DiffColumns.AllSame | diff_columns.py:33-34 | `len(set(values)) == 1`; `DiffColumns.AllSameMeans` states its meaning |
| DiffColumns.AllSameMeans | diff_columns.py:33-34 | `all_same` holds exactly when the list is non-empty and every value equals the first |
| DiffColumns.GetDiffColumns | diff_columns.py:32-36 | a column is kept exactly when its values are not all one value; kept columns keep their values, and the key order is preserved |
| DiffColumns.Counter | diff_columns.py:39 | the count dict lists each distinct value once, in order of first occurrence |
| DiffColumns.CounterCounts | diff_columns.py:39 | every counted value is mapped to the number of times it occurs in the list |
| DiffColumns.CounterTotal | diff_columns.py:39 | the counts of a column add up to its length |
| DiffColumns.AddCountsColumns | diff_columns.py:38-39 | the same columns in the same order, each mapped to a count dict over its distinct values |
| DiffColumns.AddCountsColumnsCounts | diff_columns.py:38-39 | each column's count dict maps every value to the number of times it occurs in that column |
| DiffColumns.ShortestOf | diff_columns.py:44 | the result is the length of the shortest listed column, and 0 when no column is listed |
| DiffColumns.ConvertColumnsToRows | diff_columns.py:41-45 | the first row is the key list; there are as many data rows as the shortest column is long, and none at all for an empty dict; cell (i, j) is value i of column j |
| DiffColumns.RowsRoundTrip | diff_columns.py:25-30 | transposing uniform rows into columns and back gives the header row and then every original row's values, in header order |

## Left out

- Argument parsing (`get_arguments` in both files), opening and reading the file, `line.strip()`/`rstrip()`, and `csv.reader` are not modelled: the model starts from the list of records.
- Printing is not modelled: `print(key)`, `pprint`, and the comma join of the CSV output format.
- The `main` of `diff_columns.py` picks one output among the modelled operations, which is why it is not modelled itself.
- `SuperKeys.Search` models `main` of `find_super_keys.py` as intended, with the corrected exclusion filter. As written, `main` raises NameError at line 43 whenever an exclusion is given and the header is non-empty (see "## Findings").
- `re.match` is a function parameter, so the model says nothing about regular-expression syntax or semantics.
- Laziness of the generators and `islice` is not modelled: the model computes the whole list and takes a prefix. The set of keys reported and their order are the same.
- SuperKeys.SuperKeysOf: requires every row to have every column that remains after filtering, and `SuperKeys.Search` requires the same. A record lacking one of those columns can make the source raise `KeyError` at line 30. It does so only when the scan reaches that row: not when an earlier duplicate ends the scan (lines 31-32), not when `islice` stops first, and not when the size bound is negative. That error path is not modelled.
- SuperKeys.SuperKeysOf: requires `number` to be absent or between 0 and `sys.maxsize`, taken as 2^63 - 1 on a 64-bit build (`SuperKeys.IsliceStop`); `SuperKeys.Search` and `SuperKeys.SuperKeysPrefix` require the same. `argparse` accepts any integer, and `islice` raises `ValueError` at line 55, before anything is printed, for a negative stop or one above `sys.maxsize`. That error path is not modelled.
- CsvTable.GetCsvRows: requires at least one record, since unpacking an empty file raises `ValueError` at line 20 (line 22 of `find_super_keys.py`). That error is not modelled.
- SuperKeys.KeySizeBound: follows the code, not a prose reading of "maximum key size". A maximum of 0 counts as falsy and means no bound. A negative maximum is below the width, so the range of sizes is empty and no key is reported.
- SuperKeys.ScanSuperKey: the Python set of tuples is a Dafny set of value sequences, an ordinary variable of the loop. Hashing is not modelled. Only `stop`, the index of the first row whose value tuple repeats (or the number of rows when none does), is ghost.
- DiffColumns.RowsRoundTrip: covers only uniform rows, where every row has the header's keys and the header is non-empty. For ragged rows, `zip(*...)` truncates to the shortest column, which `DiffColumns.ConvertColumnsToRows` states on its own.

## Findings

| source | as written | input that shows it | evidently intended | confidence | as-written member | corrected member |
|---|---|---|---|---|---|---|
| find_super_keys.py:43 | the comprehension tests `key not in args.exclusion`, but `args` is a local of `main`, so the name is unbound here and a `NameError` is raised as soon as a key is tested | header `id - 0, name - 1` with exclusion `name - 1` | filter by the `exclusions` parameter, giving `id - 0` | not executed | SuperKeys.FilterExclusionsAsWrittenFails | SuperKeys.FilterExclusions |
