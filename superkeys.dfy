/**
 The superkey search of `find_super_keys.py`: the uniqueness test, the two
 column filters, the key-size bound, and the pipeline that enumerates
 candidate column tuples by increasing size, keeps the superkeys and cuts the
 result to the requested number.
 */
module SuperKeys {
  import opened Seqs
  import opened Dicts
  import opened CsvTable
  import opened Combinations

  /** `get_csv_data` after tokenisation: the renamed header and the row dicts. */
  function GetCsvData(records: seq<seq<string>>): (table: (seq<string>, seq<Row>))
    requires |records| >= 1
    ensures |table.0| == |records[0]| && Distinct(table.0)
    ensures |table.1| == |records| - 1
  {
    (RenameHeader(records[0]), GetCsvRows(records))
  }

  /** Every row has an entry for every column of `key` (otherwise `row[k]` raises KeyError). */
  predicate HasColumns(rows: seq<Row>, key: seq<string>)
  {
    forall i, t | 0 <= i < |rows| && 0 <= t < |key| :: key[t] in rows[i].vals
  }

  /** Records at least as long as the header give rows that have every column. */
  lemma GetCsvDataHasColumns(records: seq<seq<string>>)
    requires |records| >= 1
    requires forall i | 1 <= i < |records| :: |records[i]| >= |records[0]|
    ensures HasColumns(GetCsvData(records).1, GetCsvData(records).0)
  {
    var (header, rows) := GetCsvData(records);
    forall i, t | 0 <= i < |rows| && 0 <= t < |header| ensures header[t] in rows[i].vals {
      GetCsvRowsFields(records, i);
      assert header[..|header|] == header;
    }
  }

  /** The value tuple `tuple(row[k] for k in key)`. */
  function Project(row: Row, key: seq<string>): (v: seq<string>)
    requires forall t | 0 <= t < |key| :: key[t] in row.vals
    ensures |v| == |key|
  {
    seq(|key|, t requires 0 <= t < |key| => row.vals[key[t]])
  }

  /** `key` is a superkey of `rows`: no two rows have the same value tuple at its columns. */
  predicate IsSuperKey(key: seq<string>, rows: seq<Row>)
    requires HasColumns(rows, key)
  {
    forall i, j | 0 <= i < j < |rows| :: Project(rows[i], key) != Project(rows[j], key)
  }

  /**
   `is_super_key(key, rows)`: scans the rows once, remembering the value tuples
   seen so far, and answers false at the first tuple that was already seen.
   The ghost `stop` is the index of the first row whose value tuple repeats
   an earlier one, or `|rows|` when none does.
   */
  method ScanSuperKey(key: seq<string>, rows: seq<Row>) returns (unique: bool, ghost stop: nat)
    requires HasColumns(rows, key)
    ensures unique == IsSuperKey(key, rows)
    ensures stop <= |rows| && (unique <==> stop == |rows|)
    ensures IsSuperKey(key, rows[..stop])
    ensures !unique ==> exists t | 0 <= t < stop :: Project(rows[t], key) == Project(rows[stop], key)
  {
    var values: set<seq<string>> := {};
    var i := 0;
    while i < |rows|
      invariant 0 <= i <= |rows|
      invariant values == set t | 0 <= t < i :: Project(rows[t], key)
      invariant IsSuperKey(key, rows[..i])
    {
      var value := Project(rows[i], key);
      if value in values {
        var t :| 0 <= t < i && Project(rows[t], key) == value;
        return false, i;
      }
      values := values + {value};
      i := i + 1;
      assert rows[..i] == rows[..i - 1] + [rows[i - 1]];
    }
    assert rows[..i] == rows;
    return true, |rows|;
  }

  /** Every column of `key` is a column of `wider`. */
  predicate Covers(wider: seq<string>, key: seq<string>)
  {
    forall t | 0 <= t < |key| :: key[t] in wider
  }

  /** Adding columns to a superkey gives a superkey. */
  lemma SuperKeyMonotone(key: seq<string>, wider: seq<string>, rows: seq<Row>)
    requires HasColumns(rows, key) && HasColumns(rows, wider)
    requires Covers(wider, key)
    requires IsSuperKey(key, rows)
    ensures IsSuperKey(wider, rows)
  {
    forall i, j | 0 <= i < j < |rows| ensures Project(rows[i], wider) != Project(rows[j], wider) {
      var pi, pj := Project(rows[i], key), Project(rows[j], key);
      assert pi != pj;
      var t :| 0 <= t < |key| && pi[t] != pj[t];
      var m :| 0 <= m < |wider| && wider[m] == key[t];
      assert Project(rows[i], wider)[m] != Project(rows[j], wider)[m];
    }
  }

  /** `if regex:` — an absent pattern and the empty pattern both mean "no regex filter". */
  predicate Truthy(regex: Option<string>)
  {
    regex.Some? && regex.value != ""
  }

  /** The column is removed by the pattern: `re.match(regex, key)` is not None. */
  predicate RegexExcludes(regex: Option<string>, matchAtStart: (string, string) -> bool, key: string)
  {
    Truthy(regex) && matchAtStart(regex.value, key)
  }

  /**
   `filter_regex(header, regex)`: the columns that the pattern does not match at
   their start, in header order. `matchAtStart(pattern, name)` stands for
   `re.match(pattern, name) is not None`.
   */
  function FilterRegex(header: seq<string>, regex: Option<string>, matchAtStart: (string, string) -> bool): (r: seq<string>)
    ensures !Truthy(regex) ==> r == header
    ensures forall k :: k in r <==> k in header && !RegexExcludes(regex, matchAtStart, k)
    ensures IsSubsequence(r, header)
    ensures forall x :: multiset(r)[x] == if RegexExcludes(regex, matchAtStart, x) then 0 else multiset(header)[x]
    ensures Distinct(header) ==> Distinct(r)
  {
    if Truthy(regex) then
      var kept := KeepIf(header, key => !matchAtStart(regex.value, key));
      KeepIfSubsequence(header, key => !matchAtStart(regex.value, key));
      assert Distinct(header) ==> Distinct(kept) by {
        if Distinct(header) {
          KeepIfDistinct(header, key => !matchAtStart(regex.value, key));
        }
      }
      kept
    else
      KeepIfAll(header, key => true);
      KeepIfSubsequence(header, key => true);
      header
  }

  /**
   `filter_exclusions(header, exclusions)` as evidently intended: the columns
   not named in `exclusions`, in header order.
   */
  function FilterExclusions(header: seq<string>, exclusions: seq<string>): (r: seq<string>)
    ensures |exclusions| == 0 ==> r == header
    ensures forall k :: k in r <==> k in header && k !in exclusions
    ensures IsSubsequence(r, header)
    ensures forall x :: multiset(r)[x] == if x in exclusions then 0 else multiset(header)[x]
    ensures Distinct(header) ==> Distinct(r)
  {
    if |exclusions| > 0 then
      var kept := KeepIf(header, key => key !in exclusions);
      KeepIfSubsequence(header, key => key !in exclusions);
      assert Distinct(header) ==> Distinct(kept) by {
        if Distinct(header) {
          KeepIfDistinct(header, key => key !in exclusions);
        }
      }
      kept
    else
      KeepIfAll(header, key => true);
      KeepIfSubsequence(header, key => true);
      header
  }

  /** What `filter_exclusions` does as written: a returned header, or the NameError it raises. */
  datatype FilterOutcome = Returned(header: seq<string>) | NameError

  /**
   `filter_exclusions` as written: its comprehension tests `key not in
   args.exclusion`, and `args` is local to `main`, so the first test raises
   NameError. The test runs only when the exclusions are non-empty and the
   header has at least one column.
   */
  function FilterExclusionsAsWritten(header: seq<string>, exclusions: seq<string>): (r: FilterOutcome)
    ensures r.NameError? <==> |exclusions| > 0 && |header| > 0
    ensures r.Returned? ==> r.header == FilterExclusions(header, exclusions)
  {
    if |exclusions| == 0 then Returned(header)
    else if |header| == 0 then Returned([])
    else NameError
  }

  /** The as-written filter fails on the first real use of `--exclusion`. */
  lemma FilterExclusionsAsWrittenFails()
    ensures FilterExclusionsAsWritten(["id - 0", "name - 1"], ["name - 1"]) == NameError
    ensures FilterExclusions(["id - 0", "name - 1"], ["name - 1"]) == ["id - 0"]
  {
    var h: seq<string> := ["id - 0", "name - 1"];
    var r := FilterExclusions(h, ["name - 1"]);
    assert "id - 0" in r && "name - 1" !in r;
    KeepIfConcat(["id - 0"], ["name - 1"], key => key !in ["name - 1"]);
    assert h == ["id - 0"] + ["name - 1"];
  }

  /** The two filters may be applied in either order. */
  lemma FiltersCommute(header: seq<string>, exclusions: seq<string>, regex: Option<string>,
                       matchAtStart: (string, string) -> bool)
    ensures FilterRegex(FilterExclusions(header, exclusions), regex, matchAtStart)
         == FilterExclusions(FilterRegex(header, regex, matchAtStart), exclusions)
  {
    if |exclusions| > 0 && Truthy(regex) {
      KeepIfCommute(header, key => key !in exclusions, key => !matchAtStart(regex.value, key));
    }
  }

  /**
   `max_length`: `max_key_size` when it is truthy (not None, not 0) and below the
   number of columns, otherwise the number of columns. A negative size is
   truthy and below, so it is kept and no size is enumerated.
   */
  function KeySizeBound(maxKeySize: Option<int>, width: nat): (bound: int)
    ensures bound <= width
    ensures maxKeySize.None? || maxKeySize == Some(0) ==> bound == width
    ensures bound < width <==> maxKeySize.Some? && maxKeySize.value != 0 && maxKeySize.value < width
    ensures bound < width ==> bound == maxKeySize.value
  {
    if maxKeySize.Some? && maxKeySize.value != 0 && maxKeySize.value < width then maxKeySize.value
    else width
  }

  /** The column names at the positions of an index tuple. */
  function Pick(header: seq<string>, c: seq<nat>): (key: seq<string>)
    requires forall t | 0 <= t < |c| :: c[t] < |header|
    ensures |key| == |c|
  {
    seq(|c|, t requires 0 <= t < |c| => header[c[t]])
  }

  /** The picked columns are columns of the header. */
  lemma PickCovered(header: seq<string>, c: seq<nat>)
    requires forall t | 0 <= t < |c| :: c[t] < |header|
    ensures Covers(header, Pick(header, c))
  {
    var key := Pick(header, c);
    forall t | 0 <= t < |key| ensures key[t] in header {
      assert key[t] == header[c[t]];
    }
  }

  lemma CoveredHasColumns(rows: seq<Row>, header: seq<string>, key: seq<string>)
    requires HasColumns(rows, header) && Covers(header, key)
    ensures HasColumns(rows, key)
  {
    forall i, t | 0 <= i < |rows| && 0 <= t < |key| ensures key[t] in rows[i].vals {
      var m :| 0 <= m < |header| && header[m] == key[t];
    }
  }

  /** `combinations(header, r=i) for i in range(1, bound + 1)`, chained. */
  function KeyCandidates(header: seq<string>, bound: int): (keys: seq<seq<string>>)
    ensures |keys| == |Candidates(|header|, bound)|
  {
    var ix := Candidates(|header|, bound);
    CandidatesShape(|header|, bound);
    seq(|ix|, i requires 0 <= i < |ix| => Pick(header, ix[i]))
  }

  /** Each candidate is the header at a strictly increasing index tuple of size 1 to `bound`. */
  lemma KeyCandidatesShape(header: seq<string>, bound: int, i: nat)
    requires i < |KeyCandidates(header, bound)|
    ensures var c := Candidates(|header|, bound)[i];
      && 1 <= |c| <= bound && IndexTuple(c, 0, |header|)
      && KeyCandidates(header, bound)[i] == Pick(header, c)
      && Covers(header, KeyCandidates(header, bound)[i])
  {
    CandidatesShape(|header|, bound);
    PickCovered(header, Candidates(|header|, bound)[i]);
  }

  /** The superkey test of the pipeline, total on any column tuple. */
  predicate Unique(rows: seq<Row>, key: seq<string>)
  {
    HasColumns(rows, key) && IsSuperKey(key, rows)
  }

  /** `sys.maxsize` on a 64-bit build, the largest stop `islice` accepts. */
  const MaxSize: int := 0x7fff_ffff_ffff_ffff

  /** A stop `islice` accepts: None, or an integer from 0 to `sys.maxsize`. */
  predicate IsliceStop(number: Option<int>)
  {
    number.None? || 0 <= number.value <= MaxSize
  }

  /**
   Lines 52-55 of `main`: bound the key size, enumerate the candidates, keep the
   superkeys, and cut to the first `number` when `number` is given.
   */
  function SuperKeysOf(header: seq<string>, rows: seq<Row>, maxKeySize: Option<int>, number: Option<int>): (keys: seq<seq<string>>)
    requires HasColumns(rows, header)
    requires IsliceStop(number)
    ensures |keys| <= |KeyCandidates(header, KeySizeBound(maxKeySize, |header|))|
    ensures number.Some? ==> |keys| <= number.value
  {
    var found := KeepIf(KeyCandidates(header, KeySizeBound(maxKeySize, |header|)), key => Unique(rows, key));
    if number.None? then found else TakeAtMost(found, number.value)
  }

  /** Every reported key is a superkey made of 1 to `bound` header columns at increasing positions. */
  lemma SuperKeysSound(header: seq<string>, rows: seq<Row>, maxKeySize: Option<int>, number: Option<int>, key: seq<string>)
    requires HasColumns(rows, header)
    requires IsliceStop(number)
    requires key in SuperKeysOf(header, rows, maxKeySize, number)
    ensures HasColumns(rows, key) && IsSuperKey(key, rows)
    ensures exists c :: (c in Candidates(|header|, KeySizeBound(maxKeySize, |header|))
      && 1 <= |c| <= KeySizeBound(maxKeySize, |header|) && IndexTuple(c, 0, |header|) && key == Pick(header, c))
  {
    var bound := KeySizeBound(maxKeySize, |header|);
    var cands := KeyCandidates(header, bound);
    var found := KeepIf(cands, k => Unique(rows, k));
    assert key in found;
    var i :| 0 <= i < |cands| && cands[i] == key;
    KeyCandidatesShape(header, bound, i);
    var c := Candidates(|header|, bound)[i];
    assert c in Candidates(|header|, bound);
  }

  /**
   Without `number`, a column tuple taken at increasing positions with size 1 to
   `bound` is reported exactly when it is a superkey.
   */
  lemma SuperKeysComplete(header: seq<string>, rows: seq<Row>, maxKeySize: Option<int>, c: seq<nat>)
    requires HasColumns(rows, header)
    requires 1 <= |c| <= KeySizeBound(maxKeySize, |header|) && IndexTuple(c, 0, |header|)
    ensures HasColumns(rows, Pick(header, c))
    ensures Pick(header, c) in SuperKeysOf(header, rows, maxKeySize, None) <==> IsSuperKey(Pick(header, c), rows)
  {
    var bound := KeySizeBound(maxKeySize, |header|);
    PickCovered(header, c);
    CoveredHasColumns(rows, header, Pick(header, c));
    CandidatesComplete(|header|, bound, c);
    var ix := Candidates(|header|, bound);
    var i :| 0 <= i < |ix| && ix[i] == c;
    assert KeyCandidates(header, bound)[i] == Pick(header, c);
  }

  /** Running with `number = k` gives the first `k` keys of the run without a number. */
  lemma SuperKeysPrefix(header: seq<string>, rows: seq<Row>, maxKeySize: Option<int>, k: nat)
    requires HasColumns(rows, header)
    requires k <= MaxSize
    ensures var all := SuperKeysOf(header, rows, maxKeySize, None);
      var some := SuperKeysOf(header, rows, maxKeySize, Some(k));
      |some| == (if k < |all| then k else |all|) && some == all[..|some|]
  {
  }

  /** The reported keys keep the candidate order, so their sizes never decrease. */
  lemma SuperKeysOrdered(header: seq<string>, rows: seq<Row>, maxKeySize: Option<int>)
    requires HasColumns(rows, header)
    ensures IsSubsequence(SuperKeysOf(header, rows, maxKeySize, None), KeyCandidates(header, KeySizeBound(maxKeySize, |header|)))
    ensures forall i, j | 0 <= i < j < |SuperKeysOf(header, rows, maxKeySize, None)|
      :: |SuperKeysOf(header, rows, maxKeySize, None)[i]| <= |SuperKeysOf(header, rows, maxKeySize, None)[j]|
  {
    var bound := KeySizeBound(maxKeySize, |header|);
    var cands := KeyCandidates(header, bound);
    var ix := Candidates(|header|, bound);
    CandidatesOrdered(|header|, bound);
    forall i, j | 0 <= i < j < |cands| ensures |cands[i]| <= |cands[j]| {
      assert GeneratedBefore(ix[i], ix[j]);
    }
    KeepIfSubsequence(cands, key => Unique(rows, key));
    KeepIfKeepsOrder(cands, key => Unique(rows, key), (a: seq<string>, b: seq<string>) => |a| <= |b|);
  }

  /** Different index tuples pick different column tuples from a header without repeats. */
  lemma PickInjective(header: seq<string>, c: seq<nat>, d: seq<nat>)
    requires Distinct(header)
    requires forall t | 0 <= t < |c| :: c[t] < |header|
    requires forall t | 0 <= t < |d| :: d[t] < |header|
    requires c != d
    ensures Pick(header, c) != Pick(header, d)
  {
    if |c| == |d| {
      assert exists t | 0 <= t < |c| :: c[t] != d[t];
      var t :| 0 <= t < |c| && c[t] != d[t];
      assert Pick(header, c)[t] == header[c[t]] && Pick(header, d)[t] == header[d[t]];
    }
  }

  /** A header without repeats gives candidates without repeats. */
  lemma KeyCandidatesDistinct(header: seq<string>, bound: int)
    requires Distinct(header)
    ensures Distinct(KeyCandidates(header, bound))
  {
    var ix := Candidates(|header|, bound);
    var cands := KeyCandidates(header, bound);
    CandidatesShape(|header|, bound);
    CandidatesDistinct(|header|, bound);
    forall i, j | 0 <= i < j < |cands| ensures cands[i] != cands[j] {
      PickInjective(header, ix[i], ix[j]);
    }
  }

  /**
   With a header without repeats (as the renamed header always is), no key is
   reported twice, with or without `number`.
   */
  lemma SuperKeysDistinct(header: seq<string>, rows: seq<Row>, maxKeySize: Option<int>, number: Option<int>)
    requires HasColumns(rows, header)
    requires IsliceStop(number)
    requires Distinct(header)
    ensures Distinct(SuperKeysOf(header, rows, maxKeySize, number))
  {
    var cands := KeyCandidates(header, KeySizeBound(maxKeySize, |header|));
    KeyCandidatesDistinct(header, KeySizeBound(maxKeySize, |header|));
    KeepIfDistinct(cands, key => Unique(rows, key));
    var found := KeepIf(cands, key => Unique(rows, key));
    if number.Some? {
      var r := TakeAtMost(found, number.value);
      forall i, j | 0 <= i < j < |r| ensures r[i] != r[j] {
        assert r[i] == found[i] && r[j] == found[j];
      }
    }
  }

  /**
   `main` after reading the file, with the exclusion filter as intended:
   exclusion filter, then regex filter, then the superkey pipeline over the
   remaining columns. Only the remaining columns are looked up, so the rows
   need not have the filtered-out ones.
   */
  function Search(header: seq<string>, rows: seq<Row>, exclusions: seq<string>, regex: Option<string>,
                  matchAtStart: (string, string) -> bool, maxKeySize: Option<int>, number: Option<int>): (keys: seq<seq<string>>)
    requires HasColumns(rows, FilterRegex(FilterExclusions(header, exclusions), regex, matchAtStart))
    requires IsliceStop(number)
    ensures number.Some? ==> |keys| <= number.value
  {
    var columns := FilterRegex(FilterExclusions(header, exclusions), regex, matchAtStart);
    SuperKeysOf(columns, rows, maxKeySize, number)
  }

  /**
   Every key the search reports is a superkey, and none of its columns is
   excluded by name or by the pattern.
   */
  lemma SearchSound(header: seq<string>, rows: seq<Row>, exclusions: seq<string>, regex: Option<string>,
                    matchAtStart: (string, string) -> bool, maxKeySize: Option<int>, number: Option<int>, key: seq<string>)
    requires HasColumns(rows, FilterRegex(FilterExclusions(header, exclusions), regex, matchAtStart))
    requires IsliceStop(number)
    requires key in Search(header, rows, exclusions, regex, matchAtStart, maxKeySize, number)
    ensures HasColumns(rows, key) && IsSuperKey(key, rows)
    ensures forall t | 0 <= t < |key| ::
      key[t] in header && key[t] !in exclusions && !RegexExcludes(regex, matchAtStart, key[t])
  {
    var columns := FilterRegex(FilterExclusions(header, exclusions), regex, matchAtStart);
    SuperKeysSound(columns, rows, maxKeySize, number, key);
    var c :| c in Candidates(|columns|, KeySizeBound(maxKeySize, |columns|))
      && 1 <= |c| <= KeySizeBound(maxKeySize, |columns|) && IndexTuple(c, 0, |columns|) && key == Pick(columns, c);
    PickCovered(columns, c);
  }

  /**
   Over a header without repeated titles, such as the renamed header, the whole
   search reports no key twice: both filters keep the header free of repeats.
   */
  lemma SearchDistinct(header: seq<string>, rows: seq<Row>, exclusions: seq<string>, regex: Option<string>,
                       matchAtStart: (string, string) -> bool, maxKeySize: Option<int>, number: Option<int>)
    requires HasColumns(rows, FilterRegex(FilterExclusions(header, exclusions), regex, matchAtStart))
    requires IsliceStop(number)
    requires Distinct(header)
    ensures Distinct(Search(header, rows, exclusions, regex, matchAtStart, maxKeySize, number))
  {
    var columns := FilterRegex(FilterExclusions(header, exclusions), regex, matchAtStart);
    SuperKeysDistinct(columns, rows, maxKeySize, number);
  }
}
