/**
 What both tools do right after CSV tokenisation: number the header titles so
 that they are unique (`f'{title} - {index}'`) and turn each record into a row
 dict with `dict(zip(header, record))`.
 */
module CsvTable {
  import opened Seqs
  import opened Dicts

  /** A data row: column name to cell text. */
  type Row = Dict<string>

  predicate IsDigit(c: char)
  {
    '0' <= c <= '9'
  }

  function DigitChar(d: nat): (c: char)
    requires d < 10
    ensures IsDigit(c)
  {
    ('0' as int + d) as char
  }

  /** `str(n)` for a non-negative int: decimal digits without leading zeros. */
  function Decimal(n: nat): (s: string)
    ensures |s| >= 1
    ensures forall i | 0 <= i < |s| :: IsDigit(s[i])
    ensures |s| == 1 <==> n < 10
  {
    if n < 10 then [DigitChar(n)] else Decimal(n / 10) + [DigitChar(n % 10)]
  }

  /** Different numbers have different numerals. */
  lemma {:induction false} DecimalInjective(m: nat, n: nat)
    requires m != n
    ensures Decimal(m) != Decimal(n)
  {
    if m >= 10 && n >= 10 {
      var a, b := Decimal(m / 10), Decimal(n / 10);
      var dm, dn := Decimal(m), Decimal(n);
      assert dm == a + [DigitChar(m % 10)];
      assert dn == b + [DigitChar(n % 10)];
      if m % 10 == n % 10 {
        DecimalInjective(m / 10, n / 10);
        if |a| == |b| {
          assert dm[..|a|] == a && dn[..|b|] == b;
        }
      } else {
        assert DigitChar(m % 10) as int != DigitChar(n % 10) as int;
        assert dm[|dm| - 1] != dn[|dn| - 1];
      }
    } else if m < 10 && n < 10 {
      assert Decimal(m)[0] as int != Decimal(n)[0] as int;
    }
  }

  /** The renamed title `f'{title} - {index}'`. */
  function Label(title: string, index: nat): string
  {
    title + " - " + Decimal(index)
  }

  /** Labels made for different positions differ, whatever the titles. */
  lemma LabelsDiffer(t1: string, i: nat, t2: string, j: nat)
    requires i != j
    ensures Label(t1, i) != Label(t2, j)
  {
    var s1, s2 := Label(t1, i), Label(t2, j);
    var d1, d2 := Decimal(i), Decimal(j);
    assert s1[|s1| - |d1|..] == d1 && s2[|s2| - |d2|..] == d2;
    if |s1| == |s2| {
      if |d1| == |d2| {
        DecimalInjective(i, j);
      } else if |d1| < |d2| {
        var p := |s1| - |d1| - 1;
        assert s1[p] == ' ';
        assert s2[p] == d2[|d2| - |d1| - 1];
        assert s1[p] != s2[p];
      } else {
        var p := |s2| - |d2| - 1;
        assert s2[p] == ' ';
        assert s1[p] == d1[|d1| - |d2| - 1];
        assert s1[p] != s2[p];
      }
    }
  }

  /** `[f'{title} - {index}' for index, title in enumerate(header)]`. */
  function RenameHeader(header: seq<string>): (r: seq<string>)
    ensures |r| == |header|
    ensures Distinct(r)
    ensures forall i | 0 <= i < |r| :: |header[i]| <= |r[i]| && r[i][..|header[i]|] == header[i]
  {
    var r := seq(|header|, i requires 0 <= i < |header| => Label(header[i], i));
    assert Distinct(r) by {
      forall i, j | 0 <= i < j < |r| ensures r[i] != r[j] {
        LabelsDiffer(header[i], i, header[j], j);
      }
    }
    r
  }

  /** `zip(header, record)`: pairs up to the shorter of the two. */
  function Zip(header: seq<string>, record: seq<string>): (ps: seq<(string, string)>)
    ensures |ps| == if |header| < |record| then |header| else |record|
  {
    var n := if |header| < |record| then |header| else |record|;
    seq(n, i requires 0 <= i < n => (header[i], record[i]))
  }

  /** `dict(zip(header, record))`. */
  function ZipRow(header: seq<string>, record: seq<string>): Row
  {
    FromPairs(Zip(header, record))
  }

  /** Distinct column names give pairs with distinct first components. */
  lemma ZipDistinct(header: seq<string>, record: seq<string>)
    requires Distinct(header)
    ensures DistinctFirsts(Zip(header, record))
  {
    var ps := Zip(header, record);
    forall i, j | 0 <= i < j < |ps| ensures ps[i].0 != ps[j].0 {
      assert ps[i].0 == header[i] && ps[j].0 == header[j];
    }
  }

  /**
   With distinct column names, the row dict maps `header[i]` to `record[i]` for
   every position both have, in header order, and has no other key.
   */
  lemma ZipRowFields(header: seq<string>, record: seq<string>)
    requires Distinct(header)
    ensures ZipRow(header, record).keys == header[..|Zip(header, record)|]
    ensures forall i | 0 <= i < |Zip(header, record)| :: ZipRow(header, record).vals[header[i]] == record[i]
    ensures forall k :: k in ZipRow(header, record).vals <==> k in header[..|Zip(header, record)|]
  {
    var ps := Zip(header, record);
    ZipDistinct(header, record);
    FromDistinctPairs(ps);
    var row := FromPairs(ps);
    forall i | 0 <= i < |ps| ensures row.keys[i] == header[i] && row.vals[header[i]] == record[i] {
      assert ps[i] == (header[i], record[i]);
    }
    assert row.keys == header[..|ps|];
  }

  /**
   `get_csv_rows` after tokenisation: the first record is the header, renamed to
   unique titles; every later record becomes a row dict over those titles.
   */
  function GetCsvRows(records: seq<seq<string>>): (rows: seq<Row>)
    requires |records| >= 1
    ensures |rows| == |records| - 1
  {
    var header := RenameHeader(records[0]);
    seq(|records| - 1, i requires 0 <= i < |records| - 1 => ZipRow(header, records[i + 1]))
  }

  /**
   Row `i` maps the `j`-th renamed title to field `j` of record `i + 1`, for
   every field the record and the header both have, and has no other key.
   */
  lemma GetCsvRowsFields(records: seq<seq<string>>, i: nat)
    requires |records| >= 1 && i < |records| - 1
    ensures
      var header := RenameHeader(records[0]);
      var record := records[i + 1];
      var n := if |header| < |record| then |header| else |record|;
      var row := GetCsvRows(records)[i];
      && row.keys == header[..n]
      && (forall j | 0 <= j < n :: row.vals[header[j]] == record[j])
      && (forall k :: k in row.vals <==> k in header[..n])
  {
    ZipRowFields(RenameHeader(records[0]), records[i + 1]);
  }
}
