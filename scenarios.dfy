/**
 Worked examples of the superkey search on small tables: which keys are
 reported, in which order, under a size bound, with no rows, and after an
 exclusion.
 */
module SuperKeyScenarios {
  import opened Seqs
  import opened Dicts
  import opened CsvTable
  import opened Combinations
  import opened SuperKeys

  function R(a: string, b: string): Row
  {
    DictRep(["A", "B"], map["A" := a, "B" := b])
  }

  lemma TwoColumnCandidates()
    ensures Candidates(2, 1) == [[0], [1]]
    ensures Candidates(2, 2) == [[0], [1], [0, 1]]
  {
    assert [1] + [] == [1] && [0] + [] == [0] && [0] + [1] == [0, 1];
    assert Prepend(1, [[]]) == [[1]];
    assert Combos(1, 2, 1) == [[1]];
    assert Prepend(0, [[]]) == [[0]];
    assert Combos(0, 2, 1) == [[0], [1]];
    assert Combos(1, 2, 2) == [];
    assert Prepend(0, [[1]]) == [[0, 1]];
    assert Combos(0, 2, 2) == [[0, 1]];
    assert Candidates(2, 0) == [];
  }

  /** The candidate keys over two columns, in generation order. */
  lemma TwoColumnKeys(a: string, b: string)
    ensures KeyCandidates([a, b], 1) == [[a], [b]]
    ensures KeyCandidates([a, b], 2) == [[a], [b], [a, b]]
  {
    var h := [a, b];
    TwoColumnCandidates();
    assert Pick(h, [0]) == [a] && Pick(h, [1]) == [b] && Pick(h, [0, 1]) == [a, b];
  }

  /** `KeepIf` on three elements, spelled out. */
  lemma KeepThree<T(!new)>(x: T, y: T, z: T, p: T -> bool)
    ensures KeepIf([x, y, z], p) == (if p(x) then [x] else []) + (if p(y) then [y] else []) + (if p(z) then [z] else [])
  {
    assert [x, y, z][1..] == [y, z] && [y, z][1..] == [z] && [z][1..] == [];
    var kz := KeepIf([z], p);
    assert kz == (if p(z) then [z] else []) + KeepIf([], p);
    var ky := KeepIf([y, z], p);
    assert ky == (if p(y) then [y] else []) + kz;
    assert KeepIf([x, y, z], p) == (if p(x) then [x] else []) + ky;
  }

  /** Both columns of a row built by `R`, and their projections. */
  lemma RFields(a: string, b: string)
    ensures "A" in R(a, b).vals && "B" in R(a, b).vals
    ensures Project(R(a, b), ["A"]) == [a] && Project(R(a, b), ["B"]) == [b]
  {
  }

  /** The uniqueness test on two rows. */
  lemma UniqueTwo(r0: Row, r1: Row, key: seq<string>)
    requires forall t | 0 <= t < |key| :: key[t] in r0.vals && key[t] in r1.vals
    ensures HasColumns([r0, r1], key)
    ensures Unique([r0, r1], key) <==> Project(r0, key) != Project(r1, key)
  {
    var rows := [r0, r1];
    assert rows[0] == r0 && rows[1] == r1;
  }

  /** The uniqueness test on three rows. */
  lemma UniqueThree(r0: Row, r1: Row, r2: Row, key: seq<string>)
    requires forall t | 0 <= t < |key| :: key[t] in r0.vals && key[t] in r1.vals && key[t] in r2.vals
    ensures HasColumns([r0, r1, r2], key)
    ensures Unique([r0, r1, r2], key) <==>
      Project(r0, key) != Project(r1, key) && Project(r0, key) != Project(r2, key) && Project(r1, key) != Project(r2, key)
  {
    var rows := [r0, r1, r2];
    assert rows[0] == r0 && rows[1] == r1 && rows[2] == r2;
  }

  /** Column A is `1, 2, 3`; column B is `x, x, y`. */
  function DistinctA(): seq<Row>
  {
    [R("1", "x"), R("2", "x"), R("3", "y")]
  }

  lemma DistinctAKeys()
    ensures HasColumns(DistinctA(), ["A", "B"])
    ensures Unique(DistinctA(), ["A"]) && !Unique(DistinctA(), ["B"]) && Unique(DistinctA(), ["A", "B"])
  {
    var r0, r1, r2 := R("1", "x"), R("2", "x"), R("3", "y");
    RFields("1", "x");
    RFields("2", "x");
    RFields("3", "y");
    var rows := [r0, r1, r2];
    UniqueThree(r0, r1, r2, ["A", "B"]);
    UniqueThree(r0, r1, r2, ["A"]);
    UniqueThree(r0, r1, r2, ["B"]);
    SuperKeyMonotone(["A"], ["A", "B"], rows);
  }

  /** B alone repeats `x`, so the keys are (A,) and (A, B); with a size bound of 1 only (A,). */
  lemma DistinctFirstColumn()
    ensures SuperKeysOf(["A", "B"], DistinctA(), None, None) == [["A"], ["A", "B"]]
    ensures SuperKeysOf(["A", "B"], DistinctA(), Some(1), None) == [["A"]]
  {
    DistinctAKeys();
    TwoColumnKeys("A", "B");
    KeepThree(["A"], ["B"], ["A", "B"], key => Unique(DistinctA(), key));
    assert KeepIf([["A"], ["B"]], key => Unique(DistinctA(), key)) == [["A"]];
  }

  /** Column A is `1, 1`; column B is `x, y`. */
  function RepeatedA(): seq<Row>
  {
    [R("1", "x"), R("1", "y")]
  }

  lemma RepeatedAKeys()
    ensures HasColumns(RepeatedA(), ["A", "B"])
    ensures !Unique(RepeatedA(), ["A"]) && Unique(RepeatedA(), ["B"]) && Unique(RepeatedA(), ["A", "B"])
  {
    var r0, r1 := R("1", "x"), R("1", "y");
    RFields("1", "x");
    RFields("1", "y");
    var rows := [r0, r1];
    UniqueTwo(r0, r1, ["A", "B"]);
    UniqueTwo(r0, r1, ["A"]);
    UniqueTwo(r0, r1, ["B"]);
    SuperKeyMonotone(["B"], ["A", "B"], rows);
  }

  /** A never distinguishes the rows, so the keys are (B,) and (A, B). */
  lemma RepeatedFirstColumn()
    ensures SuperKeysOf(["A", "B"], RepeatedA(), None, None) == [["B"], ["A", "B"]]
  {
    RepeatedAKeys();
    TwoColumnKeys("A", "B");
    KeepThree(["A"], ["B"], ["A", "B"], key => Unique(RepeatedA(), key));
  }

  /** With no rows every non-empty column tuple is a key, and `number` keeps a prefix. */
  lemma NoRows()
    ensures SuperKeysOf(["A", "B"], [], None, None) == [["A"], ["B"], ["A", "B"]]
    ensures SuperKeysOf(["A", "B"], [], None, Some(2)) == [["A"], ["B"]]
  {
    var rows: seq<Row> := [];
    TwoColumnKeys("A", "B");
    assert Unique(rows, ["A"]) && Unique(rows, ["B"]) && Unique(rows, ["A", "B"]);
    KeepThree(["A"], ["B"], ["A", "B"], key => Unique(rows, key));
  }

  /** A negative maximum key size leaves no size to enumerate. */
  lemma NegativeBound()
    ensures SuperKeysOf(["A", "B"], [], Some(-1), None) == []
  {
    assert KeySizeBound(Some(-1), 2) == -1;
    assert Candidates(2, -1) == [];
  }

  /** The renamed header `id, name, notes`. */
  function Notes3(): seq<string>
  {
    ["id - 0", "name - 1", "notes - 2"]
  }

  /** The second record has no `notes` field, so its row lacks that column. */
  function ShortNotes(): seq<Row>
  {
    [DictRep(["id - 0", "name - 1", "notes - 2"], map["id - 0" := "1", "name - 1" := "a", "notes - 2" := "z"]),
     DictRep(["id - 0", "name - 1"], map["id - 0" := "2", "name - 1" := "b"])]
  }

  /** A regex that matches `notes - 2` at its start and neither other title. */
  predicate NotesOnly(matchAtStart: (string, string) -> bool)
  {
    matchAtStart("^notes", "notes - 2") && !matchAtStart("^notes", "id - 0") && !matchAtStart("^notes", "name - 1")
  }

  lemma NotesFiltered(matchAtStart: (string, string) -> bool)
    requires NotesOnly(matchAtStart)
    ensures FilterRegex(FilterExclusions(Notes3(), []), Some("^notes"), matchAtStart) == ["id - 0", "name - 1"]
  {
    KeepThree("id - 0", "name - 1", "notes - 2", key => !matchAtStart("^notes", key));
  }

  /** The two columns that remain, in both rows, and their projections. */
  lemma ShortNotesFields()
    ensures forall t | 0 <= t < 2 :: ["id - 0", "name - 1"][t] in ShortNotes()[0].vals && ["id - 0", "name - 1"][t] in ShortNotes()[1].vals
    ensures Project(ShortNotes()[0], ["id - 0"]) == ["1"] && Project(ShortNotes()[1], ["id - 0"]) == ["2"]
    ensures Project(ShortNotes()[0], ["name - 1"]) == ["a"] && Project(ShortNotes()[1], ["name - 1"]) == ["b"]
  {
  }

  lemma ShortNotesKeys()
    ensures HasColumns(ShortNotes(), ["id - 0", "name - 1"])
    ensures Unique(ShortNotes(), ["id - 0"]) && Unique(ShortNotes(), ["name - 1"]) && Unique(ShortNotes(), ["id - 0", "name - 1"])
  {
    var rows := ShortNotes();
    var r0, r1 := rows[0], rows[1];
    assert rows == [r0, r1];
    ShortNotesFields();
    UniqueTwo(r0, r1, ["id - 0", "name - 1"]);
    UniqueTwo(r0, r1, ["id - 0"]);
    UniqueTwo(r0, r1, ["name - 1"]);
    SuperKeyMonotone(["id - 0"], ["id - 0", "name - 1"], rows);
  }

  /** Over the two remaining columns every combination is a key. */
  lemma ShortNotesSuperKeys()
    ensures SuperKeysOf(["id - 0", "name - 1"], ShortNotes(), None, None) == [["id - 0"], ["name - 1"], ["id - 0", "name - 1"]]
  {
    ShortNotesKeys();
    TwoColumnKeys("id - 0", "name - 1");
    KeepThree(["id - 0"], ["name - 1"], ["id - 0", "name - 1"], key => Unique(ShortNotes(), key));
  }

  /**
   A record may lack a column that the regex removes: only the remaining
   columns are looked up, and every combination of them is a key here.
   */
  lemma ShortRecordOfFilteredColumn(matchAtStart: (string, string) -> bool)
    requires NotesOnly(matchAtStart)
    ensures !HasColumns(ShortNotes(), Notes3())
    ensures HasColumns(ShortNotes(), FilterRegex(FilterExclusions(Notes3(), []), Some("^notes"), matchAtStart))
    ensures Search(Notes3(), ShortNotes(), [], Some("^notes"), matchAtStart, None, None)
      == [["id - 0"], ["name - 1"], ["id - 0", "name - 1"]]
  {
    assert "notes - 2" !in ShortNotes()[1].vals && Notes3()[2] == "notes - 2";
    NotesFiltered(matchAtStart);
    ShortNotesKeys();
    ShortNotesSuperKeys();
  }

  /** Excluding B from (A, B, C) leaves (A, C) for the enumeration. */
  lemma ExcludeMiddle()
    ensures FilterExclusions(["A", "B", "C"], ["B"]) == ["A", "C"]
  {
    var r := FilterExclusions(["A", "B", "C"], ["B"]);
    assert |r| <= 3;
    assert "A" in r && "C" in r && "B" !in r;
  }
}
