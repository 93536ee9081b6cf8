/**
 * Worked examples of the grouping pass on small tables, each proved by
 * evaluating the pass column by column.
 */
module GroupingExamples {
  import opened Wrappers
  import opened JavaText
  import opened AssayTable
  import opened Grouping

  /** The `Sample Name` header is neither a factor nor an ontology-source column, nor a unit. */
  lemma SampleNameHeader()
    ensures !Contains("Sample Name", "Factor") && !OntologyColumn("Sample Name")
    ensures !EqualsIgnoreCase("Sample Name", "unit")
  {
    NotContainsFirstChar("Sample Name", "Factor");
    NotContainsLonger("Sample Name", "Term Source REF");
    NotContainsLonger("Sample Name", "Term Accession Number");
  }

  /** Both factor-value headers mention `Factor`. */
  lemma FactorHeaders()
    ensures Contains("Factor Value[Time]", "Factor") && Contains("Factor Value[Dose]", "Factor")
  {
    assert IsPrefix("Factor", "Factor Value[Time]");
    assert IsPrefix("Factor", "Factor Value[Dose]");
  }

  /** The `Unit` header is a unit column, but neither a factor nor an ontology-source column. */
  lemma UnitHeader()
    ensures !Contains("Unit", "Factor") && EqualsIgnoreCase("Unit", "unit") && !OntologyColumn("Unit")
  {
    NotContainsLonger("Unit", "Factor");
    NotContainsLonger("Unit", "Term Source REF");
    NotContainsLonger("Unit", "Term Accession Number");
  }

  /** A label made of a space and a text with no trimmable character at either end trims to that text. */
  lemma TrimLeadingSpace(x: string)
    requires |x| > 0 && !IsTrimmable(x[0]) && !IsTrimmable(x[|x| - 1])
    ensures Trim(" " + x) == x
  {
    assert (" " + x)[1..] == x;
    assert TrimStart(" " + x) == x;
  }

  /** A lone space trims to the empty string. */
  lemma TrimSpace()
    ensures Trim(" ") == ""
  {
    assert forall i | 0 <= i < |" "| :: IsTrimmable(" "[i]);
  }

  /** The label of a row in which exactly the columns `a` and then `b` are selected. */
  lemma TwoColumnLabel(hs: seq<string>, row: Row, a: nat, b: nat)
    requires a < |hs| && b < |hs| && a < |row| && b < |row|
    ensures Label(hs, row, [a, b], false) == Success(" " + CellText(row[a]) + "| " + CellText(row[b]))
  {
    OneColumnLabel(hs, row, a);
    LabelStep(hs, row, [a], b, false);
    assert [a] + [b] == [a, b];
    JoinTwo(CellText(row[a]), CellText(row[b]));
  }

  lemma JoinTwo(x: string, y: string)
    ensures " " + x + "|" + (" " + y) == " " + x + "| " + y
  {
  }

  /** The label of a row in which only column `a` is selected. */
  lemma OneColumnLabel(hs: seq<string>, row: Row, a: nat)
    requires a < |hs| && a < |row|
    ensures Label(hs, row, [a], false) == Success(" " + CellText(row[a]))
  {
    LabelStep(hs, row, [], a, false);
    assert [] + [a] == [a];
    assert "" + "" + (" " + CellText(row[a])) == " " + CellText(row[a]);
  }

  /** The pass over the first row of `rows`, starting from no groups. */
  lemma FirstRow(hs: seq<string>, rows: seq<Row>, group: string)
    requires |rows| > 0
    ensures var entry := Entry(hs, rows[0], group, false, false, false);
            GroupRows(hs, rows[..1], group, false, false) ==
              if entry.Failure? then Failure(entry.error)
              else if entry.value.None? then Success(map[])
              else Success(AddTo(map[], entry.value.value.0, entry.value.value.1))
  {
    assert rows[..0] == [];
    GroupRowsPrefix(hs, rows, group, false, false, 0, map[]);
  }

  /** The pass over two rows, given the pass over the first. */
  lemma SecondRow(hs: seq<string>, rows: seq<Row>, group: string, groups: map<string, set<Cell>>)
    requires |rows| == 2
    requires GroupRows(hs, rows[..1], group, false, false) == Success(groups)
    ensures var entry := Entry(hs, rows[1], group, false, false, FlagAt(hs, group, false, 1));
            GroupRows(hs, rows, group, false, false) ==
              if entry.Failure? then Failure(entry.error)
              else if entry.value.None? then Success(groups)
              else Success(AddTo(groups, entry.value.value.0, entry.value.value.1))
  {
    GroupRowsPrefix(hs, rows, group, false, false, 1, groups);
    assert rows[..2] == rows;
  }

  /** In [Sample Name, Factor Value[Time], Unit] the factor and its unit are selected, whatever flag is carried in. */
  lemma TimeUnitSelection(hs: seq<string>, flag: bool)
    requires |hs| == 3 && hs[0] == "Sample Name" && hs[1] == "Factor Value[Time]" && hs[2] == "Unit"
    ensures Select(hs, "Factor", false, flag, 3) == Selection([1, 2], true)
  {
    assert !ColumnMatches(hs[0], "Factor", false, flag) && !OntologyColumn(hs[0]) by { SampleNameHeader(); }
    SelectSkip(hs, flag, 0, [], flag);
    assert ColumnMatches(hs[1], "Factor", false, false) by { FactorHeaders(); }
    SelectTake(hs, flag, 1, [], false);
    assert ColumnMatches(hs[2], "Factor", false, true) by { UnitHeader(); }
    SelectTake(hs, flag, 2, [1], true);
  }

  /** A header that is not selected leaves the columns as they were and sets the flag to whether it is an ontology column. */
  lemma SelectSkip(hs: seq<string>, flag: bool, col: nat, cols: seq<nat>, allowedUnit: bool)
    requires col < |hs|
    requires Select(hs, "Factor", false, flag, col) == Selection(cols, allowedUnit)
    requires !ColumnMatches(hs[col], "Factor", false, allowedUnit)
    ensures Select(hs, "Factor", false, flag, col + 1) == Selection(cols, OntologyColumn(hs[col]))
  {
    SelectStep(hs, "Factor", false, flag, col);
  }

  /** A selected header is appended to the columns and sets the flag. */
  lemma SelectTake(hs: seq<string>, flag: bool, col: nat, cols: seq<nat>, allowedUnit: bool)
    requires col < |hs|
    requires Select(hs, "Factor", false, flag, col) == Selection(cols, allowedUnit)
    requires ColumnMatches(hs[col], "Factor", false, allowedUnit)
    ensures Select(hs, "Factor", false, flag, col + 1) == Selection(cols + [col], true)
  {
    SelectStep(hs, "Factor", false, flag, col);
  }

  lemma TenHours(x: string, y: string)
    requires x == "10" && y == "hr"
    ensures " " + x + "| " + y == " 10| hr"
  {
  }

  lemma TimeUnitEntry(hs: seq<string>, row: Row, sample: string, flag: bool)
    requires |hs| == 3 && hs[0] == "Sample Name" && hs[1] == "Factor Value[Time]" && hs[2] == "Unit"
    requires row == [Some(sample), Some("10"), Some("hr")]
    ensures Entry(hs, row, "Factor", false, false, flag) == Success(Some(("10| hr", Some(sample))))
  {
    TimeUnitSelection(hs, flag);
    TwoColumnLabel(hs, row, 1, 2);
    TenHours(CellText(row[1]), CellText(row[2]));
    SampleInFirstColumn(hs, row);
    EntryIs(hs, row, flag, " 10| hr", Some(sample));
    TrimLeadingSpace("10| hr");
  }

  /**
   * Headers [Sample Name, Factor Value[Time], Unit] with rows (S1, 10, hr) and
   * (S2, 10, hr): both rows select the factor and the unit after it, so both
   * samples land in the one group "10| hr".
   */
  lemma FactorWithUnitExample(hs: seq<string>, rows: seq<Row>)
    requires |hs| == 3 && hs[0] == "Sample Name" && hs[1] == "Factor Value[Time]" && hs[2] == "Unit"
    requires rows == [[Some("S1"), Some("10"), Some("hr")], [Some("S2"), Some("10"), Some("hr")]]
    ensures GroupRows(hs, rows, "Factor", false, false) == Success(map["10| hr" := {Some("S1"), Some("S2")}])
  {
    TimeUnitEntry(hs, rows[0], "S1", false);
    FirstRow(hs, rows, "Factor");
    TimeUnitSelection(hs, false);
    assert FlagAt(hs, "Factor", false, 1);
    TimeUnitEntry(hs, rows[1], "S2", true);
    SecondRow(hs, rows, "Factor", AddTo(map[], "10| hr", Some("S1")));
    SameKeyTwice("10| hr", Some("S1"), Some("S2"));
  }

  /** Two samples added under one key share its group. */
  lemma SameKeyTwice(key: string, a: Cell, b: Cell)
    ensures AddTo(AddTo(map[], key, a), key, b) == map[key := {a, b}]
  {
    assert {} + {a} + {b} == {a, b};
  }

  lemma AddToFresh(key: string, sample: Cell)
    ensures AddTo(map[], key, sample) == map[key := {sample}]
  {
    assert {} + {sample} == {sample};
  }

  lemma AddToAbsent(groups: map<string, set<Cell>>, key: string, sample: Cell)
    requires key !in groups
    ensures AddTo(groups, key, sample) == groups[key := {sample}]
  {
    assert {} + {sample} == {sample};
  }

  /** A row whose label is `text`, not empty, and whose sample is `sample` contributes the trimmed label and the sample. */
  lemma EntryIs(hs: seq<string>, row: Row, flag: bool, text: string, sample: Cell)
    requires Label(hs, row, Select(hs, "Factor", false, flag, |hs|).columns, false) == Success(text)
    requires text != ""
    requires ColValAtRow(hs, row, "Sample Name") == Success(sample)
    ensures Entry(hs, row, "Factor", false, false, flag) == Success(Some((Trim(text), sample)))
  {
  }

  /** The sample of a row whose first column is its `Sample Name` column. */
  lemma SampleInFirstColumn(hs: seq<string>, row: Row)
    requires 1 <= |hs| && 1 <= |row| && hs[0] == "Sample Name"
    ensures ColValAtRow(hs, row, "Sample Name") == Success(row[0])
  {
    assert EqualsIgnoreCase(hs[0], "Sample Name");
  }

  /** The sample of a row whose `Sample Name` column is column 1, after a column with another name. */
  lemma SampleInSecondColumn(hs: seq<string>, row: Row)
    requires 2 <= |hs| && 2 <= |row|
    requires !EqualsIgnoreCase(hs[0], "Sample Name") && EqualsIgnoreCase(hs[1], "Sample Name")
    ensures ColValAtRow(hs, row, "Sample Name") == Success(row[1])
  {
  }

  /** In [Unit, Sample Name, Factor Value[Dose]] the leading `Unit` is selected when the flag carried in is set. */
  lemma DoseSelectionWithUnit(hs: seq<string>)
    requires |hs| == 3 && hs[0] == "Unit" && hs[1] == "Sample Name" && hs[2] == "Factor Value[Dose]"
    ensures Select(hs, "Factor", false, true, 3) == Selection([0, 2], true)
  {
    assert ColumnMatches(hs[0], "Factor", false, true) by { UnitHeader(); }
    assert !ColumnMatches(hs[1], "Factor", false, true) && !OntologyColumn(hs[1]) by { SampleNameHeader(); }
    assert ColumnMatches(hs[2], "Factor", false, false) by { FactorHeaders(); }
    TakeSkipTake(hs, true);
  }

  /** Three headers of which the first and the last are selected: the middle one neither matches nor keeps the flag. */
  lemma TakeSkipTake(hs: seq<string>, flag: bool)
    requires |hs| == 3
    requires ColumnMatches(hs[0], "Factor", false, flag)
    requires !ColumnMatches(hs[1], "Factor", false, true) && !OntologyColumn(hs[1])
    requires ColumnMatches(hs[2], "Factor", false, false)
    ensures Select(hs, "Factor", false, flag, 3) == Selection([0, 2], true)
  {
    SelectTake(hs, flag, 0, [], flag);
    SelectSkip(hs, flag, 1, [0], true);
    SelectTake(hs, flag, 2, [0], false);
  }

  /** In [Unit, Sample Name, Factor Value[Dose]] only the dose is selected when the flag carried in is clear. */
  lemma DoseSelectionAlone(hs: seq<string>)
    requires |hs| == 3 && hs[0] == "Unit" && hs[1] == "Sample Name" && hs[2] == "Factor Value[Dose]"
    ensures Select(hs, "Factor", false, false, 3) == Selection([2], true)
  {
    assert Select(hs, "Factor", false, false, 1) == Selection([], false) by {
      assert !ColumnMatches(hs[0], "Factor", false, false) && !OntologyColumn(hs[0]) by { UnitHeader(); }
      SelectSkip(hs, false, 0, [], false);
    }
    assert Select(hs, "Factor", false, false, 2) == Selection([], false) by {
      assert !ColumnMatches(hs[1], "Factor", false, false) && !OntologyColumn(hs[1]) by { SampleNameHeader(); }
      SelectSkip(hs, false, 1, [], false);
    }
    assert ColumnMatches(hs[2], "Factor", false, false) by { FactorHeaders(); }
    SelectTake(hs, false, 2, [], false);
  }

  lemma TenMilligrams(x: string, y: string)
    requires x == "mg" && y == "10"
    ensures " " + x + "| " + y == " mg| 10"
  {
  }

  lemma DoseHeaders(hs: seq<string>)
    requires |hs| == 3 && hs[0] == "Unit" && hs[1] == "Sample Name" && hs[2] == "Factor Value[Dose]"
    ensures !EqualsIgnoreCase(hs[0], "Sample Name") && EqualsIgnoreCase(hs[1], "Sample Name")
  {
  }

  /** With the flag set, a dose row's label also holds its leading unit. */
  lemma DoseEntryWithUnit(hs: seq<string>, row: Row, sample: string)
    requires |hs| == 3 && hs[0] == "Unit" && hs[1] == "Sample Name" && hs[2] == "Factor Value[Dose]"
    requires row == [Some("mg"), Some(sample), Some("10")]
    ensures Entry(hs, row, "Factor", false, false, true) == Success(Some(("mg| 10", Some(sample))))
  {
    DoseSelectionWithUnit(hs);
    TwoColumnLabel(hs, row, 0, 2);
    TenMilligrams(CellText(row[0]), CellText(row[2]));
    DoseHeaders(hs);
    SampleInSecondColumn(hs, row);
    EntryIs(hs, row, true, " mg| 10", Some(sample));
    TrimLeadingSpace("mg| 10");
  }

  /** With the flag clear, a dose row's label is its dose alone. */
  lemma DoseEntryAlone(hs: seq<string>, row: Row, sample: string)
    requires |hs| == 3 && hs[0] == "Unit" && hs[1] == "Sample Name" && hs[2] == "Factor Value[Dose]"
    requires row == [Some("mg"), Some(sample), Some("10")]
    ensures Entry(hs, row, "Factor", false, false, false) == Success(Some(("10", Some(sample))))
  {
    DoseSelectionAlone(hs);
    OneColumnLabel(hs, row, 2);
    assert " " + CellText(row[2]) == " 10";
    DoseHeaders(hs);
    SampleInSecondColumn(hs, row);
    EntryIs(hs, row, false, " 10", Some(sample));
    TrimLeadingSpace("10");
  }

  /**
   * Headers [Unit, Sample Name, Factor Value[Dose]] with rows (mg, S1, 10) and
   * (mg, S2, 10): the flag set by the last column of the first row carries into
   * the second, whose leading `Unit` column is then selected, so the two rows
   * with equal cells land in different groups, "10" and "mg| 10".
   */
  lemma CarriedUnitExample(hs: seq<string>, rows: seq<Row>)
    requires |hs| == 3 && hs[0] == "Unit" && hs[1] == "Sample Name" && hs[2] == "Factor Value[Dose]"
    requires rows == [[Some("mg"), Some("S1"), Some("10")], [Some("mg"), Some("S2"), Some("10")]]
    ensures GroupRows(hs, rows, "Factor", false, false) == Success(map["10" := {Some("S1")}, "mg| 10" := {Some("S2")}])
  {
    var first := map["10" := {Some("S1")}];
    DoseEntryAlone(hs, rows[0], "S1");
    FirstRow(hs, rows, "Factor");
    AddToFresh("10", Some("S1"));
    DoseSelectionAlone(hs);
    assert FlagAt(hs, "Factor", false, 1);
    DoseEntryWithUnit(hs, rows[1], "S2");
    SecondRow(hs, rows, "Factor", first);
    assert "mg| 10" !in first;
    AddToAbsent(first, "mg| 10", Some("S2"));
    assert first["mg| 10" := {Some("S2")}] == map["10" := {Some("S1")}, "mg| 10" := {Some("S2")}];
  }

  lemma BlankSelection(hs: seq<string>)
    requires |hs| == 2 && hs[0] == "Factor Value[Dose]" && hs[1] == "Sample Name"
    ensures Select(hs, "Factor", false, false, 2).columns == [0]
    ensures !EqualsIgnoreCase(hs[0], "Sample Name") && EqualsIgnoreCase(hs[1], "Sample Name")
  {
    assert ColumnMatches(hs[0], "Factor", false, false) by { FactorHeaders(); }
    SelectTake(hs, false, 0, [], false);
    assert !ColumnMatches(hs[1], "Factor", false, true) by { SampleNameHeader(); }
    SelectSkip(hs, false, 1, [0], true);
    assert !EqualsIgnoreCase(hs[0], "Sample Name") by { NotContainsLonger("Sample Name", "Factor Value[Dose]"); }
  }

  /** In [Factor Value[Dose], Sample Name] only the dose is selected, and the sample is column 1. */
  lemma BlankValueEntry(hs: seq<string>, row: Row)
    requires |hs| == 2 && hs[0] == "Factor Value[Dose]" && hs[1] == "Sample Name"
    requires row == [Some(""), Some("S1")]
    ensures Entry(hs, row, "Factor", false, false, false) == Success(Some(("", Some("S1"))))
  {
    BlankSelection(hs);
    OneColumnLabel(hs, row, 0);
    assert " " + CellText(row[0]) == " ";
    SampleInSecondColumn(hs, row);
    EntryIs(hs, row, false, " ", Some("S1"));
    TrimSpace();
  }

  /**
   * Headers [Factor Value[Dose], Sample Name] with the row ("", S1): the label
   * " " is not empty before it is trimmed, so the row is grouped, under the
   * empty key.
   */
  lemma BlankValueExample(hs: seq<string>, rows: seq<Row>)
    requires |hs| == 2 && hs[0] == "Factor Value[Dose]" && hs[1] == "Sample Name"
    requires rows == [[Some(""), Some("S1")]]
    ensures GroupRows(hs, rows, "Factor", false, false) == Success(map["" := {Some("S1")}])
  {
    BlankValueEntry(hs, rows[0]);
    FirstRow(hs, rows, "Factor");
    AddToFresh("", Some("S1"));
    assert rows[..1] == rows;
  }
}
