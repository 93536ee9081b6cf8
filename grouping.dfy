/**
 * The grouping pass `getDataGroupsWithTypeByColumn` and its two helpers,
 * `extractColumnType` and `getColValAtRow`.
 *
 * For each data row the pass selects the columns whose header mentions the
 * group string (plus a `Unit` column right after a selected or ontology-source
 * column), joins the selected cells into a label, trims it, and files the row's
 * `Sample Name` under that label. Which columns are selected depends only on the
 * header row and on the `allowedUnit` flag, which is not reset between rows.
 */
module Grouping {
  import opened Wrappers
  import opened JavaText
  import opened AssayTable

  /** The Java exceptions the parser can raise: on a ragged or malformed table, or on a graph not yet built. */
  datatype Exception =
    | ArrayIndexOutOfBounds(index: nat, length: nat)       // a selected column beyond the end of a row
    | StringIndexOutOfBounds(begin: int, end: int, length: nat)  // `substring` in extractColumnType
    | NullPointer                                          // a query on the graph before `parse` has built it

  // ---------------------------------------------------------------------------
  // extractColumnType

  /** A header whose first `[` (if any) is followed later by a `]`. */
  predicate WellBracketed(column: string)
  {
    IndexOf(column, '[') == -1 || IndexOf(column, '[') < IndexOf(column, ']')
  }

  /**
   * `extractColumnType(column)`: the text between the first `[` and the first
   * `]`, or the whole header when it has no `[`. The Java code throws
   * `StringIndexOutOfBoundsException` when the header is not well bracketed.
   */
  function ExtractColumnType(column: string): (r: string)
    requires WellBracketed(column)
    ensures '[' !in column ==> r == column
    ensures '[' in column ==>
              && ']' !in r
              && '[' !in column[..IndexOf(column, '[')]
              && column == column[..IndexOf(column, '[')] + "[" + r + "]" + column[IndexOf(column, ']') + 1..]
  {
    var open := IndexOf(column, '[');
    if open != -1 then
      var close := IndexOf(column, ']');
      assert column[..close] == column[..open] + "[" + column[open + 1..close];
      assert column == column[..close] + "]" + column[close + 1..];
      column[open + 1..close]
    else column
  }

  /** Round trip: the column type of `prefix[t]suffix` is `t` when neither `prefix` nor `t` holds a bracket. */
  lemma ColumnTypeOfBracketed(prefix: string, t: string, suffix: string)
    requires '[' !in prefix && ']' !in prefix && ']' !in t
    ensures WellBracketed(prefix + "[" + t + "]" + suffix)
    ensures ExtractColumnType(prefix + "[" + t + "]" + suffix) == t
  {
    var column := prefix + "[" + t + "]" + suffix;
    IndexOfAt(column, '[', |prefix|);
    IndexOfAt(column, ']', |prefix| + 1 + |t|);
  }

  /** `indexOf` finds `c` at `i` when `c` is at `i` and nowhere before. */
  lemma IndexOfAt(s: string, c: char, i: nat)
    requires i < |s| && s[i] == c && forall j | 0 <= j < i :: s[j] != c
    ensures IndexOf(s, c) == i
  {
    var r := IndexOf(s, c);
    assert s[i] in s;
    assert s[..i + 1][i] == c;
  }

  // ---------------------------------------------------------------------------
  // getColValAtRow

  /** The first column at or after `from` whose header equals `name` up to ASCII case. */
  function FindColumnFrom(columnNames: seq<string>, name: string, from: nat): (r: Option<nat>)
    requires from <= |columnNames|
    ensures r.Some? ==> from <= r.value < |columnNames| && EqualsIgnoreCase(columnNames[r.value], name)
    ensures forall i | from <= i < |columnNames| && (r.None? || i < r.value) :: !EqualsIgnoreCase(columnNames[i], name)
    decreases |columnNames| - from
  {
    if from == |columnNames| then None
    else if EqualsIgnoreCase(columnNames[from], name) then Some(from)
    else FindColumnFrom(columnNames, name, from + 1)
  }

  /**
   * `getColValAtRow(fileContents, columnNames, colName, row)`: the row's cell in
   * the first column named `colName` (ignoring ASCII case), or the empty string
   * when there is none; the row may be too short for that column.
   */
  function ColValAtRow(columnNames: seq<string>, row: Row, colName: string): (r: Result<Cell, Exception>)
    ensures (forall i | 0 <= i < |columnNames| :: !EqualsIgnoreCase(columnNames[i], colName)) ==> r == Success(Some(""))
    ensures forall i | 0 <= i < |columnNames| && EqualsIgnoreCase(columnNames[i], colName)
                       && (forall j | 0 <= j < i :: !EqualsIgnoreCase(columnNames[j], colName)) ::
              r == if i < |row| then Success(row[i]) else Failure(ArrayIndexOutOfBounds(i, |row|))
  {
    match FindColumnFrom(columnNames, colName, 0)
    case None => Success(Some(""))
    case Some(col) => if col < |row| then Success(row[col]) else Failure(ArrayIndexOutOfBounds(col, |row|))
  }

  // ---------------------------------------------------------------------------
  // Selecting the columns of one row

  /** Whether column header `column` is selected, given the `allowedUnit` flag left by the column before. */
  predicate ColumnMatches(column: string, group: string, exactMatch: bool, allowedUnit: bool)
  {
    (if exactMatch then EqualsIgnoreCase(column, group) else Contains(column, group))
    || (allowedUnit && EqualsIgnoreCase(column, "unit"))
  }

  /** An ontology-source column, after which a `Unit` column is still selected. */
  predicate OntologyColumn(column: string)
  {
    Contains(column, "Term Source REF") || Contains(column, "Term Accession Number")
  }

  /** The columns selected so far (in increasing order) and the `allowedUnit` flag after them. */
  datatype Selection = Selection(columns: seq<nat>, allowedUnit: bool)

  /** The selection made over the first `n` headers when the flag is `allowedUnit` before the first. */
  function Select(columnNames: seq<string>, group: string, exactMatch: bool, allowedUnit: bool, n: nat): (r: Selection)
    requires n <= |columnNames|
    ensures forall i | 0 <= i < |r.columns| :: r.columns[i] < n
    ensures forall i, j | 0 <= i < j < |r.columns| :: r.columns[i] < r.columns[j]
    decreases n
  {
    if n == 0 then Selection([], allowedUnit)
    else
      var s := Select(columnNames, group, exactMatch, allowedUnit, n - 1);
      if ColumnMatches(columnNames[n - 1], group, exactMatch, s.allowedUnit) then Selection(s.columns + [n - 1], true)
      else Selection(s.columns, OntologyColumn(columnNames[n - 1]))
  }

  /**
   * The selection in the terms of the documentation: a column is selected exactly
   * when its header mentions the group, or it is a `unit` column and the column
   * before it (for the first column: the flag carried in) was selected or was an
   * ontology-source column.
   */
  lemma {:induction false} SelectCharacterised(columnNames: seq<string>, group: string, exactMatch: bool,
                                               allowedUnit: bool, n: nat, c: nat)
    requires c < n <= |columnNames|
    ensures var before := if c == 0 then allowedUnit
                          else Select(columnNames, group, exactMatch, allowedUnit, c).allowedUnit;
            c in Select(columnNames, group, exactMatch, allowedUnit, n).columns <==>
              ColumnMatches(columnNames[c], group, exactMatch, before)
    ensures c > 0 ==>
              Select(columnNames, group, exactMatch, allowedUnit, c).allowedUnit ==
                (c - 1 in Select(columnNames, group, exactMatch, allowedUnit, c).columns
                 || OntologyColumn(columnNames[c - 1]))
    decreases n
  {
    if n - 1 > c {
      SelectCharacterised(columnNames, group, exactMatch, allowedUnit, n - 1, c);
    } else if c > 0 {
      SelectCharacterised(columnNames, group, exactMatch, allowedUnit, c, c - 1);
    }
  }

  /**
   * The flag carried in matters only for the first column, and only when that
   * column is a `unit` column that does not mention the group by itself.
   */
  lemma {:induction false} CarriedFlagOnlyReachesFirstColumn(columnNames: seq<string>, group: string,
                                                             exactMatch: bool, n: nat)
    requires 0 < n <= |columnNames|
    requires !EqualsIgnoreCase(columnNames[0], "unit")
    ensures Select(columnNames, group, exactMatch, true, n) == Select(columnNames, group, exactMatch, false, n)
    decreases n
  {
    if n > 1 {
      CarriedFlagOnlyReachesFirstColumn(columnNames, group, exactMatch, n - 1);
    }
  }

  // ---------------------------------------------------------------------------
  // The label of one row

  /** Java's string conversion of a cell in a concatenation: `null` prints as "null". */
  function CellText(cell: Cell): string
  {
    if cell.Some? then cell.value else "null"
  }

  /**
   * The text one selected column adds to `groupVal`: the column type and `=`
   * (with `includeColumnNames`) or a space, then the cell. The column type is
   * computed before the cell is read, so a malformed header is reported first.
   */
  function Piece(column: string, row: Row, col: nat, includeColumnNames: bool): (r: Result<string, Exception>)
    ensures r.Success? ==> r.value != []
    ensures r.Success? <==> (includeColumnNames ==> WellBracketed(column)) && col < |row|
  {
    if includeColumnNames && !WellBracketed(column) then
      Failure(StringIndexOutOfBounds(IndexOf(column, '[') + 1, IndexOf(column, ']'), |column|))
    else if col >= |row| then Failure(ArrayIndexOutOfBounds(col, |row|))
    else Success((if includeColumnNames then ExtractColumnType(column) + "=" else " ") + CellText(row[col]))
  }

  /** `groupVal` after the selected columns `cols`: their pieces, separated by `|`; the first failure, if any. */
  function Label(columnNames: seq<string>, row: Row, cols: seq<nat>, includeColumnNames: bool): (r: Result<string, Exception>)
    requires forall i | 0 <= i < |cols| :: cols[i] < |columnNames|
    decreases |cols|
  {
    if cols == [] then Success("")
    else
      var last := cols[|cols| - 1];
      match Label(columnNames, row, cols[..|cols| - 1], includeColumnNames)
      case Failure(e) => Failure(e)
      case Success(text) =>
        match Piece(columnNames[last], row, last, includeColumnNames)
        case Failure(e) => Failure(e)
        case Success(piece) => Success(text + (if |cols| > 1 then "|" else "") + piece)
  }

  /** The label is empty exactly when no column is selected (the check before `trim`). */
  lemma {:induction false} LabelEmptyIff(columnNames: seq<string>, row: Row, cols: seq<nat>, includeColumnNames: bool)
    requires forall i | 0 <= i < |cols| :: cols[i] < |columnNames|
    requires Label(columnNames, row, cols, includeColumnNames).Success?
    ensures Label(columnNames, row, cols, includeColumnNames).value == "" <==> cols == []
  {
  }

  /** Rows that agree on the selected columns get the same label: grouping depends on nothing else in the row. */
  lemma {:induction false} SameCellsSameLabel(columnNames: seq<string>, row1: Row, row2: Row, cols: seq<nat>,
                                              includeColumnNames: bool)
    requires forall i | 0 <= i < |cols| :: cols[i] < |columnNames|
    requires forall i | 0 <= i < |cols| :: cols[i] < |row1| && cols[i] < |row2| && row1[cols[i]] == row2[cols[i]]
    ensures Label(columnNames, row1, cols, includeColumnNames) == Label(columnNames, row2, cols, includeColumnNames)
    decreases |cols|
  {
    if cols != [] {
      SameCellsSameLabel(columnNames, row1, row2, cols[..|cols| - 1], includeColumnNames);
    }
  }

  /** A failure while labelling some selected columns is the failure of the whole label. */
  lemma {:induction false} LabelFailureSticks(columnNames: seq<string>, row: Row, cols: seq<nat>, more: seq<nat>,
                                              includeColumnNames: bool)
    requires forall i | 0 <= i < |cols| :: cols[i] < |columnNames|
    requires forall i | 0 <= i < |more| :: more[i] < |columnNames|
    requires Label(columnNames, row, cols, includeColumnNames).Failure?
    ensures Label(columnNames, row, cols + more, includeColumnNames) == Label(columnNames, row, cols, includeColumnNames)
    decreases |more|
  {
    if more == [] {
      assert cols + more == cols;
    } else {
      assert (cols + more)[..|cols + more| - 1] == cols + more[..|more| - 1];
      LabelFailureSticks(columnNames, row, cols, more[..|more| - 1], includeColumnNames);
    }
  }

  /** The columns selected over a shorter prefix of the headers are a prefix of those selected over a longer one. */
  lemma {:induction false} SelectExtends(columnNames: seq<string>, group: string, exactMatch: bool, allowedUnit: bool,
                                         m: nat, n: nat)
    requires m <= n <= |columnNames|
    ensures Select(columnNames, group, exactMatch, allowedUnit, m).columns
            <= Select(columnNames, group, exactMatch, allowedUnit, n).columns
    decreases n
  {
    if m < n {
      SelectExtends(columnNames, group, exactMatch, allowedUnit, m, n - 1);
    }
  }

  // ---------------------------------------------------------------------------
  // The groups

  /** The `allowedUnit` flag carried into data row `r`: false for the first row, then whatever the row before left. */
  function FlagAt(columnNames: seq<string>, group: string, exactMatch: bool, r: nat): bool
    decreases r
  {
    if r == 0 then false
    else Select(columnNames, group, exactMatch, FlagAt(columnNames, group, exactMatch, r - 1), |columnNames|).allowedUnit
  }

  /**
   * What a row contributes: its trimmed label and its sample name, or nothing
   * when no column is selected. The emptiness test is on the label before it
   * is trimmed.
   */
  function Entry(columnNames: seq<string>, row: Row, group: string, exactMatch: bool, includeColumnNames: bool,
                 allowedUnit: bool): Result<Option<(string, Cell)>, Exception>
  {
    var selection := Select(columnNames, group, exactMatch, allowedUnit, |columnNames|);
    match Label(columnNames, row, selection.columns, includeColumnNames)
    case Failure(e) => Failure(e)
    case Success(groupVal) =>
      if groupVal == "" then Success(None)
      else
        match ColValAtRow(columnNames, row, "Sample Name")
        case Failure(e) => Failure(e)
        case Success(sample) => Success(Some((Trim(groupVal), sample)))
  }

  /** `groups.get(key).add(sample)`, creating the set first when the key is new. */
  function AddTo(groups: map<string, set<Cell>>, key: string, sample: Cell): map<string, set<Cell>>
  {
    groups[key := (if key in groups then groups[key] else {}) + {sample}]
  }

  /** The groups after the data rows `rows`, or the exception that ends the pass. */
  function GroupRows(columnNames: seq<string>, rows: seq<Row>, group: string, exactMatch: bool,
                     includeColumnNames: bool): Result<map<string, set<Cell>>, Exception>
    decreases |rows|
  {
    if rows == [] then Success(map[])
    else
      var n := |rows| - 1;
      match GroupRows(columnNames, rows[..n], group, exactMatch, includeColumnNames)
      case Failure(e) => Failure(e)
      case Success(groups) =>
        match Entry(columnNames, rows[n], group, exactMatch, includeColumnNames, FlagAt(columnNames, group, exactMatch, n))
        case Failure(e) => Failure(e)
        case Success(None) => Success(groups)
        case Success(Some(entry)) => Success(AddTo(groups, entry.0, entry.1))
  }

  /** Once a row raises an exception, the pass ends with it. */
  lemma {:induction false} GroupFailureSticks(columnNames: seq<string>, rows: seq<Row>, group: string, exactMatch: bool,
                                              includeColumnNames: bool, n: nat)
    requires n <= |rows|
    requires GroupRows(columnNames, rows[..n], group, exactMatch, includeColumnNames).Failure?
    ensures GroupRows(columnNames, rows, group, exactMatch, includeColumnNames)
            == GroupRows(columnNames, rows[..n], group, exactMatch, includeColumnNames)
    decreases |rows|
  {
    if n < |rows| {
      assert rows[..|rows| - 1][..n] == rows[..n];
      GroupFailureSticks(columnNames, rows[..|rows| - 1], group, exactMatch, includeColumnNames, n);
    } else {
      assert rows[..n] == rows;
    }
  }

  /** A successful pass over `rows` is a successful pass over all but the last row, then that row's entry. */
  lemma GroupRowsStep(columnNames: seq<string>, rows: seq<Row>, group: string, exactMatch: bool,
                      includeColumnNames: bool)
    requires rows != []
    requires GroupRows(columnNames, rows, group, exactMatch, includeColumnNames).Success?
    ensures var n := |rows| - 1;
            var before := GroupRows(columnNames, rows[..n], group, exactMatch, includeColumnNames);
            var entry := Entry(columnNames, rows[n], group, exactMatch, includeColumnNames,
                               FlagAt(columnNames, group, exactMatch, n));
            before.Success? && entry.Success?
            && GroupRows(columnNames, rows, group, exactMatch, includeColumnNames).value ==
                 if entry.value.None? then before.value else AddTo(before.value, entry.value.value.0, entry.value.value.1)
  {
  }

  /** Filing one entry adds exactly that (key, sample) pair. */
  lemma AddToMembers(groups: map<string, set<Cell>>, k: string, s: Cell, key: string, sample: Cell)
    ensures key in AddTo(groups, k, s) && sample in AddTo(groups, k, s)[key] <==>
              (key in groups && sample in groups[key]) || (key == k && sample == s)
    ensures key in AddTo(groups, k, s) <==> key in groups || key == k
    ensures key == k ==> AddTo(groups, k, s)[key] != {}
    ensures key in groups && key != k ==> AddTo(groups, k, s)[key] == groups[key]
  {
  }

  /** Data row `r`, given the flag carried into it, files `sample` under `key`. */
  predicate Contributes(columnNames: seq<string>, row: Row, r: nat, group: string, exactMatch: bool,
                        includeColumnNames: bool, key: string, sample: Cell)
  {
    Entry(columnNames, row, group, exactMatch, includeColumnNames, FlagAt(columnNames, group, exactMatch, r))
    == Success(Some((key, sample)))
  }

  /**
   * The groups are exactly the entries of the rows: a sample is filed under a
   * key precisely when some row contributes that (key, sample) pair given the
   * flag carried into it; and no group is empty.
   */
  lemma GroupsCollectEntries(columnNames: seq<string>, rows: seq<Row>, group: string,
                             exactMatch: bool, includeColumnNames: bool, key: string, sample: Cell)
    requires GroupRows(columnNames, rows, group, exactMatch, includeColumnNames).Success?
    ensures var groups := GroupRows(columnNames, rows, group, exactMatch, includeColumnNames).value;
            (key in groups && sample in groups[key] <==>
              exists r | 0 <= r < |rows| ::
                Contributes(columnNames, rows[r], r, group, exactMatch, includeColumnNames, key, sample))
            && (key in groups ==> groups[key] != {})
  {
    FiledHasContributor(columnNames, rows, group, exactMatch, includeColumnNames, key, sample);
    if exists r | 0 <= r < |rows| :: Contributes(columnNames, rows[r], r, group, exactMatch, includeColumnNames, key, sample) {
      var r :| 0 <= r < |rows| && Contributes(columnNames, rows[r], r, group, exactMatch, includeColumnNames, key, sample);
      ContributorFiled(columnNames, rows, group, exactMatch, includeColumnNames, key, sample, r);
    }
  }

  /** Every sample in a group was filed there by some row, and no group is empty. */
  lemma {:induction false} FiledHasContributor(columnNames: seq<string>, rows: seq<Row>, group: string,
                                               exactMatch: bool, includeColumnNames: bool, key: string, sample: Cell)
    requires GroupRows(columnNames, rows, group, exactMatch, includeColumnNames).Success?
    ensures var groups := GroupRows(columnNames, rows, group, exactMatch, includeColumnNames).value;
            (key in groups && sample in groups[key] ==>
              exists r | 0 <= r < |rows| ::
                Contributes(columnNames, rows[r], r, group, exactMatch, includeColumnNames, key, sample))
            && (key in groups ==> groups[key] != {})
    decreases |rows|
  {
    if rows == [] {
      assert GroupRows(columnNames, rows, group, exactMatch, includeColumnNames) == Success(map[]);
    } else {
      var n := |rows| - 1;
      var prev := rows[..n];
      GroupRowsStep(columnNames, rows, group, exactMatch, includeColumnNames);
      FiledHasContributor(columnNames, prev, group, exactMatch, includeColumnNames, key, sample);
      var before := GroupRows(columnNames, prev, group, exactMatch, includeColumnNames).value;
      var entry := Entry(columnNames, rows[n], group, exactMatch, includeColumnNames,
                         FlagAt(columnNames, group, exactMatch, n)).value;
      if entry.Some? {
        AddToMembers(before, entry.value.0, entry.value.1, key, sample);
      }
      if key in before && sample in before[key] {
        var r :| 0 <= r < n && Contributes(columnNames, prev[r], r, group, exactMatch, includeColumnNames, key, sample);
        assert prev[r] == rows[r];
      }
    }
  }

  /** A row that files `sample` under `key` leaves it there. */
  lemma {:induction false} ContributorFiled(columnNames: seq<string>, rows: seq<Row>, group: string,
                                            exactMatch: bool, includeColumnNames: bool, key: string, sample: Cell, r: nat)
    requires GroupRows(columnNames, rows, group, exactMatch, includeColumnNames).Success?
    requires r < |rows| && Contributes(columnNames, rows[r], r, group, exactMatch, includeColumnNames, key, sample)
    ensures var groups := GroupRows(columnNames, rows, group, exactMatch, includeColumnNames).value;
            key in groups && sample in groups[key]
    decreases |rows|
  {
    var n := |rows| - 1;
    if r < n {
      var prev := rows[..n];
      GroupRowsStep(columnNames, rows, group, exactMatch, includeColumnNames);
      assert prev[r] == rows[r];
      ContributorFiled(columnNames, prev, group, exactMatch, includeColumnNames, key, sample, r);
      FiledKept(columnNames, rows, group, exactMatch, includeColumnNames, key, sample);
    } else {
      LastContributorFiled(columnNames, rows, group, exactMatch, includeColumnNames, key, sample, r);
    }
  }

  /** What the rows before the last filed stays filed. */
  lemma FiledKept(columnNames: seq<string>, rows: seq<Row>, group: string,
                  exactMatch: bool, includeColumnNames: bool, key: string, sample: Cell)
    requires rows != []
    requires GroupRows(columnNames, rows, group, exactMatch, includeColumnNames).Success?
    requires GroupRows(columnNames, rows[..|rows| - 1], group, exactMatch, includeColumnNames).Success?
    requires var before := GroupRows(columnNames, rows[..|rows| - 1], group, exactMatch, includeColumnNames).value;
             key in before && sample in before[key]
    ensures var groups := GroupRows(columnNames, rows, group, exactMatch, includeColumnNames).value;
            key in groups && sample in groups[key]
  {
    var n := |rows| - 1;
    GroupRowsStep(columnNames, rows, group, exactMatch, includeColumnNames);
    var before := GroupRows(columnNames, rows[..n], group, exactMatch, includeColumnNames).value;
    var entry := Entry(columnNames, rows[n], group, exactMatch, includeColumnNames,
                       FlagAt(columnNames, group, exactMatch, n)).value;
    if entry.Some? {
      AddToMembers(before, entry.value.0, entry.value.1, key, sample);
    }
  }

  /** The last row's entry is filed. */
  lemma LastContributorFiled(columnNames: seq<string>, rows: seq<Row>, group: string,
                             exactMatch: bool, includeColumnNames: bool, key: string, sample: Cell, r: nat)
    requires r < |rows| && r + 1 >= |rows|
    requires GroupRows(columnNames, rows, group, exactMatch, includeColumnNames).Success?
    requires Contributes(columnNames, rows[r], r, group, exactMatch, includeColumnNames, key, sample)
    ensures var groups := GroupRows(columnNames, rows, group, exactMatch, includeColumnNames).value;
            key in groups && sample in groups[key]
  {
    GroupRowsStep(columnNames, rows, group, exactMatch, includeColumnNames);
    var before := GroupRows(columnNames, rows[..r], group, exactMatch, includeColumnNames).value;
    AddToMembers(before, key, sample, key, sample);
  }

  /** `getDataGroupsWithTypeByColumn(fileContents, group, exactMatch, includeColumnNames)`. */
  method GetDataGroupsWithTypeByColumn(columnNames: seq<string>, rows: seq<Row>, group: string, exactMatch: bool,
                                       includeColumnNames: bool)
    returns (result: Result<map<string, set<Cell>>, Exception>)
    ensures result == GroupRows(columnNames, rows, group, exactMatch, includeColumnNames)
  {
    var groups: map<string, set<Cell>> := map[];
    var allowedUnit := false;
    for row := 0 to |rows|
      invariant GroupRows(columnNames, rows[..row], group, exactMatch, includeColumnNames) == Success(groups)
      invariant allowedUnit == FlagAt(columnNames, group, exactMatch, row)
    {
      var rowLabel;
      rowLabel, allowedUnit := LabelRow(columnNames, rows[row], group, exactMatch, includeColumnNames, allowedUnit);
      if rowLabel.Failure? {
        WholeRowFails(columnNames, rows, group, exactMatch, includeColumnNames, row,
                      FlagAt(columnNames, group, exactMatch, row), |columnNames|);
        return Failure(rowLabel.error);
      }
      var groupVal := rowLabel.value;
      RowDone(columnNames, rows, group, exactMatch, includeColumnNames, row, groups, groupVal);
      if groupVal != "" {
        groupVal := Trim(groupVal);
        var sample := ColValAtRow(columnNames, rows[row], "Sample Name");
        if sample.Failure? {
          return Failure(sample.error);
        }
        var members := if groupVal in groups then groups[groupVal] else {};
        groups := groups[groupVal := members + {sample.value}];
      }
    }
    assert rows[..|rows|] == rows;
    return Success(groups);
  }

  /**
   * The column loop of `getDataGroupsWithTypeByColumn` for one row: `groupVal`
   * built from the selected columns (or the exception raised on the way) and the
   * `allowedUnit` flag it leaves for the next row.
   */
  method LabelRow(columnNames: seq<string>, row: Row, group: string, exactMatch: bool, includeColumnNames: bool,
                  allowedUnitIn: bool)
    returns (groupVal: Result<string, Exception>, allowedUnit: bool)
    ensures groupVal == Label(columnNames, row, Select(columnNames, group, exactMatch, allowedUnitIn, |columnNames|).columns,
                              includeColumnNames)
    ensures groupVal.Success? ==>
              allowedUnit == Select(columnNames, group, exactMatch, allowedUnitIn, |columnNames|).allowedUnit
  {
    allowedUnit := allowedUnitIn;
    var text := "";
    var elementsNumber := 0;
    assert Select(columnNames, group, exactMatch, allowedUnitIn, 0) == Selection([], allowedUnitIn);
    for col := 0 to |columnNames|
      invariant allowedUnit == Select(columnNames, group, exactMatch, allowedUnitIn, col).allowedUnit
      invariant elementsNumber == |Select(columnNames, group, exactMatch, allowedUnitIn, col).columns|
      invariant Label(columnNames, row, Select(columnNames, group, exactMatch, allowedUnitIn, col).columns,
                      includeColumnNames) == Success(text)
    {
      var column := columnNames[col];
      var matched := false;
      if exactMatch {
        if EqualsIgnoreCase(column, group) {
          matched := true;
        } else if allowedUnit && EqualsIgnoreCase(column, "unit") {
          matched := true;
        }
      } else {
        if Contains(column, group) {
          matched := true;
        } else if allowedUnit && EqualsIgnoreCase(column, "unit") {
          matched := true;
        }
      }
      assert matched == ColumnMatches(column, group, exactMatch, allowedUnit);
      ColumnStep(columnNames, row, group, exactMatch, includeColumnNames, allowedUnitIn, col, text);
      if matched {
        var piece := Piece(column, row, col, includeColumnNames);
        if piece.Failure? {
          return Failure(piece.error), allowedUnit;
        }
        text := text + (if elementsNumber > 0 then "|" else "") + piece.value;
        elementsNumber := elementsNumber + 1;
        allowedUnit := true;
      } else {
        allowedUnit := Contains(column, "Term Source REF") || Contains(column, "Term Accession Number");
      }
    }
    return Success(text), allowedUnit;
  }

  /** The effect of header `col` on the selection and the label, in the three cases of the column loop. */
  lemma ColumnStep(columnNames: seq<string>, row: Row, group: string, exactMatch: bool, includeColumnNames: bool,
                   flagIn: bool, col: nat, text: string)
    requires col < |columnNames|
    requires Label(columnNames, row, Select(columnNames, group, exactMatch, flagIn, col).columns, includeColumnNames)
             == Success(text)
    ensures var s := Select(columnNames, group, exactMatch, flagIn, col);
            var s' := Select(columnNames, group, exactMatch, flagIn, col + 1);
            var piece := Piece(columnNames[col], row, col, includeColumnNames);
            var all := Select(columnNames, group, exactMatch, flagIn, |columnNames|).columns;
            if !ColumnMatches(columnNames[col], group, exactMatch, s.allowedUnit) then
              s' == Selection(s.columns, OntologyColumn(columnNames[col]))
            else if piece.Failure? then
              Label(columnNames, row, all, includeColumnNames) == Failure(piece.error)
            else
              s'.allowedUnit && |s'.columns| == |s.columns| + 1
              && Label(columnNames, row, s'.columns, includeColumnNames)
                 == Success(text + (if |s.columns| > 0 then "|" else "") + piece.value)
  {
    var s := Select(columnNames, group, exactMatch, flagIn, col);
    SelectStep(columnNames, group, exactMatch, flagIn, col);
    if ColumnMatches(columnNames[col], group, exactMatch, s.allowedUnit) {
      LabelStep(columnNames, row, s.columns, col, includeColumnNames);
      if Piece(columnNames[col], row, col, includeColumnNames).Failure? {
        EntryLabelFails(columnNames, row, group, exactMatch, includeColumnNames, flagIn, col + 1);
      }
    }
  }

  /** A failure while labelling the first `col` columns is the failure of the whole label. */
  lemma EntryLabelFails(columnNames: seq<string>, row: Row, group: string, exactMatch: bool,
                        includeColumnNames: bool, flagIn: bool, col: nat)
    requires col <= |columnNames|
    requires Label(columnNames, row, Select(columnNames, group, exactMatch, flagIn, col).columns,
                   includeColumnNames).Failure?
    ensures Label(columnNames, row, Select(columnNames, group, exactMatch, flagIn, |columnNames|).columns, includeColumnNames)
            == Label(columnNames, row, Select(columnNames, group, exactMatch, flagIn, col).columns, includeColumnNames)
  {
    var cols := Select(columnNames, group, exactMatch, flagIn, col).columns;
    var all := Select(columnNames, group, exactMatch, flagIn, |columnNames|).columns;
    SelectExtends(columnNames, group, exactMatch, flagIn, col, |columnNames|);
    assert all == cols + all[|cols|..];
    LabelFailureSticks(columnNames, row, cols, all[|cols|..], includeColumnNames);
  }

  /** One more header: selected (and the flag set), or skipped (and the flag set by whether it is an ontology column). */
  lemma SelectStep(columnNames: seq<string>, group: string, exactMatch: bool, allowedUnit: bool, col: nat)
    requires col < |columnNames|
    ensures var s := Select(columnNames, group, exactMatch, allowedUnit, col);
            Select(columnNames, group, exactMatch, allowedUnit, col + 1) ==
              if ColumnMatches(columnNames[col], group, exactMatch, s.allowedUnit) then Selection(s.columns + [col], true)
              else Selection(s.columns, OntologyColumn(columnNames[col]))
  {
  }

  /** Labelling one more selected column appends its piece, after a `|` unless it is the first. */
  lemma LabelStep(columnNames: seq<string>, row: Row, cols: seq<nat>, col: nat, includeColumnNames: bool)
    requires forall i | 0 <= i < |cols| :: cols[i] < |columnNames|
    requires col < |columnNames|
    requires Label(columnNames, row, cols, includeColumnNames).Success?
    ensures var piece := Piece(columnNames[col], row, col, includeColumnNames);
            Label(columnNames, row, cols + [col], includeColumnNames) ==
              if piece.Failure? then Failure(piece.error)
              else Success(Label(columnNames, row, cols, includeColumnNames).value
                           + (if |cols| > 0 then "|" else "") + piece.value)
  {
    assert (cols + [col])[..|cols|] == cols;
  }

  /** The entry of a row whose full label is `groupVal`. */
  lemma EntryOfLabel(columnNames: seq<string>, row: Row, group: string, exactMatch: bool, includeColumnNames: bool,
                     flagIn: bool, groupVal: string)
    requires Label(columnNames, row, Select(columnNames, group, exactMatch, flagIn, |columnNames|).columns,
                   includeColumnNames) == Success(groupVal)
    ensures var sample := ColValAtRow(columnNames, row, "Sample Name");
            Entry(columnNames, row, group, exactMatch, includeColumnNames, flagIn) ==
              if groupVal == "" then Success(None)
              else if sample.Failure? then Failure(sample.error)
              else Success(Some((Trim(groupVal), sample.value)))
  {
  }

  /** The pass over the first `row + 1` rows is the pass over the first `row`, then row `row`. */
  lemma GroupRowsPrefix(columnNames: seq<string>, rows: seq<Row>, group: string, exactMatch: bool,
                        includeColumnNames: bool, row: nat, groups: map<string, set<Cell>>)
    requires row < |rows|
    requires GroupRows(columnNames, rows[..row], group, exactMatch, includeColumnNames) == Success(groups)
    ensures var entry := Entry(columnNames, rows[row], group, exactMatch, includeColumnNames,
                               FlagAt(columnNames, group, exactMatch, row));
            GroupRows(columnNames, rows[..row + 1], group, exactMatch, includeColumnNames) ==
              if entry.Failure? then Failure(entry.error)
              else if entry.value.None? then Success(groups)
              else Success(AddTo(groups, entry.value.value.0, entry.value.value.1))
  {
    var upTo := rows[..row + 1];
    assert upTo[..row] == rows[..row] && upTo[row] == rows[row];
  }

  /** What the end of a row does to the groups, given the row's full label `groupVal`. */
  lemma RowDone(columnNames: seq<string>, rows: seq<Row>, group: string, exactMatch: bool, includeColumnNames: bool,
                row: nat, groups: map<string, set<Cell>>, groupVal: string)
    requires row < |rows|
    requires GroupRows(columnNames, rows[..row], group, exactMatch, includeColumnNames) == Success(groups)
    requires Label(columnNames, rows[row],
                   Select(columnNames, group, exactMatch, FlagAt(columnNames, group, exactMatch, row), |columnNames|).columns,
                   includeColumnNames) == Success(groupVal)
    ensures FlagAt(columnNames, group, exactMatch, row + 1) ==
              Select(columnNames, group, exactMatch, FlagAt(columnNames, group, exactMatch, row), |columnNames|).allowedUnit
    ensures groupVal == "" ==> GroupRows(columnNames, rows[..row + 1], group, exactMatch, includeColumnNames) == Success(groups)
    ensures var sample := ColValAtRow(columnNames, rows[row], "Sample Name");
            groupVal != "" ==>
              if sample.Failure? then GroupRows(columnNames, rows, group, exactMatch, includeColumnNames) == Failure(sample.error)
              else GroupRows(columnNames, rows[..row + 1], group, exactMatch, includeColumnNames)
                   == Success(AddTo(groups, Trim(groupVal), sample.value))
  {
    var flagIn := FlagAt(columnNames, group, exactMatch, row);
    EntryOfLabel(columnNames, rows[row], group, exactMatch, includeColumnNames, flagIn, groupVal);
    GroupRowsPrefix(columnNames, rows, group, exactMatch, includeColumnNames, row, groups);
    var sample := ColValAtRow(columnNames, rows[row], "Sample Name");
    if groupVal != "" && sample.Failure? {
      RowFails(columnNames, rows, group, exactMatch, includeColumnNames, row, sample.error);
    }
  }

  /** A failure while labelling the first `col` columns of a row is the failure of the row's entry. */
  lemma EntryFailsWithLabel(columnNames: seq<string>, row: Row, group: string, exactMatch: bool,
                            includeColumnNames: bool, flagIn: bool, col: nat)
    requires col <= |columnNames|
    requires Label(columnNames, row, Select(columnNames, group, exactMatch, flagIn, col).columns,
                   includeColumnNames).Failure?
    ensures Entry(columnNames, row, group, exactMatch, includeColumnNames, flagIn)
            == Failure(Label(columnNames, row, Select(columnNames, group, exactMatch, flagIn, col).columns,
                             includeColumnNames).error)
  {
    EntryLabelFails(columnNames, row, group, exactMatch, includeColumnNames, flagIn, col);
  }

  /** A row whose entry fails ends the pass with that failure. */
  lemma RowFails(columnNames: seq<string>, rows: seq<Row>, group: string, exactMatch: bool,
                 includeColumnNames: bool, row: nat, e: Exception)
    requires row < |rows|
    requires GroupRows(columnNames, rows[..row], group, exactMatch, includeColumnNames).Success?
    requires Entry(columnNames, rows[row], group, exactMatch, includeColumnNames, FlagAt(columnNames, group, exactMatch, row))
             == Failure(e)
    ensures GroupRows(columnNames, rows, group, exactMatch, includeColumnNames) == Failure(e)
  {
    var upTo := rows[..row + 1];
    assert upTo[..row] == rows[..row] && upTo[row] == rows[row];
    assert GroupRows(columnNames, upTo, group, exactMatch, includeColumnNames) == Failure(e);
    GroupFailureSticks(columnNames, rows, group, exactMatch, includeColumnNames, row + 1);
  }

  /** A failure while labelling the first `col` columns of a row is the failure of the whole pass. */
  lemma WholeRowFails(columnNames: seq<string>, rows: seq<Row>, group: string, exactMatch: bool,
                      includeColumnNames: bool, row: nat, flagIn: bool, col: nat)
    requires row < |rows| && col <= |columnNames|
    requires GroupRows(columnNames, rows[..row], group, exactMatch, includeColumnNames).Success?
    requires flagIn == FlagAt(columnNames, group, exactMatch, row)
    requires Label(columnNames, rows[row], Select(columnNames, group, exactMatch, flagIn, col).columns,
                   includeColumnNames).Failure?
    ensures GroupRows(columnNames, rows, group, exactMatch, includeColumnNames)
            == Failure(Label(columnNames, rows[row], Select(columnNames, group, exactMatch, flagIn, col).columns,
                             includeColumnNames).error)
  {
    EntryFailsWithLabel(columnNames, rows[row], group, exactMatch, includeColumnNames, flagIn, col);
    RowFails(columnNames, rows, group, exactMatch, includeColumnNames, row,
             Label(columnNames, rows[row], Select(columnNames, group, exactMatch, flagIn, col).columns,
                   includeColumnNames).error);
  }
}
