/**
 * The assay table the parser reads: the header row (row 0, the column names)
 * and the data rows below it. A cell is a Java `String` that may be `null`.
 */
module AssayTable {
  import opened Wrappers

  /** One spreadsheet cell; `None` is a `null` entry of the Java `Object[][]`. */
  type Cell = Option<string>

  /** One data row; rows may be shorter than the header. */
  type Row = seq<Cell>

  /** The cell a histogram counts: present, not `null` and not the empty string. */
  function CountedCell(row: Row, k: nat): (r: Option<string>)
    ensures r.Some? <==> k < |row| && row[k].Some? && row[k].value != ""
    ensures r.Some? ==> r == row[k] && r.value != ""
  {
    if k < |row| && row[k].Some? && row[k].value != "" then row[k] else None
  }
}
