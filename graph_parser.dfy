/**
 * The `GraphParser` object: an assay (or study-sample) table, the graph built
 * from its header row and the groups built from its rows.
 *
 * The table is split into its header row `columns` (row 0 of the Java
 * `assayTable`) and its data rows `rows` (rows 1 onwards); neither is changed
 * after construction. `graph` is `None` until `parse` has built it.
 */
module Parser {
  import opened Wrappers
  import opened HeaderClassifier
  import opened AssayTable
  import opened GraphModel
  import opened GraphBuilder
  import opened Aggregation
  import opened Grouping

  /** The group column `extractGroups` asks for. */
  const FactorGroup := "Factor"

  class GraphParser {
    const patterns: Patterns
    const columns: seq<string>
    const rows: seq<Row>
    var graph: Option<Graph>
    var groups: map<string, set<Cell>>

    /** `new GraphParser(assayTable)`: no graph yet and no groups. */
    constructor (patterns: Patterns, columns: seq<string>, rows: seq<Row>)
      ensures this.patterns == patterns && this.columns == columns && this.rows == rows
      ensures graph == None && groups == map[]
    {
      this.patterns := patterns;
      this.columns := columns;
      this.rows := rows;
      graph := None;
      groups := map[];
    }

    /**
     * `parse()`: first the groups of the rows by their factor values, then the
     * graph of the header row. When grouping throws, the exception escapes
     * before anything is assigned, so the parser is left as it was.
     */
    method Parse() returns (error: Option<Exception>)
      modifies this
      ensures var r := GroupRows(columns, rows, FactorGroup, false, false);
              if r.Failure? then error == Some(r.error) && graph == old(graph) && groups == old(groups)
              else error == None && groups == r.value && graph == Some(Run(patterns, columns).graph)
    {
      var result := ExtractGroups();
      if result.Failure? {
        return Some(result.error);
      }
      groups := result.value;
      var g := CreateGraph(patterns, columns);
      graph := Some(g);
      error := None;
    }

    /** `extractGroups()`: the grouping pass on the `Factor` columns, neither exact nor with column names. */
    method ExtractGroups() returns (result: Result<map<string, set<Cell>>, Exception>)
      ensures result == GroupRows(columns, rows, FactorGroup, false, false)
    {
      result := GetDataGroupsWithTypeByColumn(columns, rows, FactorGroup, false, false);
    }

    /**
     * `extractProcesses()`: the histogram of the values in the process columns.
     * Before `parse` there is no graph, and `graph.getNodes` throws.
     */
    method ExtractProcesses() returns (r: Result<map<string, nat>, Exception>)
      ensures graph.None? ==> r == Failure(NullPointer)
      ensures graph.Some? ==> r == Success(NodeHistogram(graph.value, rows, ProcessType))
    {
      if graph.None? {
        return Failure(NullPointer);
      }
      var counts := ExtractNodes(graph.value, rows, ProcessType);
      r := Success(counts);
    }

    /** `extractDataNodes()`: the histogram of the values in the data columns; it throws before `parse`. */
    method ExtractDataNodes() returns (r: Result<map<string, nat>, Exception>)
      ensures graph.None? ==> r == Failure(NullPointer)
      ensures graph.Some? ==> r == Success(NodeHistogram(graph.value, rows, DataType))
    {
      if graph.None? {
        return Failure(NullPointer);
      }
      var counts := ExtractNodes(graph.value, rows, DataType);
      r := Success(counts);
    }

    /**
     * `extractMaterialAttributes()`: per attribute name, the histogram of its
     * values on material and sample nodes; it throws before `parse`.
     */
    method ExtractMaterialAttributes() returns (r: Result<map<string, map<string, nat>>, Exception>)
      ensures graph.None? ==> r == Failure(NullPointer)
      ensures graph.Some? ==> r == Success(AttributeHistogram(graph.value, rows))
    {
      if graph.None? {
        return Failure(NullPointer);
      }
      var counts := Aggregation.ExtractMaterialAttributes(graph.value, rows);
      r := Success(counts);
    }

    function GetGroups(): map<string, set<Cell>>
      reads this
    {
      groups
    }

    function GetGraph(): Option<Graph>
      reads this
    {
      graph
    }
  }
}
