# GraphParser of linkedISA, modelled in Dafny

This project models `GraphParser`, the core of the ISA-Tab graph parser of
linkedISA. The parser reads an assay table or a study-sample table. Row 0 is
the header row; the rows below it are data rows. It does three things.

- **The graph builder** (`createGraph`) makes one left-to-right pass over the
  header row.
  - Each header is classified by a fixed chain of tests, and the first test
    that holds wins.
  - Process, protocol-execution, data, material and sample columns become
    nodes.
  - Six cursors steer the pass: `lastProcess`, `lastMaterialOrData`,
    `lastSample`, `lastFactorValue`, `lastProtocolExecutionNode`, and the
    pending list of protocol executions.
  - The cursors decide which node a new node is linked to, as input or
    output. They also decide which node an annotation column is attached to:
    date, performer, material attribute, factor value, unit, parameter or
    comment.
- **The histogram queries.**
  - `extractNodes`, and through it `extractProcesses` and `extractDataNodes`,
    count the non-null, non-empty cell values in the columns of the graph's
    nodes of one type.
  - `extractMaterialAttributes` makes the same count per material-attribute
    name.
- **The grouping pass** (`getDataGroupsWithTypeByColumn`, called by `parse`
  through `extractGroups`).
  - For every data row it builds a label from the cells of the columns that
    mention `Factor`, plus a `Unit` column that directly follows such a column
    or an ontology-source column.
  - It files the row's `Sample Name` under the trimmed label.

## How it is modelled

- **Modules.**
  - `JavaText`: the `String` operations the parser uses.
  - `AssayTable`: cells and rows.
  - `HeaderClassifier`: the classification chain.
  - `GraphModel`: the node variants and the graph container.
  - `GraphBuilder`: `createGraph`.
  - `GraphBuilderProperties` and `GraphAnnotations`: what the pass guarantees.
  - `Aggregation`: the histogram queries.
  - `Grouping`: the grouping pass, `extractColumnType` and `getColValAtRow`.
  - `GroupingExamples`: worked tables.
  - `Parser`: the `GraphParser` class itself.
- **Cells.** A cell is an `Option<string>`, where `None` is a Java `null`.
  The header row is a `seq<string>` and the data rows are a `seq<seq<Cell>>`.
  Rows may be shorter than the header.
- **Header patterns.** The regular expressions of the node classes are
  parameters of the model (`Patterns`). The only concrete test is the data
  test, a substring test for the marker `ISADataNode.CONTAINS`.
- **The graph** is an arena: a map from column index to node variant, plus
  the order in which nodes were added.
  - Every edge is a column index.
  - Attaching something to a node replaces that node's entry. This is what
    mutating the shared Java object amounts to.
  - A factor value is found inside the sample it was added to. A unit is set
    there, which is what Java aliasing of `lastFactorValue` achieves.
- **The builder.** `createGraph` is an imperative method with the six cursors
  as locals. It is proved equal to a fold (`Run`) of a one-column function
  (`Step`). All properties of the pass are lemmas about `Step` and `Run`.
- **The histogram queries** are imperative methods with the Java nested
  loops. They are proved equal to histograms of multisets of counted cells,
  and lemmas relate those multisets to counts of table rows.
- **The grouping pass** is an imperative method with the Java row loop.
  - The column loop is a separate method, `LabelRow`.
  - `allowedUnit` lives outside the row loop, as in the Java code.
  - Both are proved against the recursive definition `GroupRows`.
  - The exceptions the Java code lets escape are `Failure` results.
- **The parser.** `GraphParser` is a class with the table as constant fields,
  and `graph` and `groups` as mutable fields.

### Where the code departs from what one might expect (the model follows the code)

- **Row labels that are blank.** One might expect rows that produce an
  empty group key to be excluded.
  - The code tests for emptiness before it trims
    (GraphParser.java:335-336).
  - A row whose only selected cell is blank has the label `" "`, which is
    not empty. It is trimmed afterwards and filed under the empty key `""`. `GroupingExamples.BlankValueExample`
    shows this.
- **The `allowedUnit` flag.** One might expect the flag to be derived
  afresh for every column.
  - The code declares it outside the row loop (GraphParser.java:306). The
    flag left by the last column of one row therefore decides whether a
    leading `Unit` column of the next row is selected.
  - `Grouping.CarriedFlagOnlyReachesFirstColumn` proves that this is the
    only effect.
  - `GroupingExamples.CarriedUnitExample` shows two rows with equal cells
    that land in different groups.

## Model

The source cells are relative paths; `GraphParser.java` is
`isa-graphparser/src/main/java/org/isatools/graph/parser/GraphParser.java`.

| member | source | states |
|---|---|---|
| HeaderClassifier.ClassifyIsFirstMatch | isa-graphparser/src/main/java/org/isatools/graph/parser/GraphParser.java:60-177 | A header gets the kind of the first test that holds in the fixed order: Date, Performer, ProtocolExecution, Process, data marker, MaterialAttribute, Material (refined to Sample), FactorValue, Unit, ProcessParameter, Comment. If no test holds, the header is unrecognised. |
| HeaderClassifier.DataMarkerBeforeMaterial | isa-graphparser/src/main/java/org/isatools/graph/parser/GraphParser.java:98 | A header that contains the data marker and matches none of the first four patterns is a data column, whatever later patterns it also matches. |
| HeaderClassifier.SampleRefinesMaterial | isa-graphparser/src/main/java/org/isatools/graph/parser/GraphParser.java:118-127 | A column is a sample column exactly when the material test is the first to hold and the sample pattern also holds. |
| GraphModel.GetNodesRoundTrip | isa-graphparser/src/main/java/org/isatools/graph/parser/GraphParser.java:204 | In a well-formed graph, `getNodes(t)` lists a node exactly when `getNode` finds it at its own index and it has type `t`. |
| GraphModel.AddNodeWellFormed | isa-graphparser/src/main/java/org/isatools/graph/parser/GraphParser.java:82 | Adding a node at a column beyond every existing node keeps the graph well formed: each node sits at its own index, and the order lists each key once, increasing. |
| GraphModel.AddOutput | isa-graphparser/src/main/java/org/isatools/graph/parser/GraphParser.java:104 | `addOutputNode` appends the column to the outputs of the process-like node. It changes nothing else: no other node, and neither the node's variant, inputs nor owned executions. |
| GraphModel.WithUnit | isa-graphparser/src/main/java/org/isatools/graph/parser/GraphParser.java:156 | `setUnit` replaces the unit of the factor value with that index. Every other factor value is unchanged, and the list keeps its length. |
| GraphBuilder.CreateGraph | isa-graphparser/src/main/java/org/isatools/graph/parser/GraphParser.java:45-180 | The imperative pass, with its six cursor locals, builds exactly the graph of the column-by-column fold `Run`. |
| GraphBuilderProperties.RunConsistent | isa-graphparser/src/main/java/org/isatools/graph/parser/GraphParser.java:58-179 | After any prefix of the header row, each cursor points at a node of its kind, so none of the casts can fail. Every node lies below the current column, and the graph is well formed. |
| GraphBuilderProperties.StepConsistent | isa-graphparser/src/main/java/org/isatools/graph/parser/GraphParser.java:60-178 | One column, whatever its kind, preserves the cursor invariant while `index` advances by one. |
| GraphBuilderProperties.NodesAtOwnColumns | isa-graphparser/src/main/java/org/isatools/graph/parser/GraphParser.java:72-142 | There is exactly one node per protocol-execution, process, data, material or sample column. It is stored at that column's index, carries that header, and is of the variant its classification names. Nodes are listed in column order, and every other header adds no node. |
| GraphBuilderProperties.CursorsFollowHeaders | isa-graphparser/src/main/java/org/isatools/graph/parser/GraphParser.java:50-178 | After the pass each cursor is determined by the header row alone. `lastMaterialOrData` is the last material, sample or data column, and `lastSample` the last sample column. `lastFactorValue` is the last factor value, owned by the last sample before it. `lastProcess` is the last process column unless a material or data column followed it. `lastProtocolExecutionNode` is the last protocol-execution column unless a data column was read after it while no process was open; material columns never clear it. The pending list holds the protocol-execution columns after the last process column. |
| GraphBuilderProperties.InputsAndOwnedExecutions | isa-graphparser/src/main/java/org/isatools/graph/parser/GraphParser.java:72-96 | A process or protocol execution has as input the last material, sample or data column before it, if there is one. A process owns, in column order, the protocol executions since the previous process column. |
| GraphBuilderProperties.FrameAtCreation | isa-graphparser/src/main/java/org/isatools/graph/parser/GraphParser.java:72-142 | A node's variant, index, name, inputs and owned executions are fixed when it is created. Later columns only attach things to it. |
| GraphBuilderProperties.StepOutputs | isa-graphparser/src/main/java/org/isatools/graph/parser/GraphParser.java:103-142 | One column adds at most one output edge. For a data column it comes from `lastProcess`, else `lastProtocolExecutionNode`. For a material column it comes from `lastProcess`, else `lastProtocolExecutionNode` but only when `lastMaterialOrData` is set. All other output lists are unchanged. |
| GraphBuilderProperties.ProcessOutputs | isa-graphparser/src/main/java/org/isatools/graph/parser/GraphParser.java:92-142 | A process column's outputs are exactly the first material, sample or data column after it, provided no process column comes first, and are otherwise empty. A second material or data column is never linked to the same process. |
| GraphAnnotations.AnnotationChangesOnlyTargets | isa-graphparser/src/main/java/org/isatools/graph/parser/GraphParser.java:60-177 | An annotation column changes no node but the ones it is attached to, and creates no node. It moves no cursor except `lastFactorValue`. With no eligible cursor it is dropped and leaves the graph as it was. |
| GraphAnnotations.ExecutionAnnotationAttached | isa-graphparser/src/main/java/org/isatools/graph/parser/GraphParser.java:60-70 | A date, performer or parameter column is appended to the dates, performers or parameters of the last protocol execution. Nothing else of that node changes: the new node is given in full. |
| GraphAnnotations.MaterialAttributeAttached | isa-graphparser/src/main/java/org/isatools/graph/parser/GraphParser.java:111-116 | A material attribute changes the graph exactly when the last material or data node is a material or sample node, and is then appended to that node's attributes; the node is otherwise unchanged. |
| GraphAnnotations.FactorValueAttached | isa-graphparser/src/main/java/org/isatools/graph/parser/GraphParser.java:144-150 | A factor value is appended, without a unit, to the last sample, whose other fields stay, and becomes `lastFactorValue` owned by that sample. With no sample the graph is unchanged. |
| GraphAnnotations.UnitOverwrites | isa-graphparser/src/main/java/org/isatools/graph/parser/GraphParser.java:152-157 | A unit column replaces the unit of the last factor value inside the sample holding it, and leaves the sample's other factor values and its other fields alone. With no owned factor value it changes nothing. |
| GraphAnnotations.LaterUnitWins | isa-graphparser/src/main/java/org/isatools/graph/parser/GraphParser.java:155-156 | Setting the unit of a factor value twice leaves only the later unit. |
| GraphAnnotations.SecondUnitWins | isa-graphparser/src/main/java/org/isatools/graph/parser/GraphParser.java:152-157 | Two unit columns next to each other leave the graph as if only the second had been there. Columns in between, such as a comment, are covered only by combining this with the per-column lemmas. |
| GraphAnnotations.CommentAttachedToBoth | isa-graphparser/src/main/java/org/isatools/graph/parser/GraphParser.java:168-176 | A comment is appended to both the last process and the last material or data node, each when set, with the rest of each node unchanged, and clears neither cursor. |
| GraphAnnotations.UnrecognizedIgnored | isa-graphparser/src/main/java/org/isatools/graph/parser/GraphParser.java:177-178 | A header no test recognises changes neither the graph nor any cursor. |
| Aggregation.ExtractNodes | isa-graphparser/src/main/java/org/isatools/graph/parser/GraphParser.java:243-269 | The nested loops return the histogram of the counted cells in the columns of the graph's nodes of the given type. |
| Aggregation.NodeHistogramCounts | isa-graphparser/src/main/java/org/isatools/graph/parser/GraphParser.java:243-269 | A value is a key of `extractNodes(type)` exactly when it is non-empty and some data row holds it in the column of a node of that type. Its count is the number of such rows, summed over the columns. |
| Aggregation.ColumnValuesCount | isa-graphparser/src/main/java/org/isatools/graph/parser/GraphParser.java:250-264 | In one column, a non-empty value is counted once per data row that holds it. |
| Aggregation.OccurrencesPositive | isa-graphparser/src/main/java/org/isatools/graph/parser/GraphParser.java:250-264 | A value occurs a positive number of times exactly when some row holds it in one of the columns. |
| Aggregation.NodeHistogramTotal | isa-graphparser/src/main/java/org/isatools/graph/parser/GraphParser.java:243-269 | The counts returned by `extractNodes(type)` add up to the number of counted cells in the columns of its nodes. |
| Aggregation.TotalOfHistogram | isa-graphparser/src/main/java/org/isatools/graph/parser/GraphParser.java:258-263 | The counts of a histogram add up to the number of values it was built from. |
| Aggregation.ExtractMaterialAttributes | isa-graphparser/src/main/java/org/isatools/graph/parser/GraphParser.java:200-236 | The triple loop returns the nested histogram: for each attribute name, the counted values in that attribute's columns on material and sample nodes. |
| Aggregation.AttributeHistogramByName | isa-graphparser/src/main/java/org/isatools/graph/parser/GraphParser.java:200-236 | The entry (name, value) is present exactly when the value is counted in a column of a material attribute of that name. Its count is how often it is counted there. |
| Aggregation.MaterialPairsFlatten | isa-graphparser/src/main/java/org/isatools/graph/parser/GraphParser.java:206-210 | Walking node by node counts the same (name, value) pairs as walking the concatenated attribute list. |
| Grouping.ExtractColumnType | isa-graphparser/src/main/java/org/isatools/graph/parser/GraphParser.java:349-354 | Without `[` the result is the whole header. Otherwise it contains no `]`, and the header is its bracket-free prefix, `[`, the result, `]`, and the rest. |
| Grouping.ColumnTypeOfBracketed | isa-graphparser/src/main/java/org/isatools/graph/parser/GraphParser.java:349-354 | Round trip: the column type of `prefix[t]suffix` is `t`, when neither `prefix` nor `t` holds a bracket. |
| Grouping.FindColumnFrom | isa-graphparser/src/main/java/org/isatools/graph/parser/GraphParser.java:357-363 | Returns the first column whose header equals the name up to ASCII case, or none. |
| Grouping.ColValAtRow | isa-graphparser/src/main/java/org/isatools/graph/parser/GraphParser.java:356-365 | Returns the row's cell in the first column whose header equals `colName` ignoring case. A row too short for that column gives an out-of-bounds failure, and no such column gives `""`. |
| Grouping.SelectCharacterised | isa-graphparser/src/main/java/org/isatools/graph/parser/GraphParser.java:313-333 | A column is selected exactly when its header contains the group (or equals it ignoring case, in exact mode), or it is `unit` and the flag before it is set. That flag is set exactly when the previous column was selected or was a Term Source REF / Term Accession Number column. |
| Grouping.CarriedFlagOnlyReachesFirstColumn | isa-graphparser/src/main/java/org/isatools/graph/parser/GraphParser.java:306 | The flag carried in from the previous row changes the selection only when the first header is `unit`. |
| Grouping.SelectExtends | isa-graphparser/src/main/java/org/isatools/graph/parser/GraphParser.java:310-334 | Columns selected over fewer headers stay selected, in the same order, as the loop goes on. |
| Grouping.Piece | isa-graphparser/src/main/java/org/isatools/graph/parser/GraphParser.java:330 | One selected column's text succeeds exactly when its header is well bracketed (if column names are included) and the row reaches the column. On success it is non-empty. |
| Grouping.LabelEmptyIff | isa-graphparser/src/main/java/org/isatools/graph/parser/GraphParser.java:335 | A row's label, before trimming, is empty exactly when no column is selected. |
| Grouping.SameCellsSameLabel | isa-graphparser/src/main/java/org/isatools/graph/parser/GraphParser.java:329-331 | Two rows that agree on the selected cells get the same label. |
| Grouping.LabelFailureSticks | isa-graphparser/src/main/java/org/isatools/graph/parser/GraphParser.java:330 | An exception while labelling a row is the exception of the whole row, whatever columns follow. |
| Grouping.GroupFailureSticks | isa-graphparser/src/main/java/org/isatools/graph/parser/GraphParser.java:307-344 | Once a row raises an exception, the pass ends with it. |
| Grouping.AddToMembers | isa-graphparser/src/main/java/org/isatools/graph/parser/GraphParser.java:338-342 | Filing a sample under a key adds exactly that (key, sample) pair. The key's set is then non-empty, and other keys are untouched. |
| Grouping.GroupsCollectEntries | isa-graphparser/src/main/java/org/isatools/graph/parser/GraphParser.java:307-344 | A sample is in the group of a key exactly when some row contributes that (key, sample), given the flag carried into that row. No group is empty. |
| Grouping.GetDataGroupsWithTypeByColumn | isa-graphparser/src/main/java/org/isatools/graph/parser/GraphParser.java:296-347 | The imperative pass, with `allowedUnit` kept across rows, returns exactly `GroupRows`: the groups, or the first exception. |
| Grouping.LabelRow | isa-graphparser/src/main/java/org/isatools/graph/parser/GraphParser.java:308-334 | The column loop of one row computes that row's label over the selected columns, and the flag it leaves for the next row. |
| GroupingExamples.FactorWithUnitExample | isa-graphparser/src/main/java/org/isatools/graph/parser/GraphParser.java:296-347 | With headers [Sample Name, Factor Value[Time], Unit] and rows (S1, 10, hr) and (S2, 10, hr), the result is the one group "10\| hr" = {S1, S2}. |
| GroupingExamples.CarriedUnitExample | isa-graphparser/src/main/java/org/isatools/graph/parser/GraphParser.java:306 | With headers [Unit, Sample Name, Factor Value[Dose]] and rows (mg, S1, 10) and (mg, S2, 10), the result is the two groups "10" = {S1} and "mg\| 10" = {S2}. |
| GroupingExamples.BlankValueExample | isa-graphparser/src/main/java/org/isatools/graph/parser/GraphParser.java:335-336 | A blank selected cell still files its row, under the empty key. |
| JavaText.ContainsIffOccurs | isa-graphparser/src/main/java/org/isatools/graph/parser/GraphParser.java:322 | `contains` holds exactly when the text occurs at some position. |
| JavaText.Trim | isa-graphparser/src/main/java/org/isatools/graph/parser/GraphParser.java:336 | Only characters up to the space are removed, and only at the two ends. The result is the slice of the input with nothing but such characters before and after it, and it neither starts nor ends with one. It is empty exactly when every character is such a character. |
| JavaText.IndexOf | isa-graphparser/src/main/java/org/isatools/graph/parser/GraphParser.java:350-351 | The result is the position of the first occurrence of the character, or -1 exactly when it is absent. |
| Parser.GraphParser.constructor | isa-graphparser/src/main/java/org/isatools/graph/parser/GraphParser.java:35-38 | A new parser holds the table, no graph and no groups. |
| Parser.GraphParser.Parse | isa-graphparser/src/main/java/org/isatools/graph/parser/GraphParser.java:40-43 | `parse` first groups the rows and then builds the graph. If grouping raises an exception, the exception is returned and neither field changes. |
| Parser.GraphParser.ExtractGroups | isa-graphparser/src/main/java/org/isatools/graph/parser/GraphParser.java:271-273 | The grouping pass on `Factor`, neither exact nor with column names. |
| Parser.GraphParser.ExtractProcesses | isa-graphparser/src/main/java/org/isatools/graph/parser/GraphParser.java:185-187 | The histogram of the values in the process columns. Before `parse` there is no graph, and the call fails with a null-pointer exception, as `graph.getNodes` does. |
| Parser.GraphParser.ExtractDataNodes | isa-graphparser/src/main/java/org/isatools/graph/parser/GraphParser.java:192-194 | The histogram of the values in the data columns, or the null-pointer failure before `parse`. |
| Parser.GraphParser.ExtractMaterialAttributes | isa-graphparser/src/main/java/org/isatools/graph/parser/GraphParser.java:200-236 | The nested histogram of material-attribute values by attribute name, or the null-pointer failure before `parse`. |

## Left out

- The regular expressions `REGEXP` and the marker `CONTAINS` of the node classes are not part of this model. They are parameters.
- The `Graph` class and the node classes are not part of this model. They are represented as an arena of node variants, with nodes of type `MATERIAL_NODE` taken to include samples.
- `graph.outputGraph()` and other rendering are not modelled.
- The node types of `getNodes` are not part of this model. Protocol executions have their own type here, so `getNodes(PROCESS_NODE)` is taken not to return them, and `extractProcesses` does not count protocol-execution columns.
- The ordering of `HashMap` and `HashSet` is not modelled. Results are maps and sets.
- Case folding is ASCII only: `equalsIgnoreCase` and `toUpperCase` are modelled on ASCII letters.
- Aggregation.ExtractNodes: counts are unbounded `nat`; Java's `int` overflow above 2^31 - 1 occurrences is not modelled.
- Aggregation.ExtractMaterialAttributes: counts are unbounded `nat`, for the same reason.
- The header row is a sequence of strings, so a `null` header cell is not modelled. Neither is the `ClassCastException` of `Arrays.copyOf(..., String[].class)` on a cell that is not a string.
- A table with no header row is not modelled; there the Java code fails on `assayTable[0]`.
- A data row cell is `Option<string>` and a `null` cell in a label prints as `null`. The model does not reproduce the `NullPointerException` that `getColValAtRow` would raise on a `null` header.
- Grouping.ExtractColumnType: a header whose `[` has no `]` after it is excluded by a precondition. `Grouping.Piece` reports that case as a `StringIndexOutOfBounds` failure before calling it.
- The node classes' hierarchy is not part of this model. The cast `(ProcessNode)` of the last protocol execution at GraphParser.java:165 is taken to succeed (a protocol execution is a kind of process), so the parameter is attached to that protocol execution; the `ClassCastException` it would raise otherwise is not modelled.
- Grouping.LabelRow: it is a separate method for the inner loop of `getDataGroupsWithTypeByColumn`; the Java code has that loop inline.
- `Assay2OWLConverter.java` and `ISA.java` are not part of this model: they consume the graph or only hold constants.
