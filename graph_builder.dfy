/**
 * The graph builder: `GraphParser.createGraph`, one left-to-right pass over the
 * header row that classifies each column, creates nodes, links them with edges
 * and attaches annotations, steered by six pieces of cursor state.
 *
 * `Step` is the effect of one column on the cursors and the graph and `Run` folds
 * it over a header row; they are the specification the imperative
 * `CreateGraph` is proved against, and the properties of the pass are lemmas
 * about them (module GraphBuilderProperties).
 */
module GraphBuilder {
  import opened Wrappers
  import opened HeaderClassifier
  import opened GraphModel

  /** `lastFactorValue`: the factor value's column and the sample it was handed to, if any. */
  datatype FactorCursor = FactorCursor(index: nat, owner: Option<nat>)

  /** The six cursors of the pass; node cursors are the column index of the node they point at. */
  datatype Cursors = Cursors(
    lastProcess: Option<nat>,
    lastMaterialOrData: Option<nat>,
    lastSample: Option<nat>,
    lastFactorValue: Option<FactorCursor>,
    lastProtocolExecution: Option<nat>,
    pending: seq<nat>                  // protocolExecutionNodes: executions seen since the last process
  )

  datatype BuildState = BuildState(graph: Graph, cursors: Cursors)

  const NoCursors := Cursors(None, None, None, None, None, [])

  const InitialState := BuildState(EmptyGraph, NoCursors)

  /** The input edge of a new process or protocol execution: `lastMaterialOrData`, when set. */
  function InputsFrom(lastMaterialOrData: Option<nat>): seq<nat>
  {
    if lastMaterialOrData.Some? then [lastMaterialOrData.value] else []
  }

  /** The effect of header `h` at column `i` (one iteration of the loop of `createGraph`). */
  function Step(p: Patterns, s: BuildState, i: nat, h: string): BuildState
  {
    StepAs(Classify(p, h), s, i, h)
  }

  /** The effect of header `h` at column `i` once it has been classified as `k`. */
  function StepAs(k: ColumnKind, s: BuildState, i: nat, h: string): BuildState
  {
    var g := s.graph;
    var c := s.cursors;
    match k
    case DateColumn =>
      if c.lastProtocolExecution.Some? then s.(graph := AddDate(g, c.lastProtocolExecution.value, Annotation(i, h)))
      else s
    case PerformerColumn =>
      if c.lastProtocolExecution.Some? then s.(graph := AddPerformer(g, c.lastProtocolExecution.value, Annotation(i, h)))
      else s
    case ProtocolExecutionColumn =>
      var node := ProtocolExecutionNode(i, h, InputsFrom(c.lastMaterialOrData), [], [], [], []);
      BuildState(AddNode(g, node), c.(pending := c.pending + [i], lastProtocolExecution := Some(i)))
    case ProcessColumn =>
      var node := ProcessNode(i, h, InputsFrom(c.lastMaterialOrData), [], [], [], c.pending);
      BuildState(AddNode(g, node), c.(lastProcess := Some(i), pending := []))
    case DataColumn =>
      var g1 := AddNode(g, DataNode(i, h, []));
      var c1 := c.(lastMaterialOrData := Some(i));
      if c.lastProcess.Some? then BuildState(AddOutput(g1, c.lastProcess.value, i), c1.(lastProcess := None))
      else if c.lastProtocolExecution.Some? then
        BuildState(AddOutput(g1, c.lastProtocolExecution.value, i), c1.(lastProtocolExecution := None))
      else BuildState(g1, c1)
    case MaterialAttributeColumn =>
      if c.lastMaterialOrData.Some? && c.lastMaterialOrData.value in g.nodes
         && g.nodes[c.lastMaterialOrData.value].IsMaterial()
      then s.(graph := AddMaterialAttribute(g, c.lastMaterialOrData.value, Annotation(i, h)))
      else s
    case MaterialColumn => MaterialStep(s, i, MaterialNode(i, h, [], []))
    case SampleColumn => MaterialStep(s, i, SampleNode(i, h, [], [], []))
    case FactorValueColumn =>
      var c1 := c.(lastFactorValue := Some(FactorCursor(i, c.lastSample)));
      if c.lastSample.Some? then BuildState(AddFactorValue(g, c.lastSample.value, FactorValue(i, h, None)), c1)
      else BuildState(g, c1)
    case UnitColumn =>
      if c.lastFactorValue.Some? && c.lastFactorValue.value.owner.Some? then
        s.(graph := SetUnit(g, c.lastFactorValue.value.owner.value, c.lastFactorValue.value.index, Annotation(i, h)))
      else s
    case ProcessParameterColumn =>
      if c.lastProtocolExecution.Some? then
        s.(graph := AddParameter(g, c.lastProtocolExecution.value, Annotation(i, h)))
      else s
    case CommentColumn =>
      var g1 := if c.lastProcess.Some? then AddComment(g, c.lastProcess.value, Annotation(i, h)) else g;
      var g2 := if c.lastMaterialOrData.Some? then AddComment(g1, c.lastMaterialOrData.value, Annotation(i, h)) else g1;
      s.(graph := g2)
    case Unrecognized => s
  }

  /** The material branch, shared by plain material and sample columns. */
  function MaterialStep(s: BuildState, i: nat, node: Node): BuildState
  {
    var c := s.cursors;
    // a protocol execution with no process after it also takes the material as output, and keeps its cursor
    var g1 := if c.lastMaterialOrData.Some? && c.lastProcess.None? && c.lastProtocolExecution.Some?
              then AddOutput(s.graph, c.lastProtocolExecution.value, i) else s.graph;
    var g2 := AddNode(g1, node);
    var c1 := c.(lastMaterialOrData := Some(i),
                 lastSample := if node.SampleNode? then Some(i) else c.lastSample);
    if c.lastProcess.Some? then BuildState(AddOutput(g2, c.lastProcess.value, i), c1.(lastProcess := None))
    else BuildState(g2, c1)
  }

  /** The state after the pass over the header row `hs`. */
  function Run(p: Patterns, hs: seq<string>): BuildState
    decreases |hs|
  {
    if hs == [] then InitialState
    else Step(p, Run(p, hs[..|hs| - 1]), |hs| - 1, hs[|hs| - 1])
  }

  /** `createGraph`: the graph left by one pass over the header row `columns`. */
  method CreateGraph(p: Patterns, columns: seq<string>) returns (graph: Graph)
    ensures graph == Run(p, columns).graph
  {
    graph := EmptyGraph;
    var lastProcess: Option<nat> := None;
    var lastMaterialOrData: Option<nat> := None;
    var lastSample: Option<nat> := None;
    var lastFactorValue: Option<FactorCursor> := None;
    var lastProtocolExecutionNode: Option<nat> := None;
    var protocolExecutionNodes: seq<nat> := [];
    for index := 0 to |columns|
      invariant Run(p, columns[..index]) == BuildState(graph, Cursors(lastProcess, lastMaterialOrData, lastSample,
                                                                  lastFactorValue, lastProtocolExecutionNode,
                                                                  protocolExecutionNodes))
    {
      var column := columns[index];
      assert columns[..index + 1][..index] == columns[..index];
      var kind := Classify(p, column);
      if kind == DateColumn {
        if lastProtocolExecutionNode.Some? {
          graph := AddDate(graph, lastProtocolExecutionNode.value, Annotation(index, column));
        }
      } else if kind == PerformerColumn {
        if lastProtocolExecutionNode.Some? {
          graph := AddPerformer(graph, lastProtocolExecutionNode.value, Annotation(index, column));
        }
      } else if kind == ProtocolExecutionColumn {
        protocolExecutionNodes := protocolExecutionNodes + [index];
        lastProtocolExecutionNode := Some(index);
        graph := AddNode(graph, ProtocolExecutionNode(index, column, InputsFrom(lastMaterialOrData), [], [], [], []));
      } else if kind == ProcessColumn {
        graph := AddNode(graph, ProcessNode(index, column, InputsFrom(lastMaterialOrData), [], [], [],
                                            protocolExecutionNodes));
        lastProcess := Some(index);
        protocolExecutionNodes := [];
      } else if kind == DataColumn {
        graph := AddNode(graph, DataNode(index, column, []));
        lastMaterialOrData := Some(index);
        if lastProcess.Some? {
          graph := AddOutput(graph, lastProcess.value, index);
          lastProcess := None;
        } else if lastProtocolExecutionNode.Some? {
          graph := AddOutput(graph, lastProtocolExecutionNode.value, index);
          lastProtocolExecutionNode := None;
        }
      } else if kind == MaterialAttributeColumn {
        if lastMaterialOrData.Some? && lastMaterialOrData.value in graph.nodes
           && graph.nodes[lastMaterialOrData.value].IsMaterial() {
          graph := AddMaterialAttribute(graph, lastMaterialOrData.value, Annotation(index, column));
        }
      } else if kind == MaterialColumn || kind == SampleColumn {
        var materialNode;
        if kind == SampleColumn {
          materialNode := SampleNode(index, column, [], [], []);
          lastSample := Some(index);
        } else {
          materialNode := MaterialNode(index, column, [], []);
        }
        if lastMaterialOrData.Some? && lastProcess.None? && lastProtocolExecutionNode.Some? {
          graph := AddOutput(graph, lastProtocolExecutionNode.value, index);
        }
        graph := AddNode(graph, materialNode);
        lastMaterialOrData := Some(index);
        if lastProcess.Some? {
          graph := AddOutput(graph, lastProcess.value, index);
          lastProcess := None;
        }
      } else if kind == FactorValueColumn {
        lastFactorValue := Some(FactorCursor(index, lastSample));
        if lastSample.Some? {
          graph := AddFactorValue(graph, lastSample.value, FactorValue(index, column, None));
        }
      } else if kind == UnitColumn {
        if lastFactorValue.Some? && lastFactorValue.value.owner.Some? {
          graph := SetUnit(graph, lastFactorValue.value.owner.value, lastFactorValue.value.index,
                           Annotation(index, column));
        }
      } else if kind == ProcessParameterColumn {
        if lastProtocolExecutionNode.Some? {
          graph := AddParameter(graph, lastProtocolExecutionNode.value, Annotation(index, column));
        }
      } else if kind == CommentColumn {
        if lastProcess.Some? {
          graph := AddComment(graph, lastProcess.value, Annotation(index, column));
        }
        if lastMaterialOrData.Some? {
          graph := AddComment(graph, lastMaterialOrData.value, Annotation(index, column));
        }
      }
    }
    assert columns[..|columns|] == columns;
  }
}
