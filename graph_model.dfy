/**
 * The node model and the `Graph` container the parser fills in.
 *
 * The Java node classes and `Graph` are not part of this model; they are
 * represented as an arena: the graph maps a column index to a node variant, and
 * every edge (input, output, owned protocol execution) is a column index that is
 * looked up in the graph again. Attaching something to a node replaces that
 * node's entry, which is what mutating the shared Java object amounts to.
 */
module GraphModel {
  import opened Wrappers

  /** A leaf annotation column: comment, performer, date, unit, material attribute or parameter. */
  datatype Annotation = Annotation(index: nat, name: string)

  /** A factor value owned by a sample, with the unit last set on it. */
  datatype FactorValue = FactorValue(index: nat, name: string, unit: Option<Annotation>)

  /** The node variants the parser creates; every node carries its column index and header. */
  datatype Node =
    | MaterialNode(index: nat, name: string, attributes: seq<Annotation>, comments: seq<Annotation>)
    | SampleNode(index: nat, name: string, attributes: seq<Annotation>, comments: seq<Annotation>,
                 factorValues: seq<FactorValue>)
    | DataNode(index: nat, name: string, comments: seq<Annotation>)
    | ProcessNode(index: nat, name: string, inputs: seq<nat>, outputs: seq<nat>,
                  parameters: seq<Annotation>, comments: seq<Annotation>, protocolExecutions: seq<nat>)
    | ProtocolExecutionNode(index: nat, name: string, inputs: seq<nat>, outputs: seq<nat>,
                            parameters: seq<Annotation>, performers: seq<Annotation>, dates: seq<Annotation>)
  {
    /** A `MaterialNode` in the Java sense: a sample is a specialised material. */
    predicate IsMaterial() { MaterialNode? || SampleNode? }

    /** The nodes that hold inputs, outputs and parameters. */
    predicate IsProcessLike() { ProcessNode? || ProtocolExecutionNode? }

    /** The nodes that accept comments. */
    predicate HasComments() { MaterialNode? || SampleNode? || DataNode? || ProcessNode? }
  }

  /** The node types `getNodes` filters on. */
  datatype NodeType = MaterialType | DataType | ProcessType | ProtocolExecutionType

  function TypeOf(n: Node): NodeType
  {
    match n
    case MaterialNode(_, _, _, _) => MaterialType
    case SampleNode(_, _, _, _, _) => MaterialType
    case DataNode(_, _, _) => DataType
    case ProcessNode(_, _, _, _, _, _, _) => ProcessType
    case ProtocolExecutionNode(_, _, _, _, _, _, _) => ProtocolExecutionType
  }

  /** The graph: nodes keyed by column index, and the order in which they were added. */
  datatype Graph = Graph(nodes: map<nat, Node>, order: seq<nat>)

  const EmptyGraph := Graph(map[], [])

  /** Every node sits at its own index, and `order` lists every key once, in increasing order. */
  ghost predicate WellFormed(g: Graph)
  {
    (forall k | k in g.nodes :: g.nodes[k].index == k)
    && (forall k :: k in g.nodes <==> k in g.order)
    && (forall i, j | 0 <= i < j < |g.order| :: g.order[i] < g.order[j])
  }

  /** `graph.addNode(node)`: the node is stored at its index and, if new, appended to the insertion order. */
  function AddNode(g: Graph, n: Node): (r: Graph)
    ensures r.nodes == g.nodes[n.index := n]
    ensures r.order == if n.index in g.nodes then g.order else g.order + [n.index]
  {
    Graph(g.nodes[n.index := n], if n.index in g.nodes then g.order else g.order + [n.index])
  }

  /** Adding a node whose index is above every existing one keeps the graph well formed. */
  lemma AddNodeWellFormed(g: Graph, n: Node)
    requires WellFormed(g)
    requires forall k | k in g.nodes :: k < n.index
    ensures WellFormed(AddNode(g, n))
  {
    var r := AddNode(g, n);
    assert n.index !in g.nodes;
    forall i, j | 0 <= i < j < |r.order| ensures r.order[i] < r.order[j] {
      if j == |g.order| {
        assert g.order[i] in g.nodes;
      }
    }
  }

  /** `graph.getNode(index)`. */
  function GetNode(g: Graph, i: nat): (r: Option<Node>)
    ensures r.Some? <==> i in g.nodes
    ensures r.Some? ==> r.value == g.nodes[i]
  {
    if i in g.nodes then Some(g.nodes[i]) else None
  }

  /** The nodes of type `t` among the indices `keys`, in that order. */
  function NodesIn(nodes: map<nat, Node>, keys: seq<nat>, t: NodeType): (r: seq<Node>)
    ensures |r| <= |keys|
    ensures forall n | n in r :: TypeOf(n) == t && n in nodes.Values
    ensures forall i | 0 <= i < |keys| && keys[i] in nodes && TypeOf(nodes[keys[i]]) == t :: nodes[keys[i]] in r
  {
    if keys == [] then []
    else
      var rest := NodesIn(nodes, keys[1..], t);
      assert forall i | 1 <= i < |keys| :: keys[i] == keys[1..][i - 1];
      if keys[0] in nodes && TypeOf(nodes[keys[0]]) == t then [nodes[keys[0]]] + rest else rest
  }

  /** `graph.getNodes(type)`: the nodes of that type, in insertion order. */
  function GetNodes(g: Graph, t: NodeType): seq<Node>
  {
    NodesIn(g.nodes, g.order, t)
  }

  /**
   * Round trip between the two lookups of a well-formed graph: a node is listed
   * by `getNodes(t)` exactly when `getNode` finds it at its own index with type `t`.
   */
  lemma GetNodesRoundTrip(g: Graph, t: NodeType, n: Node)
    requires WellFormed(g)
    ensures n in GetNodes(g, t) <==> GetNode(g, n.index) == Some(n) && TypeOf(n) == t
  {
    if n in GetNodes(g, t) {
      var k :| k in g.nodes && g.nodes[k] == n;
      assert k == n.index;
    }
    if GetNode(g, n.index) == Some(n) && TypeOf(n) == t {
      var i :| 0 <= i < |g.order| && g.order[i] == n.index;
    }
  }

  // ---------------------------------------------------------------------------
  // Attaching things to a node already in the graph. Each is a no-op when the
  // node at that index lacks the capability (the Java casts would fail there;
  // the builder's invariants show that this never happens).

  /** What attaching never changes: the variant, index, name, inputs and owned protocol executions. */
  function Frame(n: Node): Node
  {
    match n
    case MaterialNode(i, nm, _, _) => MaterialNode(i, nm, [], [])
    case SampleNode(i, nm, _, _, _) => SampleNode(i, nm, [], [], [])
    case DataNode(i, nm, _) => DataNode(i, nm, [])
    case ProcessNode(i, nm, ins, _, _, _, pes) => ProcessNode(i, nm, ins, [], [], [], pes)
    case ProtocolExecutionNode(i, nm, ins, _, _, _, _) => ProtocolExecutionNode(i, nm, ins, [], [], [], [])
  }

  /** `r` is `g` with at most the node at `k` changed, and only in what attaching may change. */
  ghost predicate ChangesOnly(g: Graph, r: Graph, k: nat)
  {
    r.order == g.order && r.nodes.Keys == g.nodes.Keys
    && (forall j | j in g.nodes && j != k :: r.nodes[j] == g.nodes[j])
    && (k in g.nodes ==> Frame(r.nodes[k]) == Frame(g.nodes[k]))
  }

  /** `process.addOutputNode(node)` on the process-like node at `k`. */
  function AddOutput(g: Graph, k: nat, o: nat): (r: Graph)
    ensures ChangesOnly(g, r, k)
    ensures k in g.nodes && g.nodes[k].IsProcessLike() ==> r.nodes[k].outputs == g.nodes[k].outputs + [o]
    ensures k in g.nodes && g.nodes[k].IsProcessLike() ==> r.nodes[k].parameters == g.nodes[k].parameters
    ensures k in g.nodes && g.nodes[k].ProcessNode? ==> r.nodes[k].comments == g.nodes[k].comments
    ensures k in g.nodes && g.nodes[k].ProtocolExecutionNode? ==>
              r.nodes[k].performers == g.nodes[k].performers && r.nodes[k].dates == g.nodes[k].dates
    ensures !(k in g.nodes && g.nodes[k].IsProcessLike()) ==> r == g
  {
    if k in g.nodes && g.nodes[k].IsProcessLike() then
      var n := g.nodes[k];
      Graph(g.nodes[k := n.(outputs := n.outputs + [o])], g.order)
    else g
  }

  /** `process.addParameter(parameter)` on the process-like node at `k`. */
  function AddParameter(g: Graph, k: nat, a: Annotation): (r: Graph)
    ensures ChangesOnly(g, r, k)
    ensures k in g.nodes && g.nodes[k].IsProcessLike() ==>
              r.nodes[k] == g.nodes[k].(parameters := g.nodes[k].parameters + [a])
    ensures !(k in g.nodes && g.nodes[k].IsProcessLike()) ==> r == g
  {
    if k in g.nodes && g.nodes[k].IsProcessLike() then
      var n := g.nodes[k];
      Graph(g.nodes[k := n.(parameters := n.parameters + [a])], g.order)
    else g
  }

  /** `protocolExecution.addPerformer(performer)` on the protocol execution at `k`. */
  function AddPerformer(g: Graph, k: nat, a: Annotation): (r: Graph)
    ensures ChangesOnly(g, r, k)
    ensures k in g.nodes && g.nodes[k].ProtocolExecutionNode? ==>
              r.nodes[k] == g.nodes[k].(performers := g.nodes[k].performers + [a])
    ensures !(k in g.nodes && g.nodes[k].ProtocolExecutionNode?) ==> r == g
  {
    if k in g.nodes && g.nodes[k].ProtocolExecutionNode? then
      var n := g.nodes[k];
      Graph(g.nodes[k := n.(performers := n.performers + [a])], g.order)
    else g
  }

  /** `protocolExecution.addDate(date)` on the protocol execution at `k`. */
  function AddDate(g: Graph, k: nat, a: Annotation): (r: Graph)
    ensures ChangesOnly(g, r, k)
    ensures k in g.nodes && g.nodes[k].ProtocolExecutionNode? ==>
              r.nodes[k] == g.nodes[k].(dates := g.nodes[k].dates + [a])
    ensures !(k in g.nodes && g.nodes[k].ProtocolExecutionNode?) ==> r == g
  {
    if k in g.nodes && g.nodes[k].ProtocolExecutionNode? then
      var n := g.nodes[k];
      Graph(g.nodes[k := n.(dates := n.dates + [a])], g.order)
    else g
  }

  /** `node.addComment(comment)` on the material, sample, data or process node at `k`. */
  /** `n` with comment `c` appended; every other field of `n` stays. */
  function WithComment(n: Node, c: Annotation): Node
    requires n.HasComments()
  {
    n.(comments := n.comments + [c])
  }

  function AddComment(g: Graph, k: nat, c: Annotation): (r: Graph)
    ensures ChangesOnly(g, r, k)
    ensures k in g.nodes && g.nodes[k].HasComments() ==>
              r.nodes[k] == WithComment(g.nodes[k], c) && r.nodes[k].comments == g.nodes[k].comments + [c]
    ensures !(k in g.nodes && g.nodes[k].HasComments()) ==> r == g
  {
    if k in g.nodes && g.nodes[k].HasComments() then
      Graph(g.nodes[k := WithComment(g.nodes[k], c)], g.order)
    else g
  }

  /** `materialNode.addMaterialAttribute(attribute)` on the material or sample node at `k`. */
  function AddMaterialAttribute(g: Graph, k: nat, a: Annotation): (r: Graph)
    ensures ChangesOnly(g, r, k)
    ensures k in g.nodes && g.nodes[k].IsMaterial() ==>
              r.nodes[k] == g.nodes[k].(attributes := g.nodes[k].attributes + [a])
    ensures !(k in g.nodes && g.nodes[k].IsMaterial()) ==> r == g
  {
    if k in g.nodes && g.nodes[k].IsMaterial() then
      var n := g.nodes[k];
      Graph(g.nodes[k := n.(attributes := n.attributes + [a])], g.order)
    else g
  }

  /** `sampleNode.addFactorValue(factorValue)` on the sample node at `k`. */
  function AddFactorValue(g: Graph, k: nat, fv: FactorValue): (r: Graph)
    ensures ChangesOnly(g, r, k)
    ensures k in g.nodes && g.nodes[k].SampleNode? ==>
              r.nodes[k] == g.nodes[k].(factorValues := g.nodes[k].factorValues + [fv])
    ensures !(k in g.nodes && g.nodes[k].SampleNode?) ==> r == g
  {
    if k in g.nodes && g.nodes[k].SampleNode? then
      var n := g.nodes[k];
      Graph(g.nodes[k := n.(factorValues := n.factorValues + [fv])], g.order)
    else g
  }

  /** The factor values `fvs` after `setUnit(u)` on the one whose index is `f`; the others are untouched. */
  function WithUnit(fvs: seq<FactorValue>, f: nat, u: Annotation): (r: seq<FactorValue>)
    ensures |r| == |fvs|
    ensures forall i | 0 <= i < |fvs| ::
              r[i] == if fvs[i].index == f then fvs[i].(unit := Some(u)) else fvs[i]
  {
    if fvs == [] then []
    else [if fvs[0].index == f then fvs[0].(unit := Some(u)) else fvs[0]] + WithUnit(fvs[1..], f, u)
  }

  /** `factorValue.setUnit(unit)` where the factor value `f` is held by the sample node at `k`. */
  function SetUnit(g: Graph, k: nat, f: nat, u: Annotation): (r: Graph)
    ensures ChangesOnly(g, r, k)
    ensures k in g.nodes && g.nodes[k].SampleNode? ==>
              r.nodes[k] == g.nodes[k].(factorValues := WithUnit(g.nodes[k].factorValues, f, u))
    ensures !(k in g.nodes && g.nodes[k].SampleNode?) ==> r == g
  {
    if k in g.nodes && g.nodes[k].SampleNode? then
      var n := g.nodes[k];
      Graph(g.nodes[k := n.(factorValues := WithUnit(n.factorValues, f, u))], g.order)
    else g
  }
}
