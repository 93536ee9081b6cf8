/**
 * What the pass of `createGraph` guarantees, stated about `GraphBuilder.Run`
 * (the function `CreateGraph` is proved to compute) and `GraphBuilder.Step`.
 */
module GraphBuilderProperties {
  import opened Wrappers
  import opened HeaderClassifier
  import opened GraphModel
  import opened GraphBuilder

  // ---------------------------------------------------------------------------
  // Reference definitions over the header row alone.

  /** The last column of `hs` whose kind is in `ks`. */
  function LastOfKinds(p: Patterns, hs: seq<string>, ks: set<ColumnKind>): (r: Option<nat>)
    ensures r.Some? ==> r.value < |hs| && Classify(p, hs[r.value]) in ks
    ensures r.Some? ==> forall j | r.value < j < |hs| :: Classify(p, hs[j]) !in ks
    ensures r.None? ==> forall j | 0 <= j < |hs| :: Classify(p, hs[j]) !in ks
    decreases |hs|
  {
    if hs == [] then None
    else if Classify(p, hs[|hs| - 1]) in ks then Some(|hs| - 1)
    else
      var r := LastOfKinds(p, hs[..|hs| - 1], ks);
      assert forall j | 0 <= j < |hs| - 1 :: hs[..|hs| - 1][j] == hs[j];
      r
  }

  /** The columns from `lo` on whose kind is in `ks`, in increasing order. */
  function ColumnsOf(p: Patterns, hs: seq<string>, lo: nat, ks: set<ColumnKind>): (r: seq<nat>)
    ensures forall k | k in r :: lo <= k < |hs| && Classify(p, hs[k]) in ks
    ensures forall k | lo <= k < |hs| && Classify(p, hs[k]) in ks :: k in r
    ensures forall i, j | 0 <= i < j < |r| :: r[i] < r[j]
    decreases |hs|
  {
    if |hs| <= lo then []
    else
      var r := ColumnsOf(p, hs[..|hs| - 1], lo, ks);
      assert forall j | 0 <= j < |hs| - 1 :: hs[..|hs| - 1][j] == hs[j];
      assert forall i | 0 <= i < |r| :: r[i] in r && r[i] < |hs| - 1;
      if Classify(p, hs[|hs| - 1]) in ks then r + [|hs| - 1] else r
  }

  /** The column just after `o`, or 0 when there is none. */
  function After(o: Option<nat>): nat
  {
    if o.Some? then o.value + 1 else 0
  }

  const NodeKinds := {ProtocolExecutionColumn, ProcessColumn, DataColumn, MaterialColumn, SampleColumn}
  const MaterialOrDataKinds := {DataColumn, MaterialColumn, SampleColumn}

  /** The node at a column has the variant its header's classification calls for. */
  predicate VariantFits(n: Node, k: ColumnKind)
  {
    match k
    case ProtocolExecutionColumn => n.ProtocolExecutionNode?
    case ProcessColumn => n.ProcessNode?
    case DataColumn => n.DataNode?
    case MaterialColumn => n.MaterialNode?
    case SampleColumn => n.SampleNode?
    case _ => false
  }

  // ---------------------------------------------------------------------------
  // The cursor invariant.

  /** `g'` has the same keys as `g`, with the same index and variant at each. */
  ghost predicate SameVariants(g: Graph, g': Graph)
  {
    g'.order == g.order && g'.nodes.Keys == g.nodes.Keys
    && forall j | j in g.nodes :: Frame(g'.nodes[j]).index == j && SameVariant(g.nodes[j], g'.nodes[j])
  }

  predicate SameVariant(a: Node, b: Node)
  {
    a.MaterialNode? == b.MaterialNode? && a.SampleNode? == b.SampleNode? && a.DataNode? == b.DataNode?
    && a.ProcessNode? == b.ProcessNode? && a.ProtocolExecutionNode? == b.ProtocolExecutionNode?
  }

  /** Each cursor points at a node of its kind (the casts of `createGraph` cannot fail). */
  ghost predicate CursorsFit(g: Graph, c: Cursors, n: nat)
  {
    (c.lastProcess.Some? ==> c.lastProcess.value in g.nodes && g.nodes[c.lastProcess.value].ProcessNode?)
    && (c.lastProtocolExecution.Some? ==>
          c.lastProtocolExecution.value in g.nodes && g.nodes[c.lastProtocolExecution.value].ProtocolExecutionNode?)
    && (c.lastMaterialOrData.Some? ==>
          c.lastMaterialOrData.value in g.nodes
          && (g.nodes[c.lastMaterialOrData.value].IsMaterial() || g.nodes[c.lastMaterialOrData.value].DataNode?))
    && (c.lastSample.Some? ==> c.lastSample.value in g.nodes && g.nodes[c.lastSample.value].SampleNode?)
    && (c.lastFactorValue.Some? ==>
          c.lastFactorValue.value.index < n
          && (c.lastFactorValue.value.owner.Some? ==>
                c.lastFactorValue.value.owner.value in g.nodes
                && g.nodes[c.lastFactorValue.value.owner.value].SampleNode?))
    && (forall e | e in c.pending :: e in g.nodes && g.nodes[e].ProtocolExecutionNode?)
  }

  /** After `n` columns: the graph is well formed, every node is below `n`, and the cursors fit. */
  ghost predicate Consistent(s: BuildState, n: nat)
  {
    WellFormed(s.graph)
    && (forall k | k in s.graph.nodes :: k < n)
    && CursorsFit(s.graph, s.cursors, n)
  }

  lemma ChangesOnlySameVariants(g: Graph, g': Graph, k: nat)
    requires WellFormed(g)
    requires ChangesOnly(g, g', k)
    ensures SameVariants(g, g')
  {
    forall j | j in g.nodes ensures Frame(g'.nodes[j]).index == j && SameVariant(g.nodes[j], g'.nodes[j]) {
      if j == k {
        assert Frame(g'.nodes[j]) == Frame(g.nodes[j]);
      }
    }
  }

  /** Attaching to an existing node keeps the cursor invariant. */
  lemma ChangesOnlyKeepsConsistent(s: BuildState, g': Graph, k: nat, n: nat)
    requires Consistent(s, n)
    requires ChangesOnly(s.graph, g', k)
    ensures Consistent(s.(graph := g'), n)
  {
    ChangesOnlySameVariants(s.graph, g', k);
    var g := s.graph;
    forall j | j in g'.nodes ensures g'.nodes[j].index == j {
      assert Frame(g'.nodes[j]).index == g'.nodes[j].index;
    }
    assert WellFormed(g');
    assert CursorsFit(g', s.cursors, n);
  }

  /** A new node above all others keeps the invariant for cursors that do not point at it. */
  lemma AddNodeKeepsConsistent(s: BuildState, node: Node, n: nat)
    requires Consistent(s, n)
    requires node.index == n
    ensures Consistent(s.(graph := AddNode(s.graph, node)), n + 1)
  {
    AddNodeWellFormed(s.graph, node);
  }

  /** One column keeps the cursor invariant. */
  lemma StepConsistent(p: Patterns, s: BuildState, n: nat, h: string)
    requires Consistent(s, n)
    ensures Consistent(Step(p, s, n, h), n + 1)
  {
    StepAsConsistent(Classify(p, h), s, n, h);
  }

  lemma StepAsConsistent(k: ColumnKind, s: BuildState, n: nat, h: string)
    requires Consistent(s, n)
    ensures Consistent(StepAs(k, s, n, h), n + 1)
  {
    match k
    case DataColumn => DataStepConsistent(s, n, h);
    case MaterialColumn => MaterialStepConsistent(s, n, MaterialNode(n, h, [], []));
    case SampleColumn => MaterialStepConsistent(s, n, SampleNode(n, h, [], [], []));
    case ProtocolExecutionColumn => NewProcessConsistent(k, s, n, h);
    case ProcessColumn => NewProcessConsistent(k, s, n, h);
    case DateColumn => ExecutionAnnotationConsistent(k, s, n, h);
    case PerformerColumn => ExecutionAnnotationConsistent(k, s, n, h);
    case ProcessParameterColumn => ExecutionAnnotationConsistent(k, s, n, h);
    case MaterialAttributeColumn => MaterialAttributeConsistent(s, n, h);
    case FactorValueColumn => FactorValueConsistent(s, n, h);
    case UnitColumn => UnitConsistent(s, n, h);
    case CommentColumn => CommentConsistent(s, n, h);
    case Unrecognized =>
  }

  lemma NewProcessConsistent(k: ColumnKind, s: BuildState, n: nat, h: string)
    requires Consistent(s, n)
    requires k == ProtocolExecutionColumn || k == ProcessColumn
    ensures Consistent(StepAs(k, s, n, h), n + 1)
  {
    var c := s.cursors;
    if k == ProtocolExecutionColumn {
      AddNodeKeepsConsistent(s, ProtocolExecutionNode(n, h, InputsFrom(c.lastMaterialOrData), [], [], [], []), n);
    } else {
      AddNodeKeepsConsistent(s, ProcessNode(n, h, InputsFrom(c.lastMaterialOrData), [], [], [], c.pending), n);
    }
  }

  lemma DataStepConsistent(s: BuildState, n: nat, h: string)
    requires Consistent(s, n)
    ensures Consistent(StepAs(DataColumn, s, n, h), n + 1)
  {
    var c := s.cursors;
    var s1 := BuildState(AddNode(s.graph, DataNode(n, h, [])), c.(lastMaterialOrData := Some(n)));
    assert Consistent(s1, n + 1) by {
      AddNodeKeepsConsistent(s, DataNode(n, h, []), n);
    }
    if c.lastProcess.Some? {
      DataOutputConsistent(s1, s1.cursors.(lastProcess := None), c.lastProcess.value, n);
      assert StepAs(DataColumn, s, n, h)
             == BuildState(AddOutput(s1.graph, c.lastProcess.value, n), s1.cursors.(lastProcess := None));
    } else if c.lastProtocolExecution.Some? {
      DataOutputConsistent(s1, s1.cursors.(lastProtocolExecution := None), c.lastProtocolExecution.value, n);
      assert StepAs(DataColumn, s, n, h)
             == BuildState(AddOutput(s1.graph, c.lastProtocolExecution.value, n), s1.cursors.(lastProtocolExecution := None));
    } else {
      assert StepAs(DataColumn, s, n, h) == s1;
    }
  }

  /** Linking an output to a node and clearing the cursor that pointed at it keeps the invariant. */
  lemma DataOutputConsistent(s: BuildState, c': Cursors, x: nat, n: nat)
    requires Consistent(s, n + 1)
    requires c' == s.cursors.(lastProcess := None) || c' == s.cursors.(lastProtocolExecution := None)
    ensures Consistent(BuildState(AddOutput(s.graph, x, n), c'), n + 1)
  {
    assert Consistent(s.(cursors := c'), n + 1);
    ChangesOnlyKeepsConsistent(s.(cursors := c'), AddOutput(s.graph, x, n), x, n + 1);
  }

  lemma ExecutionAnnotationConsistent(k: ColumnKind, s: BuildState, n: nat, h: string)
    requires Consistent(s, n)
    requires k == DateColumn || k == PerformerColumn || k == ProcessParameterColumn
    ensures Consistent(StepAs(k, s, n, h), n + 1)
  {
    var g := s.graph;
    var a := Annotation(n, h);
    assert Consistent(s, n + 1);
    if s.cursors.lastProtocolExecution.Some? {
      var e := s.cursors.lastProtocolExecution.value;
      var g' := if k == DateColumn then AddDate(g, e, a)
                else if k == PerformerColumn then AddPerformer(g, e, a)
                else AddParameter(g, e, a);
      ChangesOnlyKeepsConsistent(s, g', e, n + 1);
      assert StepAs(k, s, n, h) == s.(graph := g');
    } else {
      assert StepAs(k, s, n, h) == s;
    }
  }

  lemma MaterialAttributeConsistent(s: BuildState, n: nat, h: string)
    requires Consistent(s, n)
    ensures Consistent(StepAs(MaterialAttributeColumn, s, n, h), n + 1)
  {
    var m := s.cursors.lastMaterialOrData;
    if m.Some? && s.graph.nodes[m.value].IsMaterial() {
      var g' := AddMaterialAttribute(s.graph, m.value, Annotation(n, h));
      assert StepAs(MaterialAttributeColumn, s, n, h) == s.(graph := g');
      AttachKeepsConsistent(s, g', m.value, n);
    } else {
      assert StepAs(MaterialAttributeColumn, s, n, h) == s;
      ConsistentLater(s, n);
    }
  }

  lemma FactorValueConsistent(s: BuildState, n: nat, h: string)
    requires Consistent(s, n)
    ensures Consistent(StepAs(FactorValueColumn, s, n, h), n + 1)
  {
    var c := s.cursors;
    var s1 := s.(cursors := c.(lastFactorValue := Some(FactorCursor(n, c.lastSample))));
    assert Consistent(s1, n + 1);
    if c.lastSample.Some? {
      var g' := AddFactorValue(s.graph, c.lastSample.value, FactorValue(n, h, None));
      assert StepAs(FactorValueColumn, s, n, h) == s1.(graph := g');
      ChangesOnlyKeepsConsistent(s1, g', c.lastSample.value, n + 1);
    } else {
      assert StepAs(FactorValueColumn, s, n, h) == s1;
    }
  }

  lemma UnitConsistent(s: BuildState, n: nat, h: string)
    requires Consistent(s, n)
    ensures Consistent(StepAs(UnitColumn, s, n, h), n + 1)
  {
    var fv := s.cursors.lastFactorValue;
    if fv.Some? && fv.value.owner.Some? {
      var o := fv.value.owner.value;
      var g' := SetUnit(s.graph, o, fv.value.index, Annotation(n, h));
      assert StepAs(UnitColumn, s, n, h) == s.(graph := g');
      AttachKeepsConsistent(s, g', o, n);
    } else {
      assert StepAs(UnitColumn, s, n, h) == s;
      ConsistentLater(s, n);
    }
  }

  /** The cursor invariant after `n` columns still holds one column later. */
  lemma ConsistentLater(s: BuildState, n: nat)
    requires Consistent(s, n)
    ensures Consistent(s, n + 1)
  {
  }

  /** Attaching to an existing node keeps the cursor invariant, one column later. */
  lemma AttachKeepsConsistent(s: BuildState, g': Graph, k: nat, n: nat)
    requires Consistent(s, n)
    requires ChangesOnly(s.graph, g', k)
    ensures Consistent(s.(graph := g'), n + 1)
  {
    ConsistentLater(s, n);
    ChangesOnlyKeepsConsistent(s, g', k, n + 1);
  }

  lemma CommentConsistent(s: BuildState, n: nat, h: string)
    requires Consistent(s, n)
    ensures Consistent(StepAs(CommentColumn, s, n, h), n + 1)
  {
    var g := s.graph;
    var c := s.cursors;
    var a := Annotation(n, h);
    var g1 := if c.lastProcess.Some? then AddComment(g, c.lastProcess.value, a) else g;
    var g2 := if c.lastMaterialOrData.Some? then AddComment(g1, c.lastMaterialOrData.value, a) else g1;
    assert StepAs(CommentColumn, s, n, h) == s.(graph := g2);
    assert Consistent(s.(graph := g1), n + 1) by {
      if c.lastProcess.Some? {
        AttachKeepsConsistent(s, g1, c.lastProcess.value, n);
      } else {
        ConsistentLater(s, n);
      }
    }
    if c.lastMaterialOrData.Some? {
      ChangesOnlyKeepsConsistent(s.(graph := g1), g2, c.lastMaterialOrData.value, n + 1);
    }
  }

  lemma MaterialStepConsistent(s: BuildState, n: nat, node: Node)
    requires Consistent(s, n)
    requires node.IsMaterial() && node.index == n
    ensures Consistent(MaterialStep(s, n, node), n + 1)
  {
    var c := s.cursors;
    var g1 := if c.lastMaterialOrData.Some? && c.lastProcess.None? && c.lastProtocolExecution.Some?
              then AddOutput(s.graph, c.lastProtocolExecution.value, n) else s.graph;
    if c.lastMaterialOrData.Some? && c.lastProcess.None? && c.lastProtocolExecution.Some? {
      ChangesOnlyKeepsConsistent(s, g1, c.lastProtocolExecution.value, n);
    }
    AddNodeKeepsConsistent(s.(graph := g1), node, n);
    var c1 := c.(lastMaterialOrData := Some(n), lastSample := if node.SampleNode? then Some(n) else c.lastSample);
    var s2 := BuildState(AddNode(g1, node), c1);
    assert Consistent(s2, n + 1);
    if c.lastProcess.Some? {
      var s3 := s2.(cursors := c1.(lastProcess := None));
      assert Consistent(s3, n + 1);
      ChangesOnlyKeepsConsistent(s3, AddOutput(s2.graph, c.lastProcess.value, n), c.lastProcess.value, n + 1);
    }
  }

  /** `Run` over a prefix one longer is one more `Step`. */
  lemma RunPrefix(p: Patterns, hs: seq<string>, n: nat)
    requires 0 < n <= |hs|
    ensures Run(p, hs[..n]) == Step(p, Run(p, hs[..n - 1]), n - 1, hs[n - 1])
  {
    assert hs[..n][..n - 1] == hs[..n - 1];
  }

  /** The cursor invariant holds after every pass. */
  lemma {:induction false} RunConsistent(p: Patterns, hs: seq<string>)
    ensures Consistent(Run(p, hs), |hs|)
    decreases |hs|
  {
    if hs != [] {
      RunConsistent(p, hs[..|hs| - 1]);
      StepConsistent(p, Run(p, hs[..|hs| - 1]), |hs| - 1, hs[|hs| - 1]);
    }
  }

  // ---------------------------------------------------------------------------
  // Which nodes exist: one per node-creating column, at its own index.

  /** The node a column of node-creating kind `k` adds, before anything is attached to it. */
  function CreatedNode(k: ColumnKind, c: Cursors, n: nat, h: string): Node
    requires k in NodeKinds
  {
    match k
    case ProtocolExecutionColumn => ProtocolExecutionNode(n, h, InputsFrom(c.lastMaterialOrData), [], [], [], [])
    case ProcessColumn => ProcessNode(n, h, InputsFrom(c.lastMaterialOrData), [], [], [], c.pending)
    case DataColumn => DataNode(n, h, [])
    case MaterialColumn => MaterialNode(n, h, [], [])
    case SampleColumn => SampleNode(n, h, [], [], [])
  }

  /** Every node of `g` is still in `g'`, with its variant, index, name, inputs and owned executions unchanged. */
  ghost predicate KeepsFrames(g: Graph, g': Graph)
  {
    g.nodes.Keys <= g'.nodes.Keys && forall k | k in g.nodes :: Frame(g'.nodes[k]) == Frame(g.nodes[k])
  }

  /** What one column of kind `k` does to the set of nodes: a node-creating column adds exactly its own node, at its own index. */
  ghost predicate FrameStep(k: ColumnKind, s: BuildState, s': BuildState, n: nat, h: string)
  {
    var creates := k in NodeKinds;
    KeepsFrames(s.graph, s'.graph)
    && s'.graph.nodes.Keys == s.graph.nodes.Keys + (if creates then {n} else {})
    && s'.graph.order == s.graph.order + (if creates then [n] else [])
    && (creates ==> Frame(s'.graph.nodes[n]) == Frame(CreatedNode(k, s.cursors, n, h)))
  }

  lemma StepFrame(p: Patterns, s: BuildState, n: nat, h: string)
    requires Consistent(s, n)
    ensures FrameStep(Classify(p, h), s, Step(p, s, n, h), n, h)
  {
    StepAsFrame(Classify(p, h), s, n, h);
  }

  lemma StepAsFrame(k: ColumnKind, s: BuildState, n: nat, h: string)
    requires Consistent(s, n)
    ensures FrameStep(k, s, StepAs(k, s, n, h), n, h)
  {
    assert n !in s.graph.nodes;
    match k
    case DataColumn => DataStepFrame(s, n, h);
    case MaterialColumn => MaterialStepFrame(s, n, MaterialNode(n, h, [], []));
    case SampleColumn => MaterialStepFrame(s, n, SampleNode(n, h, [], [], []));
    case ProtocolExecutionColumn =>
    case ProcessColumn =>
    case DateColumn => ExecutionAnnotationFrame(k, s, n, h);
    case PerformerColumn => ExecutionAnnotationFrame(k, s, n, h);
    case ProcessParameterColumn => ExecutionAnnotationFrame(k, s, n, h);
    case MaterialAttributeColumn => MaterialAttributeFrame(s, n, h);
    case FactorValueColumn => FactorValueFrame(s, n, h);
    case UnitColumn => UnitFrame(s, n, h);
    case CommentColumn => CommentFrame(s, n, h);
    case Unrecognized =>
  }

  lemma ChangesOnlyKeepsFrames(g: Graph, g': Graph, k: nat)
    requires ChangesOnly(g, g', k)
    ensures KeepsFrames(g, g') && g'.nodes.Keys == g.nodes.Keys && g'.order == g.order
  {
  }

  lemma DataStepFrame(s: BuildState, n: nat, h: string)
    requires Consistent(s, n)
    ensures FrameStep(DataColumn, s, StepAs(DataColumn, s, n, h), n, h)
  {
    var c := s.cursors;
    var g1 := AddNode(s.graph, DataNode(n, h, []));
    assert KeepsFrames(s.graph, g1);
    if c.lastProcess.Some? {
      ChangesOnlyKeepsFrames(g1, AddOutput(g1, c.lastProcess.value, n), c.lastProcess.value);
    } else if c.lastProtocolExecution.Some? {
      ChangesOnlyKeepsFrames(g1, AddOutput(g1, c.lastProtocolExecution.value, n), c.lastProtocolExecution.value);
    }
  }

  lemma ExecutionAnnotationFrame(k: ColumnKind, s: BuildState, n: nat, h: string)
    requires k == DateColumn || k == PerformerColumn || k == ProcessParameterColumn
    ensures FrameStep(k, s, StepAs(k, s, n, h), n, h)
  {
    var g := s.graph;
    var a := Annotation(n, h);
    if s.cursors.lastProtocolExecution.Some? {
      var e := s.cursors.lastProtocolExecution.value;
      if k == DateColumn {
        ChangesOnlyKeepsFrames(g, AddDate(g, e, a), e);
      } else if k == PerformerColumn {
        ChangesOnlyKeepsFrames(g, AddPerformer(g, e, a), e);
      } else {
        ChangesOnlyKeepsFrames(g, AddParameter(g, e, a), e);
      }
    }
  }

  lemma MaterialAttributeFrame(s: BuildState, n: nat, h: string)
    ensures FrameStep(MaterialAttributeColumn, s, StepAs(MaterialAttributeColumn, s, n, h), n, h)
  {
    var m := s.cursors.lastMaterialOrData;
    if m.Some? {
      ChangesOnlyKeepsFrames(s.graph, AddMaterialAttribute(s.graph, m.value, Annotation(n, h)), m.value);
    }
  }

  lemma FactorValueFrame(s: BuildState, n: nat, h: string)
    ensures FrameStep(FactorValueColumn, s, StepAs(FactorValueColumn, s, n, h), n, h)
  {
    var o := s.cursors.lastSample;
    if o.Some? {
      ChangesOnlyKeepsFrames(s.graph, AddFactorValue(s.graph, o.value, FactorValue(n, h, None)), o.value);
    }
  }

  lemma UnitFrame(s: BuildState, n: nat, h: string)
    ensures FrameStep(UnitColumn, s, StepAs(UnitColumn, s, n, h), n, h)
  {
    var fv := s.cursors.lastFactorValue;
    if fv.Some? && fv.value.owner.Some? {
      var o := fv.value.owner.value;
      ChangesOnlyKeepsFrames(s.graph, SetUnit(s.graph, o, fv.value.index, Annotation(n, h)), o);
    }
  }

  lemma CommentFrame(s: BuildState, n: nat, h: string)
    ensures FrameStep(CommentColumn, s, StepAs(CommentColumn, s, n, h), n, h)
  {
    var g := s.graph;
    var c := s.cursors;
    var a := Annotation(n, h);
    var g1 := if c.lastProcess.Some? then AddComment(g, c.lastProcess.value, a) else g;
    if c.lastProcess.Some? {
      ChangesOnlyKeepsFrames(g, g1, c.lastProcess.value);
    }
    if c.lastMaterialOrData.Some? {
      ChangesOnlyKeepsFrames(g1, AddComment(g1, c.lastMaterialOrData.value, a), c.lastMaterialOrData.value);
    }
  }

  lemma MaterialStepFrame(s: BuildState, n: nat, node: Node)
    requires Consistent(s, n)
    requires node.IsMaterial() && node.index == n
    ensures var s' := MaterialStep(s, n, node);
            KeepsFrames(s.graph, s'.graph) && s'.graph.nodes.Keys == s.graph.nodes.Keys + {n}
            && s'.graph.order == s.graph.order + [n] && Frame(s'.graph.nodes[n]) == Frame(node)
  {
    var c := s.cursors;
    var g1 := if c.lastMaterialOrData.Some? && c.lastProcess.None? && c.lastProtocolExecution.Some?
              then AddOutput(s.graph, c.lastProtocolExecution.value, n) else s.graph;
    assert KeepsFrames(s.graph, g1) && g1.nodes.Keys == s.graph.nodes.Keys && g1.order == s.graph.order by {
      if c.lastMaterialOrData.Some? && c.lastProcess.None? && c.lastProtocolExecution.Some? {
        ChangesOnlyKeepsFrames(s.graph, g1, c.lastProtocolExecution.value);
      }
    }
    assert n !in g1.nodes;
    var g2 := AddNode(g1, node);
    assert KeepsFrames(g1, g2) && g2.nodes.Keys == g1.nodes.Keys + {n} && g2.order == g1.order + [n]
           && g2.nodes[n] == node;
    var g3 := if c.lastProcess.Some? then AddOutput(g2, c.lastProcess.value, n) else g2;
    assert KeepsFrames(g2, g3) && g3.nodes.Keys == g2.nodes.Keys && g3.order == g2.order
           && Frame(g3.nodes[n]) == Frame(node) by {
      if c.lastProcess.Some? {
        ChangesOnlyKeepsFrames(g2, g3, c.lastProcess.value);
      }
    }
    KeepsFramesTransitive(s.graph, g1, g2);
    KeepsFramesTransitive(s.graph, g2, g3);
    assert MaterialStep(s, n, node).graph == g3;
  }

  lemma KeepsFramesTransitive(g: Graph, g': Graph, g'': Graph)
    requires KeepsFrames(g, g') && KeepsFrames(g', g'')
    ensures KeepsFrames(g, g'')
  {
  }

  /**
   * The graph after the pass holds exactly one node per node-creating column
   * (protocol execution, process, data, material, sample), stored at that
   * column's index, carrying that column's header, of the variant the header's
   * classification names; it is listed in column order. Every other header adds nothing.
   */
  lemma NodesAtOwnColumns(p: Patterns, hs: seq<string>)
    ensures var g := Run(p, hs).graph;
            && (forall k: nat :: k in g.nodes <==> k < |hs| && Classify(p, hs[k]) in NodeKinds)
            && (forall k | k in g.nodes ::
                  g.nodes[k].index == k && g.nodes[k].name == hs[k] && VariantFits(g.nodes[k], Classify(p, hs[k])))
            && g.order == ColumnsOf(p, hs, 0, NodeKinds)
  {
    NodeKeysAndOrder(p, hs);
    NodeFrames(p, hs);
  }

  lemma {:induction false} NodeKeysAndOrder(p: Patterns, hs: seq<string>)
    ensures var g := Run(p, hs).graph;
            && (forall k: nat :: k in g.nodes <==> k < |hs| && Classify(p, hs[k]) in NodeKinds)
            && g.order == ColumnsOf(p, hs, 0, NodeKinds)
    decreases |hs|
  {
    if hs != [] {
      var n := |hs| - 1;
      var prev := hs[..n];
      NodeKeysAndOrder(p, prev);
      var s := Run(p, prev);
      assert Consistent(s, n) by { RunConsistent(p, prev); }
      StepFrame(p, s, n, hs[n]);
      assert Run(p, hs) == Step(p, s, n, hs[n]);
      NodeKeysAndOrderStep(p, hs, prev, n, s.graph, Step(p, s, n, hs[n]).graph);
    }
  }

  lemma NodeKeysAndOrderStep(p: Patterns, hs: seq<string>, prev: seq<string>, n: nat, g: Graph, g': Graph)
    requires |hs| == n + 1 && prev == hs[..n]
    requires forall k: nat :: k in g.nodes <==> k < |prev| && Classify(p, prev[k]) in NodeKinds
    requires g.order == ColumnsOf(p, prev, 0, NodeKinds)
    requires var creates := Classify(p, hs[n]) in NodeKinds;
             && g'.nodes.Keys == g.nodes.Keys + (if creates then {n} else {})
             && g'.order == g.order + (if creates then [n] else [])
    ensures forall k: nat :: k in g'.nodes <==> k < |hs| && Classify(p, hs[k]) in NodeKinds
    ensures g'.order == ColumnsOf(p, hs, 0, NodeKinds)
  {
    assert g'.order == ColumnsOf(p, hs, 0, NodeKinds) by {
      assert hs[..|hs| - 1] == prev;
    }
    forall k: nat | k < n ensures k in g'.nodes <==> Classify(p, hs[k]) in NodeKinds {
      assert prev[k] == hs[k];
    }
  }

  lemma {:induction false} NodeFrames(p: Patterns, hs: seq<string>)
    ensures var g := Run(p, hs).graph;
            forall k | k in g.nodes ::
              k < |hs| && g.nodes[k].index == k && g.nodes[k].name == hs[k] && VariantFits(g.nodes[k], Classify(p, hs[k]))
    decreases |hs|
  {
    if hs != [] {
      var n := |hs| - 1;
      var prev := hs[..n];
      NodeFrames(p, prev);
      var s := Run(p, prev);
      assert Consistent(s, n) by { RunConsistent(p, prev); }
      StepFrame(p, s, n, hs[n]);
      assert Run(p, hs) == Step(p, s, n, hs[n]);
      NodeFramesStep(p, hs, prev, n, s, Step(p, s, n, hs[n]));
    }
  }

  lemma NodeFramesStep(p: Patterns, hs: seq<string>, prev: seq<string>, n: nat, s: BuildState, s': BuildState)
    requires |hs| == n + 1 && prev == hs[..n]
    requires forall k | k in s.graph.nodes ::
               k < |prev| && s.graph.nodes[k].index == k && s.graph.nodes[k].name == prev[k]
               && VariantFits(s.graph.nodes[k], Classify(p, prev[k]))
    requires FrameStep(Classify(p, hs[n]), s, s', n, hs[n])
    ensures forall k | k in s'.graph.nodes ::
              k < |hs| && s'.graph.nodes[k].index == k && s'.graph.nodes[k].name == hs[k]
              && VariantFits(s'.graph.nodes[k], Classify(p, hs[k]))
  {
    var g := s'.graph;
    forall k | k in g.nodes
      ensures k < |hs| && g.nodes[k].index == k && g.nodes[k].name == hs[k] && VariantFits(g.nodes[k], Classify(p, hs[k]))
    {
      if k in s.graph.nodes {
        assert prev[k] == hs[k];
        assert Frame(g.nodes[k]) == Frame(s.graph.nodes[k]);
      } else {
        assert Frame(g.nodes[k]) == Frame(CreatedNode(Classify(p, hs[n]), s.cursors, n, hs[n]));
      }
    }
  }

  // ---------------------------------------------------------------------------
  // The cursors, read off the header row.

  /** The first column from `lo` on whose kind is in `ks`. */
  function FirstOfKinds(p: Patterns, hs: seq<string>, lo: nat, ks: set<ColumnKind>): (r: Option<nat>)
    ensures r.Some? ==> lo <= r.value < |hs| && Classify(p, hs[r.value]) in ks
    ensures r.Some? ==> forall j | lo <= j < r.value :: Classify(p, hs[j]) !in ks
    ensures r.None? ==> forall j | lo <= j < |hs| :: Classify(p, hs[j]) !in ks
    decreases |hs|
  {
    if |hs| <= lo then None
    else
      var prev := FirstOfKinds(p, hs[..|hs| - 1], lo, ks);
      assert forall j | 0 <= j < |hs| - 1 :: hs[..|hs| - 1][j] == hs[j];
      if prev.Some? then prev
      else if Classify(p, hs[|hs| - 1]) in ks then Some(|hs| - 1)
      else None
  }

  const ProcessOrMaterialOrDataKinds := {ProcessColumn, DataColumn, MaterialColumn, SampleColumn}

  /** `lastFactorValue` as read off the header row: the last factor-value column and the last sample column before it. */
  function FactorCursorOf(p: Patterns, hs: seq<string>): Option<FactorCursor>
  {
    match LastOfKinds(p, hs, {FactorValueColumn})
    case None => None
    case Some(f) => Some(FactorCursor(f, LastOfKinds(p, hs[..f], {SampleColumn})))
  }

  /** `lastProcess` as read off the header row: the last process column, unless a material or data column followed it. */
  function LastProcessOf(p: Patterns, hs: seq<string>): Option<nat>
  {
    var l := LastOfKinds(p, hs, ProcessOrMaterialOrDataKinds);
    if l.Some? && Classify(p, hs[l.value]) == ProcessColumn then l else None
  }

  /** Column `d` is a data column read while no process is open, so it takes the open protocol execution as its source. */
  predicate ClearsExecution(p: Patterns, hs: seq<string>, d: nat)
  {
    d < |hs| && Classify(p, hs[d]) == DataColumn && LastProcessOf(p, hs[..d]).None?
  }

  /**
   * `lastProtocolExecutionNode` as read off the header row: the last
   * protocol-execution column, unless a data column after it was read while no
   * process was open. Material and sample columns never clear it, so one
   * protocol execution stays open across all of them.
   */
  function LastExecutionOf(p: Patterns, hs: seq<string>): Option<nat>
  {
    match LastOfKinds(p, hs, {ProtocolExecutionColumn})
    case None => None
    case Some(f) => if exists d | f < d < |hs| :: ClearsExecution(p, hs, d) then None else Some(f)
  }

  /** What the cursors hold after the pass, in terms of the header row alone. */
  ghost predicate CursorsAsRead(p: Patterns, hs: seq<string>, c: Cursors)
  {
    c.lastMaterialOrData == LastOfKinds(p, hs, MaterialOrDataKinds)
    && c.lastSample == LastOfKinds(p, hs, {SampleColumn})
    && c.lastFactorValue == FactorCursorOf(p, hs)
    && c.lastProcess == LastProcessOf(p, hs)
    && c.pending == ColumnsOf(p, hs, After(LastOfKinds(p, hs, {ProcessColumn})), {ProtocolExecutionColumn})
    && c.lastProtocolExecution == LastExecutionOf(p, hs)
  }

  /** What one column does to the six cursors. */
  ghost predicate CursorStep(p: Patterns, c: Cursors, c': Cursors, n: nat, h: string)
  {
    var k := Classify(p, h);
    c'.lastMaterialOrData == (if k in MaterialOrDataKinds then Some(n) else c.lastMaterialOrData)
    && c'.lastSample == (if k == SampleColumn then Some(n) else c.lastSample)
    && c'.lastFactorValue == (if k == FactorValueColumn then Some(FactorCursor(n, c.lastSample)) else c.lastFactorValue)
    && c'.lastProcess == (if k == ProcessColumn then Some(n) else if k in MaterialOrDataKinds then None else c.lastProcess)
    && c'.pending == (if k == ProcessColumn then [] else if k == ProtocolExecutionColumn then c.pending + [n] else c.pending)
    && c'.lastProtocolExecution == (if k == ProtocolExecutionColumn then Some(n)
                                    else if k == DataColumn && c.lastProcess.None? then None
                                    else c.lastProtocolExecution)
  }

  lemma StepCursors(p: Patterns, s: BuildState, n: nat, h: string)
    ensures CursorStep(p, s.cursors, Step(p, s, n, h).cursors, n, h)
  {
    var k := Classify(p, h);
    if k in {DateColumn, PerformerColumn, MaterialAttributeColumn, UnitColumn, ProcessParameterColumn} {
      assert Step(p, s, n, h).cursors == s.cursors;
    } else if k == CommentColumn {
      assert Step(p, s, n, h).cursors == s.cursors;
    }
  }

  /**
   * After the pass: `lastMaterialOrData` is the last material, sample or data
   * column; `lastSample` the last sample column; `lastFactorValue` the last
   * factor-value column, owned by the last sample before it; `lastProcess` the
   * last process column when no material or data column came after it; the
   * pending list holds, in column order, the protocol-execution columns after
   * the last process column; and `lastProtocolExecutionNode` is the last
   * protocol-execution column unless a data column after it was read while no
   * process was open.
   */
  lemma {:induction false} CursorsFollowHeaders(p: Patterns, hs: seq<string>)
    ensures CursorsAsRead(p, hs, Run(p, hs).cursors)
    decreases |hs|
  {
    if hs != [] {
      var n := |hs| - 1;
      var prev := hs[..n];
      CursorsFollowHeaders(p, prev);
      var s := Run(p, prev);
      StepCursors(p, s, n, hs[n]);
      assert Run(p, hs) == Step(p, s, n, hs[n]);
      CursorsAsReadStep(p, hs, prev, n, s.cursors, Step(p, s, n, hs[n]).cursors);
    }
  }

  /** One more column moves the cursors as the header row read one column further says. */
  lemma CursorsAsReadStep(p: Patterns, hs: seq<string>, prev: seq<string>, n: nat, c: Cursors, c': Cursors)
    requires |hs| == n + 1 && prev == hs[..n]
    requires CursorsAsRead(p, prev, c) && CursorStep(p, c, c', n, hs[n])
    ensures CursorsAsRead(p, hs, c')
  {
    var k := Classify(p, hs[n]);
    LastOfKindsStep(p, hs, prev, n, k, MaterialOrDataKinds);
    LastOfKindsStep(p, hs, prev, n, k, {SampleColumn});
    FactorCursorStep(p, hs, prev, n, k);
    LastProcessStep(p, hs, prev, n, k);
    PendingStep(p, hs, prev, n, k);
    LastExecutionStep(p, hs, prev, n, k);
  }

  lemma LastExecutionStep(p: Patterns, hs: seq<string>, prev: seq<string>, n: nat, k: ColumnKind)
    requires |hs| == n + 1 && prev == hs[..n] && k == Classify(p, hs[n])
    ensures LastExecutionOf(p, hs) == if k == ProtocolExecutionColumn then Some(n)
                                      else if k == DataColumn && LastProcessOf(p, prev).None? then None
                                      else LastExecutionOf(p, prev)
  {
    LastOfKindsStep(p, hs, prev, n, k, {ProtocolExecutionColumn});
    if k != ProtocolExecutionColumn {
      match LastOfKinds(p, prev, {ProtocolExecutionColumn})
      case None =>
      case Some(f) =>
        forall d | f < d < n ensures ClearsExecution(p, hs, d) == ClearsExecution(p, prev, d) {
          assert hs[..d] == prev[..d] && hs[d] == prev[d];
        }
        assert ClearsExecution(p, hs, n) <==> k == DataColumn && LastProcessOf(p, prev).None?;
    }
  }

  lemma LastOfKindsStep(p: Patterns, hs: seq<string>, prev: seq<string>, n: nat, k: ColumnKind, ks: set<ColumnKind>)
    requires |hs| == n + 1 && prev == hs[..n] && k == Classify(p, hs[n])
    ensures LastOfKinds(p, hs, ks) == if k in ks then Some(n) else LastOfKinds(p, prev, ks)
  {
  }

  lemma FactorCursorStep(p: Patterns, hs: seq<string>, prev: seq<string>, n: nat, k: ColumnKind)
    requires |hs| == n + 1 && prev == hs[..n] && k == Classify(p, hs[n])
    ensures FactorCursorOf(p, hs) == if k == FactorValueColumn then Some(FactorCursor(n, LastOfKinds(p, prev, {SampleColumn})))
                                     else FactorCursorOf(p, prev)
  {
    LastOfKindsStep(p, hs, prev, n, k, {FactorValueColumn});
    // the last factor value keeps its owner when later columns are added
    match LastOfKinds(p, prev, {FactorValueColumn}) {
      case None =>
      case Some(f) => assert prev[..f] == hs[..f];
    }
  }

  lemma LastProcessStep(p: Patterns, hs: seq<string>, prev: seq<string>, n: nat, k: ColumnKind)
    requires |hs| == n + 1 && prev == hs[..n] && k == Classify(p, hs[n])
    ensures LastProcessOf(p, hs) == if k == ProcessColumn then Some(n) else if k in MaterialOrDataKinds then None
                                    else LastProcessOf(p, prev)
  {
    LastOfKindsStep(p, hs, prev, n, k, ProcessOrMaterialOrDataKinds);
    if k !in ProcessOrMaterialOrDataKinds {
      var l := LastOfKinds(p, prev, ProcessOrMaterialOrDataKinds);
      if l.Some? { assert prev[l.value] == hs[l.value]; }
    }
  }

  lemma PendingStep(p: Patterns, hs: seq<string>, prev: seq<string>, n: nat, k: ColumnKind)
    requires |hs| == n + 1 && prev == hs[..n] && k == Classify(p, hs[n])
    ensures var pending := ColumnsOf(p, prev, After(LastOfKinds(p, prev, {ProcessColumn})), {ProtocolExecutionColumn});
            ColumnsOf(p, hs, After(LastOfKinds(p, hs, {ProcessColumn})), {ProtocolExecutionColumn})
            == if k == ProcessColumn then [] else if k == ProtocolExecutionColumn then pending + [n] else pending
  {
    LastOfKindsStep(p, hs, prev, n, k, {ProcessColumn});
    var lo := After(LastOfKinds(p, prev, {ProcessColumn}));
    assert lo <= n;
    if k == ProcessColumn {
      assert ColumnsOf(p, hs, n + 1, {ProtocolExecutionColumn}) == [];
    }
  }

  // ---------------------------------------------------------------------------
  // Inputs and owned protocol executions are fixed when the node is created.

  lemma {:induction false} FrameAtCreation(p: Patterns, hs: seq<string>)
    ensures var g := Run(p, hs).graph;
            forall k | k in g.nodes ::
              k < |hs| && Classify(p, hs[k]) in NodeKinds
              && Frame(g.nodes[k]) == Frame(CreatedNode(Classify(p, hs[k]), Run(p, hs[..k]).cursors, k, hs[k]))
    decreases |hs|
  {
    if hs != [] {
      var n := |hs| - 1;
      var prev := hs[..n];
      FrameAtCreation(p, prev);
      var s := Run(p, prev);
      assert Consistent(s, n) by { RunConsistent(p, prev); }
      StepFrame(p, s, n, hs[n]);
      assert Run(p, hs) == Step(p, s, n, hs[n]);
      FrameAtCreationStep(p, hs, prev, n, s, Step(p, s, n, hs[n]));
    }
  }

  lemma FrameAtCreationStep(p: Patterns, hs: seq<string>, prev: seq<string>, n: nat, s: BuildState, s': BuildState)
    requires |hs| == n + 1 && prev == hs[..n] && s == Run(p, prev)
    requires forall k | k in s.graph.nodes ::
               k < |prev| && Classify(p, prev[k]) in NodeKinds
               && Frame(s.graph.nodes[k]) == Frame(CreatedNode(Classify(p, prev[k]), Run(p, prev[..k]).cursors, k, prev[k]))
    requires FrameStep(Classify(p, hs[n]), s, s', n, hs[n])
    ensures forall k | k in s'.graph.nodes ::
              k < |hs| && Classify(p, hs[k]) in NodeKinds
              && Frame(s'.graph.nodes[k]) == Frame(CreatedNode(Classify(p, hs[k]), Run(p, hs[..k]).cursors, k, hs[k]))
  {
    var g := s'.graph;
    forall k | k in g.nodes
      ensures k < |hs| && Classify(p, hs[k]) in NodeKinds
              && Frame(g.nodes[k]) == Frame(CreatedNode(Classify(p, hs[k]), Run(p, hs[..k]).cursors, k, hs[k]))
    {
      if k in s.graph.nodes {
        assert prev[..k] == hs[..k] && prev[k] == hs[k];
      } else {
        assert k == n && hs[..k] == prev;
      }
    }
  }

  /**
   * A process or protocol-execution node has as input the last material, sample
   * or data column before it (none if there is none), and a process node owns,
   * in column order, the protocol-execution columns between the previous process
   * column and itself.
   */
  lemma InputsAndOwnedExecutions(p: Patterns, hs: seq<string>, k: nat)
    requires k < |hs| && k in Run(p, hs).graph.nodes && Run(p, hs).graph.nodes[k].IsProcessLike()
    ensures var n := Run(p, hs).graph.nodes[k];
            && n.inputs == InputsFrom(LastOfKinds(p, hs[..k], MaterialOrDataKinds))
            && (n.ProcessNode? ==>
                  n.protocolExecutions
                  == ColumnsOf(p, hs[..k], After(LastOfKinds(p, hs[..k], {ProcessColumn})), {ProtocolExecutionColumn}))
  {
    var n := Run(p, hs).graph.nodes[k];
    var pre := hs[..k];
    var c := Run(p, pre).cursors;
    var kind := Classify(p, hs[k]);
    assert kind in NodeKinds && Frame(n) == Frame(CreatedNode(kind, c, k, hs[k])) by {
      FrameAtCreation(p, hs);
    }
    assert CursorsAsRead(p, pre, c) by {
      CursorsFollowHeaders(p, pre);
    }
    CreatedProcessFields(kind, c, k, hs[k], n);
  }

  /** What a process-like node keeps from its creation: its inputs and owned executions come from the cursors. */
  lemma CreatedProcessFields(kind: ColumnKind, c: Cursors, k: nat, h: string, n: Node)
    requires kind in NodeKinds && n.IsProcessLike() && Frame(n) == Frame(CreatedNode(kind, c, k, h))
    ensures n.inputs == InputsFrom(c.lastMaterialOrData)
    ensures n.ProcessNode? ==> n.protocolExecutions == c.pending
  {
  }

  // ---------------------------------------------------------------------------
  // Output edges.

  /**
   * The node a column is linked to as an output. A data column goes to
   * `lastProcess` if set, otherwise to `lastProtocolExecutionNode`. A material
   * or sample column goes to `lastProcess` if set, otherwise to
   * `lastProtocolExecutionNode` but only when `lastMaterialOrData` is set.
   * Other columns link nothing.
   */
  function OutputTarget(k: ColumnKind, c: Cursors): Option<nat>
  {
    if k == DataColumn then
      (if c.lastProcess.Some? then c.lastProcess else c.lastProtocolExecution)
    else if k == MaterialColumn || k == SampleColumn then
      (if c.lastProcess.Some? then c.lastProcess
       else if c.lastMaterialOrData.Some? then c.lastProtocolExecution
       else None)
    else None
  }

  /** Every process-like node of `g` keeps its outputs in `g'`, except that `target` gains `n`. */
  ghost predicate OutputsGain(g: Graph, g': Graph, target: Option<nat>, n: nat)
  {
    forall j | j in g.nodes && g.nodes[j].IsProcessLike() ::
      j in g'.nodes && g'.nodes[j].IsProcessLike()
      && g'.nodes[j].outputs == g.nodes[j].outputs + (if target == Some(j) then [n] else [])
  }

  /**
   * One column adds at most one output edge, from `OutputTarget` to the new
   * column, and touches no other output list. Together with `StepCursors`
   * (a data column clears the cursor it used; a material column clears
   * `lastProcess` but never `lastProtocolExecutionNode`) this is the asymmetry
   * between the data and material branches.
   */
  lemma StepOutputs(p: Patterns, s: BuildState, n: nat, h: string)
    requires Consistent(s, n)
    ensures OutputsGain(s.graph, Step(p, s, n, h).graph, OutputTarget(Classify(p, h), s.cursors), n)
  {
    StepAsOutputs(Classify(p, h), s, n, h);
  }

  lemma StepAsOutputs(k: ColumnKind, s: BuildState, n: nat, h: string)
    requires Consistent(s, n)
    ensures OutputsGain(s.graph, StepAs(k, s, n, h).graph, OutputTarget(k, s.cursors), n)
  {
    match k
    case DataColumn => DataOutputs(s, n, h);
    case MaterialColumn => MaterialOutputs(s, n, MaterialNode(n, h, [], []));
    case SampleColumn => MaterialOutputs(s, n, SampleNode(n, h, [], [], []));
    case ProtocolExecutionColumn => assert n !in s.graph.nodes;
    case ProcessColumn => assert n !in s.graph.nodes;
    case DateColumn => ExecutionAnnotationOutputs(k, s, n, h);
    case PerformerColumn => ExecutionAnnotationOutputs(k, s, n, h);
    case ProcessParameterColumn => ExecutionAnnotationOutputs(k, s, n, h);
    case MaterialAttributeColumn => MaterialAnnotationOutputs(k, s, n, h);
    case FactorValueColumn => MaterialAnnotationOutputs(k, s, n, h);
    case UnitColumn => MaterialAnnotationOutputs(k, s, n, h);
    case CommentColumn => CommentOutputs(s, n, h);
    case Unrecognized =>
  }

  lemma DataOutputs(s: BuildState, n: nat, h: string)
    requires Consistent(s, n)
    ensures OutputsGain(s.graph, StepAs(DataColumn, s, n, h).graph, OutputTarget(DataColumn, s.cursors), n)
  {
    assert n !in s.graph.nodes;
    var g1 := AddNode(s.graph, DataNode(n, h, []));
    assert OutputsGain(s.graph, g1, None, n);
  }

  lemma MaterialOutputs(s: BuildState, n: nat, node: Node)
    requires Consistent(s, n)
    requires node.IsMaterial() && node.index == n
    ensures var c := s.cursors;
            OutputsGain(s.graph, MaterialStep(s, n, node).graph,
                        if c.lastProcess.Some? then c.lastProcess
                        else if c.lastMaterialOrData.Some? then c.lastProtocolExecution
                        else None, n)
  {
    assert n !in s.graph.nodes;
    MaterialGraphOutputs(s.graph, s.cursors, n, node);
  }

  lemma MaterialGraphOutputs(g: Graph, c: Cursors, n: nat, node: Node)
    requires node.index == n && n !in g.nodes
    requires c.lastProcess.Some? ==> ProcessLikeAt(g, c.lastProcess.value)
    requires c.lastProtocolExecution.Some? ==> ProcessLikeAt(g, c.lastProtocolExecution.value)
    ensures OutputsGain(g, MaterialStep(BuildState(g, c), n, node).graph,
                        if c.lastProcess.Some? then c.lastProcess
                        else if c.lastMaterialOrData.Some? then c.lastProtocolExecution
                        else None, n)
  {
    var early := c.lastMaterialOrData.Some? && c.lastProcess.None? && c.lastProtocolExecution.Some?;
    var t1 := if early then c.lastProtocolExecution else None;
    var g1 := if early then AddOutput(g, c.lastProtocolExecution.value, n) else g;
    var g2 := AddNode(g1, node);
    assert OutputsGain(g, g2, t1, n) by {
      assert OutputsGain(g, g1, t1, n);
      assert OutputsGain(g1, g2, None, n);
      OutputsGainCompose(g, g1, g2, t1, None, n);
    }
    var g3 := if c.lastProcess.Some? then AddOutput(g2, c.lastProcess.value, n) else g2;
    assert OutputsGain(g2, g3, c.lastProcess, n) by {
      if c.lastProcess.Some? {
        assert g1 == g;
      }
    }
    OutputsGainCompose(g, g2, g3, t1, c.lastProcess, n);
    assert MaterialStep(BuildState(g, c), n, node).graph == g3;
  }

  predicate ProcessLikeAt(g: Graph, q: nat)
  {
    q in g.nodes && g.nodes[q].IsProcessLike()
  }

  /** Two steps that each add at most one output edge, not both, add the one that was added. */
  lemma OutputsGainCompose(g: Graph, g': Graph, g'': Graph, t: Option<nat>, t': Option<nat>, n: nat)
    requires OutputsGain(g, g', t, n) && OutputsGain(g', g'', t', n)
    requires t.None? || t'.None?
    ensures OutputsGain(g, g'', if t.Some? then t else t', n)
  {
  }

  lemma ExecutionAnnotationOutputs(k: ColumnKind, s: BuildState, n: nat, h: string)
    requires k == DateColumn || k == PerformerColumn || k == ProcessParameterColumn
    ensures OutputsGain(s.graph, StepAs(k, s, n, h).graph, None, n)
  {
  }

  lemma MaterialAnnotationOutputs(k: ColumnKind, s: BuildState, n: nat, h: string)
    requires k == MaterialAttributeColumn || k == FactorValueColumn || k == UnitColumn
    ensures OutputsGain(s.graph, StepAs(k, s, n, h).graph, None, n)
  {
  }

  lemma CommentOutputs(s: BuildState, n: nat, h: string)
    ensures OutputsGain(s.graph, StepAs(CommentColumn, s, n, h).graph, None, n)
  {
    var c := s.cursors;
    var g1 := if c.lastProcess.Some? then AddComment(s.graph, c.lastProcess.value, Annotation(n, h)) else s.graph;
    assert OutputsGain(s.graph, g1, None, n);
  }

  /** `LastOfKinds` and `FirstOfKinds` agree on "nothing of those kinds after column `q`". */
  lemma NothingAfter(p: Patterns, hs: seq<string>, q: nat, ks: set<ColumnKind>)
    requires q < |hs| && Classify(p, hs[q]) in ks
    ensures FirstOfKinds(p, hs, q + 1, ks).None? <==> LastOfKinds(p, hs, ks) == Some(q)
  {
  }

  /** The first material, sample or data column after `q`, if no process column comes before it. */
  function NextOutputOf(p: Patterns, hs: seq<string>, q: nat): seq<nat>
  {
    match FirstOfKinds(p, hs, q + 1, ProcessOrMaterialOrDataKinds)
    case Some(j) => if Classify(p, hs[j]) in MaterialOrDataKinds then [j] else []
    case None => []
  }

  /**
   * A process column gets exactly one output: the first material, sample or data
   * column after it, provided no other process column comes first; otherwise it
   * gets none. In particular a second material or data column is never linked
   * to the same process.
   */
  lemma {:induction false} ProcessOutputs(p: Patterns, hs: seq<string>, q: nat)
    requires q < |hs| && Classify(p, hs[q]) == ProcessColumn
    ensures q in Run(p, hs).graph.nodes && Run(p, hs).graph.nodes[q].ProcessNode?
    ensures Run(p, hs).graph.nodes[q].outputs == NextOutputOf(p, hs, q)
    decreases |hs|
  {
    var n := |hs| - 1;
    var prev := hs[..n];
    if n == q {
      assert FirstOfKinds(p, hs, q + 1, ProcessOrMaterialOrDataKinds).None?;
    } else {
      assert prev[q] == hs[q];
      ProcessOutputs(p, prev, q);
      ProcessOutputsStep(p, hs, prev, n, q);
    }
  }

  /**
   * A process node kept by a step, read through the step's frame and output
   * facts alone; the last protocol execution is never that node.
   */
  lemma ProcessNodeKept(p: Patterns, s: BuildState, g': Graph, n: nat, h: string, q: nat)
    requires Consistent(s, n)
    requires KeepsFrames(s.graph, g') && OutputsGain(s.graph, g', OutputTarget(Classify(p, h), s.cursors), n)
    requires q in s.graph.nodes && s.graph.nodes[q].ProcessNode?
    ensures q in g'.nodes && g'.nodes[q].ProcessNode?
    ensures g'.nodes[q].outputs
            == s.graph.nodes[q].outputs + (if OutputTarget(Classify(p, h), s.cursors) == Some(q) then [n] else [])
    ensures s.cursors.lastProtocolExecution != Some(q)
  {
    assert Frame(g'.nodes[q]) == Frame(s.graph.nodes[q]);
  }

  /** A process column keeps its node, and gains an output from the last column exactly when `NextOutputOf` grows. */
  lemma ProcessOutputsStep(p: Patterns, hs: seq<string>, prev: seq<string>, n: nat, q: nat)
    requires q < n && |hs| == n + 1 && prev == hs[..n] && Classify(p, hs[q]) == ProcessColumn
    requires q in Run(p, prev).graph.nodes && Run(p, prev).graph.nodes[q].ProcessNode?
    requires Run(p, prev).graph.nodes[q].outputs == NextOutputOf(p, prev, q)
    ensures q in Run(p, hs).graph.nodes && Run(p, hs).graph.nodes[q].ProcessNode?
    ensures Run(p, hs).graph.nodes[q].outputs == NextOutputOf(p, hs, q)
  {
    var s := Run(p, prev);
    var s' := Step(p, s, n, hs[n]);
    assert Run(p, hs) == s';
    RunConsistent(p, prev);
    StepOutputs(p, s, n, hs[n]);
    StepFrame(p, s, n, hs[n]);
    ProcessNodeKept(p, s, s'.graph, n, hs[n], q);
    CursorsFollowHeaders(p, prev);
    NextOutputStep(p, hs, prev, n, q, s.cursors);
  }

  /**
   * `NextOutputOf` grows by the last column exactly when that column's output
   * target, under the cursors read off the columns before it, is `q`.
   */
  lemma NextOutputStep(p: Patterns, hs: seq<string>, prev: seq<string>, n: nat, q: nat, c: Cursors)
    requires q < n && |hs| == n + 1 && prev == hs[..n] && Classify(p, hs[q]) == ProcessColumn
    requires CursorsAsRead(p, prev, c) && c.lastProtocolExecution != Some(q)
    ensures NextOutputOf(p, hs, q) == NextOutputOf(p, prev, q) + (if OutputTarget(Classify(p, hs[n]), c) == Some(q) then [n] else [])
  {
    assert prev[q] == hs[q];
    NothingAfter(p, prev, q, ProcessOrMaterialOrDataKinds);
    if FirstOfKinds(p, prev, q + 1, ProcessOrMaterialOrDataKinds).Some? {
      NextOutputAlreadyFound(p, hs, prev, n, q, c);
    } else {
      NextOutputIsLast(p, hs, prev, n, q, c);
    }
  }

  /** Once a process, material or data column follows `q`, later columns do not change its output. */
  lemma NextOutputAlreadyFound(p: Patterns, hs: seq<string>, prev: seq<string>, n: nat, q: nat, c: Cursors)
    requires q < n && |hs| == n + 1 && prev == hs[..n]
    requires FirstOfKinds(p, prev, q + 1, ProcessOrMaterialOrDataKinds).Some?
    requires c.lastProcess != Some(q) && c.lastProtocolExecution != Some(q)
    ensures NextOutputOf(p, hs, q) == NextOutputOf(p, prev, q) && OutputTarget(Classify(p, hs[n]), c) != Some(q)
  {
    var first := FirstOfKinds(p, prev, q + 1, ProcessOrMaterialOrDataKinds);
    assert prev[first.value] == hs[first.value];
    assert FirstOfKinds(p, hs, q + 1, ProcessOrMaterialOrDataKinds) == first;
  }

  /** While nothing has followed `q`, its output is the last column if that is a material or data column. */
  lemma NextOutputIsLast(p: Patterns, hs: seq<string>, prev: seq<string>, n: nat, q: nat, c: Cursors)
    requires q < n && |hs| == n + 1 && prev == hs[..n]
    requires FirstOfKinds(p, prev, q + 1, ProcessOrMaterialOrDataKinds).None?
    requires c.lastProcess == Some(q)
    ensures NextOutputOf(p, hs, q) == NextOutputOf(p, prev, q) + (if OutputTarget(Classify(p, hs[n]), c) == Some(q) then [n] else [])
  {
  }
}
