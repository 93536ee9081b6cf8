/**
 * How `createGraph` attaches the annotation columns (date, performer, material
 * attribute, factor value, unit, parameter, comment) to the nodes its cursors
 * point at, stated about one `GraphBuilder.Step` from a state that satisfies
 * the cursor invariant `Consistent` (which every state of the pass satisfies,
 * lemma `GraphBuilderProperties.RunConsistent`).
 */
module GraphAnnotations {
  import opened Wrappers
  import opened HeaderClassifier
  import opened GraphModel
  import opened GraphBuilder
  import opened GraphBuilderProperties

  /** The kinds of column that annotate an existing node instead of creating one. */
  const AnnotationKinds := {DateColumn, PerformerColumn, MaterialAttributeColumn, FactorValueColumn,
                            UnitColumn, ProcessParameterColumn, CommentColumn}

  /**
   * The nodes an annotation header is attached to: the last protocol execution
   * for a date, performer or parameter; the last material or data node, when it
   * is a material, for a material attribute; the last sample for a factor value;
   * the sample holding the last factor value for a unit; and both the last
   * process and the last material or data node for a comment.
   */
  function AnnotationTargets(p: Patterns, g: Graph, c: Cursors, h: string): set<nat>
  {
    match Classify(p, h)
    case DateColumn => OptionSet(c.lastProtocolExecution)
    case PerformerColumn => OptionSet(c.lastProtocolExecution)
    case ProcessParameterColumn => OptionSet(c.lastProtocolExecution)
    case MaterialAttributeColumn =>
      if c.lastMaterialOrData.Some? && c.lastMaterialOrData.value in g.nodes
         && g.nodes[c.lastMaterialOrData.value].IsMaterial()
      then {c.lastMaterialOrData.value} else {}
    case FactorValueColumn => OptionSet(c.lastSample)
    case UnitColumn => if c.lastFactorValue.Some? then OptionSet(c.lastFactorValue.value.owner) else {}
    case CommentColumn => OptionSet(c.lastProcess) + OptionSet(c.lastMaterialOrData)
    case _ => {}
  }

  function OptionSet(o: Option<nat>): (r: set<nat>)
    ensures o.None? <==> r == {}
    ensures forall j :: j in r <==> o == Some(j)
  {
    if o.Some? then {o.value} else {}
  }

  /**
   * An annotation column changes no node but its targets, creates no node, and
   * moves no cursor except `lastFactorValue`, which a factor-value column sets
   * to itself and the last sample. With no target it is dropped: the graph is
   * left as it was.
   */
  lemma AnnotationChangesOnlyTargets(p: Patterns, s: BuildState, n: nat, h: string)
    requires Consistent(s, n)
    requires Classify(p, h) in AnnotationKinds
    ensures var s' := Step(p, s, n, h);
            var targets := AnnotationTargets(p, s.graph, s.cursors, h);
            && s'.graph.order == s.graph.order && s'.graph.nodes.Keys == s.graph.nodes.Keys
            && (forall j | j in s.graph.nodes && j !in targets :: s'.graph.nodes[j] == s.graph.nodes[j])
            && (targets == {} ==> s'.graph == s.graph)
            && s'.cursors == if Classify(p, h) == FactorValueColumn
                             then s.cursors.(lastFactorValue := Some(FactorCursor(n, s.cursors.lastSample)))
                             else s.cursors
  {
    var g := s.graph;
    var c := s.cursors;
    var a := Annotation(n, h);
    if Classify(p, h) == CommentColumn && c.lastProcess.Some? && c.lastMaterialOrData.Some? {
      var g1 := AddComment(g, c.lastProcess.value, a);
      assert AddComment(g1, c.lastMaterialOrData.value, a).nodes.Keys == g.nodes.Keys;
    }
  }

  /**
   * A date, performer or parameter column is appended to the matching list of
   * the last protocol execution, and nothing else of that node changes.
   */
  lemma ExecutionAnnotationAttached(p: Patterns, s: BuildState, n: nat, h: string)
    requires Consistent(s, n)
    requires Classify(p, h) in {DateColumn, PerformerColumn, ProcessParameterColumn}
    requires s.cursors.lastProtocolExecution.Some?
    ensures var e := s.cursors.lastProtocolExecution.value;
            var node := s.graph.nodes[e];
            var a := Annotation(n, h);
            var node' := Step(p, s, n, h).graph.nodes[e];
            && (Classify(p, h) == DateColumn ==> node' == node.(dates := node.dates + [a]))
            && (Classify(p, h) == PerformerColumn ==> node' == node.(performers := node.performers + [a]))
            && (Classify(p, h) == ProcessParameterColumn ==> node' == node.(parameters := node.parameters + [a]))
  {
  }

  /**
   * A material-attribute column is attached exactly when the last material or
   * data node is a material (or sample) node, and then only that node's
   * attributes change; after a data node it is dropped.
   */
  lemma MaterialAttributeAttached(p: Patterns, s: BuildState, n: nat, h: string)
    requires Consistent(s, n)
    requires Classify(p, h) == MaterialAttributeColumn
    ensures var m := s.cursors.lastMaterialOrData;
            var g' := Step(p, s, n, h).graph;
            && (g' != s.graph <==> m.Some? && s.graph.nodes[m.value].IsMaterial())
            && (m.Some? && s.graph.nodes[m.value].IsMaterial() ==>
                  var node := s.graph.nodes[m.value];
                  g'.nodes[m.value] == node.(attributes := node.attributes + [Annotation(n, h)]))
  {
    var m := s.cursors.lastMaterialOrData;
    if m.Some? && s.graph.nodes[m.value].IsMaterial() {
      var g' := Step(p, s, n, h).graph;
      assert |g'.nodes[m.value].attributes| != |s.graph.nodes[m.value].attributes|;
    }
  }

  /**
   * A factor-value column is appended, with no unit yet, to the factor values of
   * the last sample, whose other fields stay; with no sample before it, it is
   * dropped but still becomes
   * `lastFactorValue` (owned by nobody).
   */
  lemma FactorValueAttached(p: Patterns, s: BuildState, n: nat, h: string)
    requires Consistent(s, n)
    requires Classify(p, h) == FactorValueColumn
    ensures var s' := Step(p, s, n, h);
            var o := s.cursors.lastSample;
            && s'.cursors.lastFactorValue == Some(FactorCursor(n, o))
            && (o.Some? ==>
                  var node := s.graph.nodes[o.value];
                  s'.graph.nodes[o.value] == node.(factorValues := node.factorValues + [FactorValue(n, h, None)]))
            && (o.None? ==> s'.graph == s.graph)
  {
  }

  /**
   * A unit column sets the unit of the last factor value, inside the sample
   * that holds it, replacing any unit set before; every other factor value of
   * that sample, and all its other fields, are untouched. With no factor value, or one no sample holds, the
   * unit is dropped.
   */
  lemma UnitOverwrites(p: Patterns, s: BuildState, n: nat, h: string)
    requires Consistent(s, n)
    requires Classify(p, h) == UnitColumn
    ensures var s' := Step(p, s, n, h);
            var fv := s.cursors.lastFactorValue;
            && (fv.Some? && fv.value.owner.Some? ==>
                  var node := s.graph.nodes[fv.value.owner.value];
                  var fvs := node.factorValues;
                  var fvs' := s'.graph.nodes[fv.value.owner.value].factorValues;
                  && s'.graph.nodes[fv.value.owner.value] == node.(factorValues := fvs')
                  && |fvs'| == |fvs|
                  && forall i | 0 <= i < |fvs| ::
                       fvs'[i] == if fvs[i].index == fv.value.index then fvs[i].(unit := Some(Annotation(n, h)))
                                  else fvs[i])
            && (!(fv.Some? && fv.value.owner.Some?) ==> s' == s)
  {
  }

  /** Setting a unit twice on the same factor value leaves only the later one. */
  lemma {:induction false} LaterUnitWins(fvs: seq<FactorValue>, f: nat, u: Annotation, u': Annotation)
    ensures WithUnit(WithUnit(fvs, f, u), f, u') == WithUnit(fvs, f, u')
    decreases |fvs|
  {
    if fvs != [] {
      LaterUnitWins(fvs[1..], f, u, u');
      assert WithUnit(fvs, f, u)[1..] == WithUnit(fvs[1..], f, u);
    }
  }

  /**
   * Two unit columns in a row: the factor value they follow ends with the
   * second, and the graph is as if the first had been absent.
   */
  lemma SecondUnitWins(p: Patterns, s: BuildState, n: nat, h: string, h': string)
    requires Consistent(s, n)
    requires Classify(p, h) == UnitColumn && Classify(p, h') == UnitColumn
    ensures Step(p, Step(p, s, n, h), n + 1, h').graph == Step(p, s, n + 1, h').graph
  {
    var c := s.cursors;
    if c.lastFactorValue.Some? && c.lastFactorValue.value.owner.Some? {
      var o := c.lastFactorValue.value.owner.value;
      var f := c.lastFactorValue.value.index;
      LaterUnitWins(s.graph.nodes[o].factorValues, f, Annotation(n, h), Annotation(n + 1, h'));
      var g1 := SetUnit(s.graph, o, f, Annotation(n, h));
      assert SetUnit(g1, o, f, Annotation(n + 1, h')).nodes == SetUnit(s.graph, o, f, Annotation(n + 1, h')).nodes;
    }
  }

  /**
   * A comment column is appended to the comments of the last process and of
   * the last material or data node, each when set, changes nothing else of
   * either node, and clears neither cursor.
   */
  lemma CommentAttachedToBoth(p: Patterns, s: BuildState, n: nat, h: string)
    requires Consistent(s, n)
    requires Classify(p, h) == CommentColumn
    ensures var s' := Step(p, s, n, h);
            var c := s.cursors;
            && s'.cursors == c
            && (c.lastProcess.Some? ==>
                  s'.graph.nodes[c.lastProcess.value] == WithComment(s.graph.nodes[c.lastProcess.value], Annotation(n, h)))
            && (c.lastMaterialOrData.Some? ==>
                  s'.graph.nodes[c.lastMaterialOrData.value] == WithComment(s.graph.nodes[c.lastMaterialOrData.value], Annotation(n, h)))
  {
    var c := s.cursors;
    if c.lastProcess.Some? && c.lastMaterialOrData.Some? {
      assert c.lastProcess.value != c.lastMaterialOrData.value;
    }
  }

  /**
   * An unrecognised header changes neither the graph nor any cursor, so a
   * header row with one appended changes nothing either.
   */
  lemma UnrecognizedIgnored(p: Patterns, hs: seq<string>, h: string)
    requires Classify(p, h) == Unrecognized
    ensures Run(p, hs + [h]) == Run(p, hs)
  {
    assert (hs + [h])[..|hs|] == hs;
  }
}
