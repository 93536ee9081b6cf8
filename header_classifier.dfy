/**
 * The header classifier of `GraphParser.createGraph`: the chain of `matches` /
 * `contains` tests that decides what a column of the header row stands for.
 *
 * The regular expressions of the node classes are not part of this model, so
 * every pattern is a parameter (a `string -> bool`). The data-node test is the
 * one concrete test: the header contains a marker string (`ISADataNode.CONTAINS`).
 */
module HeaderClassifier {
  import opened Wrappers
  import opened JavaText

  /** The patterns the classifier tests, one per node class, and the data-node marker. */
  datatype Patterns = Patterns(
    date: string -> bool,                // Date.REGEXP
    performer: string -> bool,           // Performer.REGEXP
    protocolExecution: string -> bool,   // ProtocolExecutionNode.REGEXP
    process: string -> bool,             // ProcessNode.REGEXP
    dataMarker: string,                  // ISADataNode.CONTAINS
    materialAttribute: string -> bool,   // ISAMaterialAttribute.REGEXP
    material: string -> bool,            // MaterialNode.REGEXP
    sample: string -> bool,              // ISASampleNode.REGEXP (tested only once material matched)
    factorValue: string -> bool,         // ISAFactorValue.REGEXP
    unit: string -> bool,                // ISAUnit.REGEXP
    processParameter: string -> bool,    // ProcessParameter.REGEXP
    comment: string -> bool              // CommentNode.REGEXP
  )

  /** What a header column stands for. */
  datatype ColumnKind =
    | DateColumn
    | PerformerColumn
    | ProtocolExecutionColumn
    | ProcessColumn
    | DataColumn
    | MaterialAttributeColumn
    | MaterialColumn
    | SampleColumn
    | FactorValueColumn
    | UnitColumn
    | ProcessParameterColumn
    | CommentColumn
    | Unrecognized

  /** The kinds of column that create a node of the graph. */
  predicate CreatesNode(k: ColumnKind)
  {
    k in {ProtocolExecutionColumn, ProcessColumn, DataColumn, MaterialColumn, SampleColumn}
  }

  /** The kinds of column that create a material or data node (the `lastMaterialOrData` kinds). */
  predicate IsMaterialOrData(k: ColumnKind)
  {
    k in {DataColumn, MaterialColumn, SampleColumn}
  }

  /** The classification chain of `createGraph`, tested in its fixed order; the first test that holds wins. */
  function Classify(p: Patterns, h: string): ColumnKind
  {
    if p.date(h) then DateColumn
    else if p.performer(h) then PerformerColumn
    else if p.protocolExecution(h) then ProtocolExecutionColumn
    else if p.process(h) then ProcessColumn
    else if Contains(h, p.dataMarker) then DataColumn
    else if p.materialAttribute(h) then MaterialAttributeColumn
    else if p.material(h) then (if p.sample(h) then SampleColumn else MaterialColumn)
    else if p.factorValue(h) then FactorValueColumn
    else if p.unit(h) then UnitColumn
    else if p.processParameter(h) then ProcessParameterColumn
    else if p.comment(h) then CommentColumn
    else Unrecognized
  }

  // ---------------------------------------------------------------------------
  // An independent reading of the classifier: a priority list of rules and a
  // first-match search over it.

  /** One test of the chain. */
  datatype Rule =
    | DateRule | PerformerRule | ProtocolExecutionRule | ProcessRule | DataRule
    | MaterialAttributeRule | MaterialRule | FactorValueRule | UnitRule
    | ProcessParameterRule | CommentRule

  /** The order in which the rules are tried. */
  const Priority: seq<Rule> := [
    DateRule, PerformerRule, ProtocolExecutionRule, ProcessRule, DataRule,
    MaterialAttributeRule, MaterialRule, FactorValueRule, UnitRule,
    ProcessParameterRule, CommentRule
  ]

  /** Whether rule `r`, taken on its own, accepts header `h`. */
  predicate Fires(p: Patterns, r: Rule, h: string)
  {
    match r
    case DateRule => p.date(h)
    case PerformerRule => p.performer(h)
    case ProtocolExecutionRule => p.protocolExecution(h)
    case ProcessRule => p.process(h)
    case DataRule => Contains(h, p.dataMarker)
    case MaterialAttributeRule => p.materialAttribute(h)
    case MaterialRule => p.material(h)
    case FactorValueRule => p.factorValue(h)
    case UnitRule => p.unit(h)
    case ProcessParameterRule => p.processParameter(h)
    case CommentRule => p.comment(h)
  }

  /** The kind a rule assigns; the material rule refines to a sample when the sample pattern also matches. */
  function KindOfRule(p: Patterns, r: Rule, h: string): ColumnKind
  {
    match r
    case DateRule => DateColumn
    case PerformerRule => PerformerColumn
    case ProtocolExecutionRule => ProtocolExecutionColumn
    case ProcessRule => ProcessColumn
    case DataRule => DataColumn
    case MaterialAttributeRule => MaterialAttributeColumn
    case MaterialRule => if p.sample(h) then SampleColumn else MaterialColumn
    case FactorValueRule => FactorValueColumn
    case UnitRule => UnitColumn
    case ProcessParameterRule => ProcessParameterColumn
    case CommentRule => CommentColumn
  }

  /** The position in `rules` of the first rule that fires on `h`, if any. */
  function FirstFiring(p: Patterns, rules: seq<Rule>, h: string): (r: Option<nat>)
    ensures r.Some? ==> r.value < |rules| && Fires(p, rules[r.value], h)
    ensures r.Some? ==> forall j | 0 <= j < r.value :: !Fires(p, rules[j], h)
    ensures r.None? ==> forall j | 0 <= j < |rules| :: !Fires(p, rules[j], h)
  {
    FirstFiringFromIsFirst(p, rules, h, 0);
    FirstFiringFrom(p, rules, h, 0)
  }

  /** The search from position `i` on. */
  function FirstFiringFrom(p: Patterns, rules: seq<Rule>, h: string, i: nat): Option<nat>
    requires i <= |rules|
    decreases |rules| - i
  {
    if i == |rules| then None
    else if Fires(p, rules[i], h) then Some(i)
    else FirstFiringFrom(p, rules, h, i + 1)
  }

  /** The search from `i` finds the first rule at or after `i` that fires, or reports that none does. */
  lemma {:induction false} FirstFiringFromIsFirst(p: Patterns, rules: seq<Rule>, h: string, i: nat)
    requires i <= |rules|
    ensures var r := FirstFiringFrom(p, rules, h, i);
            && (r.Some? ==> i <= r.value < |rules| && Fires(p, rules[r.value], h))
            && (r.Some? ==> forall j | i <= j < r.value :: !Fires(p, rules[j], h))
            && (r.None? ==> forall j | i <= j < |rules| :: !Fires(p, rules[j], h))
    decreases |rules| - i
  {
    if i < |rules| && !Fires(p, rules[i], h) {
      FirstFiringFromIsFirst(p, rules, h, i + 1);
    }
  }

  /** The rules of `Priority`, position by position. */
  lemma PriorityElements()
    ensures |Priority| == 11
    ensures Priority[0] == DateRule && Priority[1] == PerformerRule && Priority[2] == ProtocolExecutionRule
    ensures Priority[3] == ProcessRule && Priority[4] == DataRule && Priority[5] == MaterialAttributeRule
    ensures Priority[6] == MaterialRule && Priority[7] == FactorValueRule && Priority[8] == UnitRule
    ensures Priority[9] == ProcessParameterRule && Priority[10] == CommentRule
  {
  }

  /** One step of the search over `Priority`: rule `i` is `r`, and the search stops there exactly when `r` fires. */
  lemma PriorityStep(p: Patterns, h: string, i: nat, r: Rule)
    requires i < |Priority| && Priority[i] == r
    ensures Fires(p, r, h) ==> FirstFiringFrom(p, Priority, h, i) == Some(i)
    ensures !Fires(p, r, h) ==> FirstFiringFrom(p, Priority, h, i) == FirstFiringFrom(p, Priority, h, i + 1)
  {
  }

  /**
   * The if-chain is exactly "the first rule of `Priority` that fires decides",
   * so a header is classified by the earliest pattern it satisfies.
   */
  lemma ClassifyIsFirstMatch(p: Patterns, h: string)
    ensures Classify(p, h) == match FirstFiring(p, Priority, h)
                              case None => Unrecognized
                              case Some(k) => KindOfRule(p, Priority[k], h)
  {
    PriorityElements();
    PriorityStep(p, h, 0, DateRule);
    if p.date(h) { return; }
    PriorityStep(p, h, 1, PerformerRule);
    if p.performer(h) { return; }
    PriorityStep(p, h, 2, ProtocolExecutionRule);
    if p.protocolExecution(h) { return; }
    PriorityStep(p, h, 3, ProcessRule);
    if p.process(h) { return; }
    PriorityStep(p, h, 4, DataRule);
    if Contains(h, p.dataMarker) { return; }
    PriorityStep(p, h, 5, MaterialAttributeRule);
    if p.materialAttribute(h) { return; }
    PriorityStep(p, h, 6, MaterialRule);
    if p.material(h) { return; }
    PriorityStep(p, h, 7, FactorValueRule);
    if p.factorValue(h) { return; }
    PriorityStep(p, h, 8, UnitRule);
    if p.unit(h) { return; }
    PriorityStep(p, h, 9, ProcessParameterRule);
    if p.processParameter(h) { return; }
    PriorityStep(p, h, 10, CommentRule);
    if p.comment(h) { return; }
    assert FirstFiringFrom(p, Priority, h, 11) == None;
  }

  /**
   * The data-marker substring test comes before the material, material-attribute
   * and later tests: a header that contains the marker and matches none of the
   * first four patterns is a data column whatever else it matches.
   */
  lemma DataMarkerBeforeMaterial(p: Patterns, h: string)
    requires !p.date(h) && !p.performer(h) && !p.protocolExecution(h) && !p.process(h)
    requires Contains(h, p.dataMarker)
    ensures Classify(p, h) == DataColumn
  {
  }

  /** A sample column is a header the material pattern accepts and the sample pattern refines. */
  lemma SampleRefinesMaterial(p: Patterns, h: string)
    ensures Classify(p, h) == SampleColumn <==>
              FirstFiring(p, Priority, h) == Some(6) && p.sample(h)
  {
    ClassifyIsFirstMatch(p, h);
  }
}
