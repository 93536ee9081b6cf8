/**
 * The histogram extractors of `GraphParser`: `extractNodes` (and through it
 * `extractProcesses` and `extractDataNodes`) and `extractMaterialAttributes`.
 *
 * Each walks the graph's nodes (or their material attributes) and, for every
 * data row long enough, counts the non-null, non-empty value found in that
 * node's column. The counted values are specified as multisets, and a histogram
 * is the map from each value to its multiplicity; the methods are proved to
 * return exactly that, and lemmas relate the multiplicities to an independent
 * count of table rows.
 */
module Aggregation {
  import opened Wrappers
  import opened AssayTable
  import opened GraphModel

  // ---------------------------------------------------------------------------
  // Specification

  /** The values counted in column `k` over `rows`, one per row. */
  function ColumnValues(rows: seq<Row>, k: nat): (r: multiset<string>)
    ensures "" !in r
    ensures |r| <= |rows|
    decreases |rows|
  {
    if rows == [] then multiset{}
    else
      var last := CountedCell(rows[|rows| - 1], k);
      ColumnValues(rows[..|rows| - 1], k) + if last.Some? then multiset{last.value} else multiset{}
  }

  /** The values counted in each of the columns `ks` in turn. */
  function ValuesOf(ks: seq<nat>, rows: seq<Row>): (r: multiset<string>)
    ensures "" !in r
    decreases |ks|
  {
    if ks == [] then multiset{}
    else ValuesOf(ks[..|ks| - 1], rows) + ColumnValues(rows, ks[|ks| - 1])
  }

  /** A multiset as the `HashMap<String, Integer>` of counts the Java code builds. */
  function Histogram(ms: multiset<string>): map<string, nat>
  {
    map v | v in ms :: ms[v]
  }

  /** The column indices of `nodes`. */
  function Indices(nodes: seq<Node>): (r: seq<nat>)
    ensures |r| == |nodes|
    ensures forall i | 0 <= i < |nodes| :: r[i] == nodes[i].index
  {
    if nodes == [] then [] else Indices(nodes[..|nodes| - 1]) + [nodes[|nodes| - 1].index]
  }

  /** What `extractNodes(type)` returns for the graph `g` and the data rows `rows`. */
  function NodeHistogram(g: Graph, rows: seq<Row>, t: NodeType): map<string, nat>
  {
    Histogram(ValuesOf(Indices(GetNodes(g, t)), rows))
  }

  // ---------------------------------------------------------------------------
  // An independent count: the rows holding `v` in column `k`

  /** The data rows whose cell in column `k` is the string `v`. */
  function RowsWith(rows: seq<Row>, k: nat, v: string): (r: set<nat>)
    ensures forall i | i in r :: i < |rows|
  {
    set i | 0 <= i < |rows| && k < |rows[i]| && rows[i][k] == Some(v)
  }

  /** How often `v` occurs in the columns `ks`, summed over the columns. */
  function Occurrences(ks: seq<nat>, rows: seq<Row>, v: string): nat
    decreases |ks|
  {
    if ks == [] then 0 else Occurrences(ks[..|ks| - 1], rows, v) + |RowsWith(rows, ks[|ks| - 1], v)|
  }

  /** The multiplicity of a non-empty value in one column is the number of rows holding it there. */
  lemma {:induction false} ColumnValuesCount(rows: seq<Row>, k: nat, v: string)
    requires v != ""
    ensures ColumnValues(rows, k)[v] == |RowsWith(rows, k, v)|
    decreases |rows|
  {
    if rows != [] {
      var n := |rows| - 1;
      ColumnValuesCount(rows[..n], k, v);
      var before := RowsWith(rows[..n], k, v);
      var cell := CountedCell(rows[n], k);
      if cell == Some(v) {
        assert RowsWith(rows, k, v) == before + {n};
        assert n !in before;
      } else {
        assert RowsWith(rows, k, v) == before;
      }
    }
  }

  /** The multiplicity of a non-empty value over several columns is its number of occurrences there. */
  lemma {:induction false} ValuesOfCount(ks: seq<nat>, rows: seq<Row>, v: string)
    requires v != ""
    ensures ValuesOf(ks, rows)[v] == Occurrences(ks, rows, v)
    decreases |ks|
  {
    if ks != [] {
      ValuesOfCount(ks[..|ks| - 1], rows, v);
      ColumnValuesCount(rows, ks[|ks| - 1], v);
    }
  }

  /** A value has a positive number of occurrences exactly when some row holds it in one of the columns. */
  lemma {:induction false} OccurrencesPositive(ks: seq<nat>, rows: seq<Row>, v: string)
    ensures Occurrences(ks, rows, v) > 0 <==>
              exists i, j | 0 <= i < |ks| && 0 <= j < |rows| :: ks[i] < |rows[j]| && rows[j][ks[i]] == Some(v)
    decreases |ks|
  {
    if ks != [] {
      var n := |ks| - 1;
      OccurrencesPositive(ks[..n], rows, v);
      if |RowsWith(rows, ks[n], v)| > 0 {
        var j :| j in RowsWith(rows, ks[n], v);
        assert ks[n] < |rows[j]| && rows[j][ks[n]] == Some(v);
      }
      if exists i, j | 0 <= i < |ks| && 0 <= j < |rows| :: ks[i] < |rows[j]| && rows[j][ks[i]] == Some(v) {
        var i, j :| 0 <= i < |ks| && 0 <= j < |rows| && ks[i] < |rows[j]| && rows[j][ks[i]] == Some(v);
        if i == n {
          assert j in RowsWith(rows, ks[n], v);
        } else {
          assert ks[..n][i] == ks[i];
        }
      }
    }
  }

  /**
   * `extractNodes(type)` counts exactly the non-empty strings found in the
   * column of some node of that type, each as often as it occurs there.
   */
  lemma NodeHistogramCounts(g: Graph, rows: seq<Row>, t: NodeType, v: string)
    ensures v in NodeHistogram(g, rows, t) <==>
              v != "" && exists n, j | n in GetNodes(g, t) && 0 <= j < |rows| ::
                n.index < |rows[j]| && rows[j][n.index] == Some(v)
    ensures v in NodeHistogram(g, rows, t) ==> NodeHistogram(g, rows, t)[v] == Occurrences(Indices(GetNodes(g, t)), rows, v)
  {
    var ns := GetNodes(g, t);
    var ks := Indices(ns);
    var ms := ValuesOf(ks, rows);
    assert v in NodeHistogram(g, rows, t) <==> v in ms;
    if v != "" {
      ValuesOfCount(ks, rows, v);
      OccurrencesPositive(ks, rows, v);
      NodeColumnsHolding(ns, rows, v);
    }
  }

  /** Some node's column holds `v` in some row exactly when some column of `Indices(ns)` does. */
  lemma NodeColumnsHolding(ns: seq<Node>, rows: seq<Row>, v: string)
    ensures (exists n, j | n in ns && 0 <= j < |rows| :: n.index < |rows[j]| && rows[j][n.index] == Some(v)) <==>
            (exists i, j | 0 <= i < |Indices(ns)| && 0 <= j < |rows| ::
               Indices(ns)[i] < |rows[j]| && rows[j][Indices(ns)[i]] == Some(v))
  {
    if exists n, j | n in ns && 0 <= j < |rows| :: n.index < |rows[j]| && rows[j][n.index] == Some(v) {
      NodeColumnHolds(ns, rows, v);
    }
    if exists i, j | 0 <= i < |Indices(ns)| && 0 <= j < |rows| ::
         Indices(ns)[i] < |rows[j]| && rows[j][Indices(ns)[i]] == Some(v) {
      ColumnNodeHolds(ns, rows, v);
    }
  }

  lemma NodeColumnHolds(ns: seq<Node>, rows: seq<Row>, v: string)
    requires exists n, j | n in ns && 0 <= j < |rows| :: n.index < |rows[j]| && rows[j][n.index] == Some(v)
    ensures exists i, j | 0 <= i < |Indices(ns)| && 0 <= j < |rows| ::
              Indices(ns)[i] < |rows[j]| && rows[j][Indices(ns)[i]] == Some(v)
  {
    var n, j :| n in ns && 0 <= j < |rows| && n.index < |rows[j]| && rows[j][n.index] == Some(v);
    var i :| 0 <= i < |ns| && ns[i] == n;
    var ks := Indices(ns);
    assert ks[i] == n.index;
    assert 0 <= i < |ks| && ks[i] < |rows[j]| && rows[j][ks[i]] == Some(v);
  }

  lemma ColumnNodeHolds(ns: seq<Node>, rows: seq<Row>, v: string)
    requires exists i, j | 0 <= i < |Indices(ns)| && 0 <= j < |rows| ::
               Indices(ns)[i] < |rows[j]| && rows[j][Indices(ns)[i]] == Some(v)
    ensures exists n, j | n in ns && 0 <= j < |rows| :: n.index < |rows[j]| && rows[j][n.index] == Some(v)
  {
    var ks := Indices(ns);
    var i, j :| 0 <= i < |ks| && 0 <= j < |rows| && ks[i] < |rows[j]| && rows[j][ks[i]] == Some(v);
    var n := ns[i];
    assert n in ns && n.index == ks[i];
    assert n.index < |rows[j]| && rows[j][n.index] == Some(v);
  }

  // ---------------------------------------------------------------------------
  // The counts add up to the number of counted cells

  /** The data rows whose cell in column `k` is counted (present, non-null and non-empty). */
  function CountedRows(rows: seq<Row>, k: nat): (r: set<nat>)
    ensures forall i | i in r :: i < |rows|
  {
    set i | 0 <= i < |rows| && CountedCell(rows[i], k).Some?
  }

  /** The number of counted cells in the columns `ks`, column by column. */
  function CountedCells(ks: seq<nat>, rows: seq<Row>): nat
    decreases |ks|
  {
    if ks == [] then 0 else CountedCells(ks[..|ks| - 1], rows) + |CountedRows(rows, ks[|ks| - 1])|
  }

  /** The sum of the counts of a histogram. */
  ghost function Total(h: map<string, nat>): nat
    decreases |h.Keys|
  {
    if h.Keys == {} then 0
    else
      var v :| v in h.Keys;
      h[v] + Total(h - {v})
  }

  /** Column `k` contributes one value per counted cell. */
  lemma {:induction false} ColumnValuesSize(rows: seq<Row>, k: nat)
    ensures |ColumnValues(rows, k)| == |CountedRows(rows, k)|
    decreases |rows|
  {
    if rows != [] {
      var n := |rows| - 1;
      ColumnValuesSize(rows[..n], k);
      CountedRowsStep(rows, k);
    }
  }

  lemma CountedRowsStep(rows: seq<Row>, k: nat)
    requires rows != []
    ensures var n := |rows| - 1;
            CountedRows(rows, k) == CountedRows(rows[..n], k) + if CountedCell(rows[n], k).Some? then {n} else {}
  {
    var n := |rows| - 1;
    forall i | 0 <= i < n ensures rows[..n][i] == rows[i] { }
  }

  lemma {:induction false} ValuesOfSize(ks: seq<nat>, rows: seq<Row>)
    ensures |ValuesOf(ks, rows)| == CountedCells(ks, rows)
    decreases |ks|
  {
    if ks != [] {
      ValuesOfSize(ks[..|ks| - 1], rows);
      ColumnValuesSize(rows, ks[|ks| - 1]);
    }
  }

  /** Every occurrence of `v` is counted once by `ms[v]`, the rest by `ms[v := 0]`. */
  lemma {:induction false} RemoveAll(ms: multiset<string>, v: string)
    ensures |ms| == ms[v] + |ms[v := 0]|
    decreases ms[v]
  {
    if ms[v] > 0 {
      var rest := ms - multiset{v};
      assert ms == rest + multiset{v};
      assert rest[v := 0] == ms[v := 0];
      RemoveAll(rest, v);
    } else {
      assert ms[v := 0] == ms;
    }
  }

  /** The counts of a histogram add up to the size of the multiset it counts. */
  lemma {:induction false} TotalOfHistogram(ms: multiset<string>)
    ensures Total(Histogram(ms)) == |ms|
    decreases |ms|
  {
    var h := Histogram(ms);
    if h.Keys == {} {
      assert forall v :: v in ms ==> v in h.Keys;
      assert ms == multiset{};
    } else {
      var v :| v in h.Keys && Total(h) == h[v] + Total(h - {v});
      var rest := ms[v := 0];
      RemoveAll(ms, v);
      assert h - {v} == Histogram(rest);
      TotalOfHistogram(rest);
    }
  }

  /** The counts `extractNodes(type)` returns add up to the number of counted cells in the columns of its nodes. */
  lemma NodeHistogramTotal(g: Graph, rows: seq<Row>, t: NodeType)
    ensures Total(NodeHistogram(g, rows, t)) == CountedCells(Indices(GetNodes(g, t)), rows)
  {
    var ms := ValuesOf(Indices(GetNodes(g, t)), rows);
    TotalOfHistogram(ms);
    ValuesOfSize(Indices(GetNodes(g, t)), rows);
  }

  /** Adding one occurrence of `v` to a multiset adds one to its count, starting from 1. */
  lemma HistogramAdd(ms: multiset<string>, v: string)
    ensures Histogram(ms + multiset{v}) == Histogram(ms)[v := ms[v] + 1]
  {
  }

  /** The Java update for one counted value: start the count at 1, or add one to it. */
  lemma HistogramBump(r: map<string, nat>, ms: multiset<string>, v: string)
    requires r == Histogram(ms)
    ensures Histogram(ms + multiset{v}) == if v !in r then r[v := 1] else r[v := r[v] + 1]
  {
    HistogramAdd(ms, v);
    assert v in r <==> ms[v] > 0;
  }

  /**
   * The update the Java code makes for the cell of row `j` in column `k` keeps
   * the map the histogram of the values seen so far (`done`, then rows before `j`).
   */
  lemma CountCell(r: map<string, nat>, done: multiset<string>, rows: seq<Row>, j: nat, k: nat)
    requires j < |rows|
    requires r == Histogram(done + ColumnValues(rows[..j], k))
    ensures var cell := CountedCell(rows[j], k);
            Histogram(done + ColumnValues(rows[..j + 1], k)) ==
              if cell.None? then r
              else if cell.value !in r then r[cell.value := 1]
              else r[cell.value := r[cell.value] + 1]
  {
    var ms := done + ColumnValues(rows[..j], k);
    var cell := CountedCell(rows[j], k);
    ColumnValuesStep(rows, j, k);
    if cell.Some? {
      assert done + ColumnValues(rows[..j + 1], k) == ms + multiset{cell.value};
      HistogramBump(r, ms, cell.value);
    } else {
      assert done + ColumnValues(rows[..j + 1], k) == ms;
    }
  }

  /** One more row in column `k`. */
  lemma ColumnValuesStep(rows: seq<Row>, j: nat, k: nat)
    requires j < |rows|
    ensures ColumnValues(rows[..j + 1], k) ==
              ColumnValues(rows[..j], k) + var c := CountedCell(rows[j], k); if c.Some? then multiset{c.value} else multiset{}
  {
    assert rows[..j + 1][..j] == rows[..j];
  }

  /** One more column. */
  lemma ValuesOfStep(ks: seq<nat>, i: nat, rows: seq<Row>)
    requires i < |ks|
    ensures ValuesOf(ks[..i + 1], rows) == ValuesOf(ks[..i], rows) + ColumnValues(rows, ks[i])
  {
    assert ks[..i + 1][..i] == ks[..i];
  }

  // ---------------------------------------------------------------------------
  // extractNodes

  /** `extractNodes(type)`: the histogram of the values in the columns of the graph's nodes of type `t`. */
  method ExtractNodes(g: Graph, rows: seq<Row>, t: NodeType) returns (resultNodes: map<string, nat>)
    ensures resultNodes == NodeHistogram(g, rows, t)
  {
    var nodes := GetNodes(g, t);
    ghost var ks := Indices(nodes);
    resultNodes := map[];
    for i := 0 to |nodes|
      invariant resultNodes == Histogram(ValuesOf(ks[..i], rows))
    {
      var k := nodes[i].index;
      ghost var done := ValuesOf(ks[..i], rows);
      assert ColumnValues(rows[..0], k) == multiset{} by { assert rows[..0] == []; }
      assert done + ColumnValues(rows[..0], k) == done;
      for rowIndex := 0 to |rows|
        invariant resultNodes == Histogram(done + ColumnValues(rows[..rowIndex], k))
      {
        CountCell(resultNodes, done, rows, rowIndex, k);
        if k < |rows[rowIndex]| {
          var value := rows[rowIndex][k];
          if value.Some? && value.value != "" {
            if value.value !in resultNodes {
              resultNodes := resultNodes[value.value := 1];
            } else {
              resultNodes := resultNodes[value.value := resultNodes[value.value] + 1];
            }
          }
        }
      }
      assert rows[..|rows|] == rows;
      ValuesOfStep(ks, i, rows);
    }
    assert ks[..|nodes|] == ks;
  }

  // ---------------------------------------------------------------------------
  // extractMaterialAttributes: the same count, keyed by attribute name

  /** The (attribute name, value) pairs counted in the column of attribute `a`, one per row. */
  function ColumnPairs(rows: seq<Row>, a: Annotation): (r: multiset<(string, string)>)
    ensures forall pr | pr in r :: pr.0 == a.name && pr.1 != ""
    decreases |rows|
  {
    if rows == [] then multiset{}
    else
      var last := CountedCell(rows[|rows| - 1], a.index);
      ColumnPairs(rows[..|rows| - 1], a) + if last.Some? then multiset{(a.name, last.value)} else multiset{}
  }

  /** The pairs counted for each of the attributes `attrs` in turn. */
  function AttributePairs(attrs: seq<Annotation>, rows: seq<Row>): multiset<(string, string)>
    decreases |attrs|
  {
    if attrs == [] then multiset{}
    else AttributePairs(attrs[..|attrs| - 1], rows) + ColumnPairs(rows, attrs[|attrs| - 1])
  }

  /** The material attributes of `n`: those of a material or sample node, none for the other variants. */
  function AttributesOf(n: Node): seq<Annotation>
  {
    if n.IsMaterial() then n.attributes else []
  }

  /** The pairs counted for the material attributes of each of `nodes` in turn. */
  function MaterialPairs(nodes: seq<Node>, rows: seq<Row>): multiset<(string, string)>
    decreases |nodes|
  {
    if nodes == [] then multiset{}
    else MaterialPairs(nodes[..|nodes| - 1], rows) + AttributePairs(AttributesOf(nodes[|nodes| - 1]), rows)
  }

  function Names(ps: multiset<(string, string)>): set<string>
  {
    set pr | pr in ps :: pr.0
  }

  function ValuesNamed(ps: multiset<(string, string)>, name: string): set<string>
  {
    set pr | pr in ps && pr.0 == name :: pr.1
  }

  /** Pairs as the `Map<String, Map<String, Integer>>` the Java code builds: name, then value, then count. */
  function Nest(ps: multiset<(string, string)>): map<string, map<string, nat>>
  {
    map name | name in Names(ps) :: Counts(ps, name)
  }

  /** The inner map of `Nest` for `name`: each value paired with `name`, with its count. */
  function Counts(ps: multiset<(string, string)>, name: string): map<string, nat>
  {
    map v | v in ValuesNamed(ps, name) :: ps[(name, v)]
  }

  /** What `extractMaterialAttributes()` returns for the graph `g` and the data rows `rows`. */
  function AttributeHistogram(g: Graph, rows: seq<Row>): map<string, map<string, nat>>
  {
    Nest(MaterialPairs(GetNodes(g, MaterialType), rows))
  }

  /** All material attributes of `nodes`, in order. */
  function MaterialAttributes(nodes: seq<Node>): seq<Annotation>
    decreases |nodes|
  {
    if nodes == [] then [] else MaterialAttributes(nodes[..|nodes| - 1]) + AttributesOf(nodes[|nodes| - 1])
  }

  /** The column indices of the attributes in `attrs` called `name`. */
  function IndicesNamed(attrs: seq<Annotation>, name: string): (r: seq<nat>)
    ensures |r| <= |attrs|
    decreases |attrs|
  {
    if attrs == [] then []
    else
      var a := attrs[|attrs| - 1];
      IndicesNamed(attrs[..|attrs| - 1], name) + if a.name == name then [a.index] else []
  }

  lemma {:induction false} ColumnPairsCount(rows: seq<Row>, a: Annotation, name: string, v: string)
    ensures ColumnPairs(rows, a)[(name, v)] == if a.name == name then ColumnValues(rows, a.index)[v] else 0
    decreases |rows|
  {
    if rows != [] {
      ColumnPairsCount(rows[..|rows| - 1], a, name, v);
    }
  }

  lemma {:induction false} AttributePairsSplit(xs: seq<Annotation>, ys: seq<Annotation>, rows: seq<Row>)
    ensures AttributePairs(xs + ys, rows) == AttributePairs(xs, rows) + AttributePairs(ys, rows)
    decreases |ys|
  {
    if ys == [] {
      assert xs + ys == xs;
    } else {
      var n := |ys| - 1;
      assert (xs + ys)[..|xs + ys| - 1] == xs + ys[..n];
      AttributePairsSplit(xs, ys[..n], rows);
    }
  }

  lemma {:induction false} ValuesOfSplit(xs: seq<nat>, ys: seq<nat>, rows: seq<Row>)
    ensures ValuesOf(xs + ys, rows) == ValuesOf(xs, rows) + ValuesOf(ys, rows)
    decreases |ys|
  {
    if ys == [] {
      assert xs + ys == xs;
    } else {
      var n := |ys| - 1;
      assert (xs + ys)[..|xs + ys| - 1] == xs + ys[..n];
      ValuesOfSplit(xs, ys[..n], rows);
    }
  }

  /** Walking node by node counts the same pairs as walking the concatenated attribute list. */
  lemma {:induction false} MaterialPairsFlatten(nodes: seq<Node>, rows: seq<Row>)
    ensures MaterialPairs(nodes, rows) == AttributePairs(MaterialAttributes(nodes), rows)
    decreases |nodes|
  {
    if nodes != [] {
      var n := |nodes| - 1;
      MaterialPairsFlatten(nodes[..n], rows);
      AttributePairsSplit(MaterialAttributes(nodes[..n]), AttributesOf(nodes[n]), rows);
    }
  }

  /** The count of (name, v) is the count of `v` over the columns of the attributes called `name`. */
  lemma {:induction false} AttributePairsCount(attrs: seq<Annotation>, rows: seq<Row>, name: string, v: string)
    ensures AttributePairs(attrs, rows)[(name, v)] == ValuesOf(IndicesNamed(attrs, name), rows)[v]
    decreases |attrs|
  {
    if attrs != [] {
      var n := |attrs| - 1;
      var a := attrs[n];
      AttributePairsCount(attrs[..n], rows, name, v);
      ColumnPairsCount(rows, a, name, v);
      ValuesOfSplit(IndicesNamed(attrs[..n], name), if a.name == name then [a.index] else [], rows);
      if a.name == name {
        assert ValuesOf([a.index], rows) == ColumnValues(rows, a.index) by {
          assert [a.index][..0] == [];
        }
      }
    }
  }

  /**
   * `extractMaterialAttributes()` keeps, under each attribute name, the
   * histogram of the values found in the columns of the material attributes of
   * that name: an entry (name, v) is present exactly when `v` was counted in one
   * of those columns, and its count is how often it was found there.
   */
  lemma AttributeHistogramByName(g: Graph, rows: seq<Row>, name: string, v: string)
    ensures var h := AttributeHistogram(g, rows);
            var named := ValuesOf(IndicesNamed(MaterialAttributes(GetNodes(g, MaterialType)), name), rows);
            (name in h && v in h[name] <==> v in named)
            && (name in h && v in h[name] ==> h[name][v] == named[v])
  {
    var nodes := GetNodes(g, MaterialType);
    var attrs := MaterialAttributes(nodes);
    var ps := MaterialPairs(nodes, rows);
    MaterialPairsFlatten(nodes, rows);
    AttributePairsCount(attrs, rows, name, v);
    if (name, v) in ps {
      assert name in Names(ps);
      assert v in ValuesNamed(ps, name);
    }
  }

  /** Adding one occurrence of (name, v) changes only the inner map of `name`, and there only the count of `v`. */
  lemma CountsAdd(ps: multiset<(string, string)>, name: string, v: string, m: string)
    ensures Counts(ps + multiset{(name, v)}, m) ==
              if m == name then Counts(ps, m)[v := ps[(name, v)] + 1] else Counts(ps, m)
  {
    var ps' := ps + multiset{(name, v)};
    if m == name {
      assert ValuesNamed(ps', m) == ValuesNamed(ps, m) + {v};
      CountsAddSame(ps, name, v);
    } else {
      assert ValuesNamed(ps', m) == ValuesNamed(ps, m);
      forall w | w in ValuesNamed(ps, m) ensures ps'[(m, w)] == ps[(m, w)] { }
    }
  }

  lemma CountsAddSame(ps: multiset<(string, string)>, name: string, v: string)
    requires ValuesNamed(ps + multiset{(name, v)}, name) == ValuesNamed(ps, name) + {v}
    ensures Counts(ps + multiset{(name, v)}, name) == Counts(ps, name)[v := ps[(name, v)] + 1]
  {
    var ps' := ps + multiset{(name, v)};
    var after := Counts(ps', name);
    var before := Counts(ps, name)[v := ps[(name, v)] + 1];
    assert after.Keys == before.Keys;
    forall w | w in after.Keys ensures after[w] == before[w] {
      if w != v {
        assert (name, w) != (name, v);
      }
    }
  }

  /** Adding one occurrence of the pair (name, v) adds one to its count, creating the inner map if needed. */
  lemma NestAdd(ps: multiset<(string, string)>, name: string, v: string)
    ensures var r := Nest(ps);
            var counts := if name in r then r[name] else map[];
            Nest(ps + multiset{(name, v)}) == r[name := counts[v := ps[(name, v)] + 1]]
  {
    var r := Nest(ps);
    var ps' := ps + multiset{(name, v)};
    var counts := if name in r then r[name] else map[];
    assert Names(ps') == Names(ps) + {name};
    if name !in r {
      assert ValuesNamed(ps, name) == {};
      assert Counts(ps, name) == counts;
    }
    forall m | m in Names(ps')
      ensures Nest(ps')[m] == r[name := counts[v := ps[(name, v)] + 1]][m]
    {
      CountsAdd(ps, name, v, m);
    }
  }

  /** Looking up (name, v) in the nested map finds exactly the pairs present, with their counts. */
  lemma NestLookup(ps: multiset<(string, string)>, name: string, v: string)
    ensures name in Nest(ps) && v in Nest(ps)[name] <==> (name, v) in ps
    ensures (name, v) in ps ==> Nest(ps)[name][v] == ps[(name, v)]
  {
    if (name, v) in ps {
      assert name in Names(ps);
      assert v in ValuesNamed(ps, name);
    }
  }

  /** One more row in the column of attribute `a`. */
  lemma ColumnPairsStep(done: multiset<(string, string)>, rows: seq<Row>, j: nat, a: Annotation)
    requires j < |rows|
    ensures var cell := CountedCell(rows[j], a.index);
            done + ColumnPairs(rows[..j + 1], a) ==
              done + ColumnPairs(rows[..j], a) + if cell.Some? then multiset{(a.name, cell.value)} else multiset{}
  {
    assert rows[..j + 1][..j] == rows[..j];
  }

  /** The Java update for one counted pair: create the inner map if missing, then start or bump the count. */
  lemma CountPair(r: map<string, map<string, nat>>, ps: multiset<(string, string)>, name: string, v: string)
    requires r == Nest(ps)
    ensures var counts := if name in r then r[name] else map[];
            Nest(ps + multiset{(name, v)}) ==
              if v !in counts then r[name := counts[v := 1]] else r[name := counts[v := counts[v] + 1]]
  {
    NestAdd(ps, name, v);
    NestLookup(ps, name, v);
  }

  /** The update the Java code makes for the cell of row `j` in the column of attribute `a`. */
  lemma CountAttributeCell(r: map<string, map<string, nat>>, done: multiset<(string, string)>, rows: seq<Row>,
                           j: nat, a: Annotation)
    requires j < |rows|
    requires r == Nest(done + ColumnPairs(rows[..j], a))
    ensures var cell := CountedCell(rows[j], a.index);
            var counts := if a.name in r then r[a.name] else map[];
            Nest(done + ColumnPairs(rows[..j + 1], a)) ==
              if cell.None? then r
              else if cell.value !in counts then r[a.name := counts[cell.value := 1]]
              else r[a.name := counts[cell.value := counts[cell.value] + 1]]
  {
    var ps := done + ColumnPairs(rows[..j], a);
    var cell := CountedCell(rows[j], a.index);
    ColumnPairsStep(done, rows, j, a);
    if cell.Some? {
      CountPair(r, ps, a.name, cell.value);
    } else {
      assert ps + multiset{} == ps;
    }
  }

  /** The last attribute of a prefix contributes its column. */
  lemma AttributeLoopStep(before: multiset<(string, string)>, attrs: seq<Annotation>, a: nat, rows: seq<Row>)
    requires a < |attrs|
    ensures before + AttributePairs(attrs[..a + 1], rows) ==
              before + AttributePairs(attrs[..a], rows) + ColumnPairs(rows[..|rows|], attrs[a])
  {
    assert attrs[..a + 1][..a] == attrs[..a];
    assert rows[..|rows|] == rows;
  }

  /** The last node of a prefix contributes its attributes. */
  lemma NodeLoopStep(nodes: seq<Node>, i: nat, rows: seq<Row>)
    requires i < |nodes|
    ensures var attrs := AttributesOf(nodes[i]);
            MaterialPairs(nodes[..i + 1], rows) == MaterialPairs(nodes[..i], rows) + AttributePairs(attrs[..|attrs|], rows)
  {
    assert nodes[..i + 1][..i] == nodes[..i];
    var attrs := AttributesOf(nodes[i]);
    assert attrs[..|attrs|] == attrs;
  }

  /** Nothing is counted before the first attribute or the first row. */
  lemma NothingYet(done: multiset<(string, string)>, attrs: seq<Annotation>, rows: seq<Row>, a: Annotation)
    ensures done + AttributePairs(attrs[..0], rows) == done
    ensures done + ColumnPairs(rows[..0], a) == done
  {
    assert attrs[..0] == [];
    assert rows[..0] == [];
  }

  /** `extractMaterialAttributes()`: per attribute name, the histogram of that attribute's values. */
  method ExtractMaterialAttributes(g: Graph, rows: seq<Row>) returns (resultNodes: map<string, map<string, nat>>)
    ensures resultNodes == AttributeHistogram(g, rows)
  {
    var nodes := GetNodes(g, MaterialType);
    resultNodes := map[];
    for i := 0 to |nodes|
      invariant resultNodes == Nest(MaterialPairs(nodes[..i], rows))
    {
      var attributes := AttributesOf(nodes[i]);
      ghost var before := MaterialPairs(nodes[..i], rows);
      NothingYet(before, attributes, rows, Annotation(0, ""));
      for a := 0 to |attributes|
        invariant resultNodes == Nest(before + AttributePairs(attributes[..a], rows))
      {
        var property := attributes[a];
        ghost var done := before + AttributePairs(attributes[..a], rows);
        NothingYet(done, attributes, rows, property);
        for rowIndex := 0 to |rows|
          invariant resultNodes == Nest(done + ColumnPairs(rows[..rowIndex], property))
        {
          CountAttributeCell(resultNodes, done, rows, rowIndex, property);
          if property.index < |rows[rowIndex]| {
            var value := rows[rowIndex][property.index];
            if value.Some? && value.value != "" {
              // a name seen for the first time starts with an empty map of counts
              var counts := if property.name in resultNodes then resultNodes[property.name] else map[];
              if value.value !in counts {
                resultNodes := resultNodes[property.name := counts[value.value := 1]];
              } else {
                resultNodes := resultNodes[property.name := counts[value.value := counts[value.value] + 1]];
              }
            }
          }
        }
        AttributeLoopStep(before, attributes, a, rows);
      }
      NodeLoopStep(nodes, i, rows);
    }
    assert nodes[..|nodes|] == nodes;
  }
}
