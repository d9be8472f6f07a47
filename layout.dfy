/** Vertical layout targets (NetworkGraph.jsx lines 7-11, 76-78, 88-91 and 305-313): the
    deepest level, the spacing between levels, and the y position each node is pulled
    towards. The arithmetic is exact rational arithmetic on `real`. */
module Layout {
  import opened GraphBuilder
  import opened LevelAssigner

  const Height: int := 1000
  const MarginTop: int := 0
  const MarginBottom: int := 0

  /** `height - margin.top - margin.bottom` */
  const ChartHeight: real := (Height - MarginTop - MarginBottom) as real

  /** `Math.max(...nodeLevels.values())`, taking the values in the order of `nodes`; the order
      does not change a maximum. There must be at least one node: the spread of no values
      is `-Infinity` in JavaScript. */
  function MaxLevel(levels: map<string, nat>, nodes: seq<string>): (m: nat)
    requires nodes != [] && forall n :: n in nodes ==> n in levels
    ensures forall n :: n in nodes ==> levels[n] <= m
    ensures exists n :: n in nodes && levels[n] == m
  {
    if |nodes| == 1 then levels[nodes[0]]
    else
      var rest := MaxLevel(levels, nodes[1..]);
      assert forall n :: n in nodes ==> n == nodes[0] || n in nodes[1..];
      if levels[nodes[0]] > rest then levels[nodes[0]] else rest
  }

  /** `chartHeight / (maxLevel + 2)`: the height of one level band. */
  function VerticalSpacing(maxLevel: nat): (s: real)
    ensures s > 0.0 && s * (maxLevel + 2) as real == ChartHeight
  {
    ChartHeight / (maxLevel + 2) as real
  }

  /** `(level + 1) * verticalSpacing`: the y target of a node at `level`. */
  function TargetY(level: nat, maxLevel: nat): real {
    (level + 1) as real * VerticalSpacing(maxLevel)
  }

  /** A deeper level is pulled strictly lower on the chart. */
  lemma TargetYIncreasing(a: nat, b: nat, maxLevel: nat)
    requires a < b
    ensures TargetY(a, maxLevel) < TargetY(b, maxLevel)
  {
  }

  /** Every level up to the deepest lies strictly inside the chart: one band below the top
      at level 0, one band above the bottom at the deepest level. */
  lemma TargetYInside(level: nat, maxLevel: nat)
    requires level <= maxLevel
    ensures 0.0 < TargetY(level, maxLevel) < ChartHeight
  {
  }

  /** The target the `y` force gives node `id` of the graph built from `cs`; the force set
      up at lines 88-91 and the one `resetLayout` installs at lines 307-309 both use it. */
  function NodeTargetY(cs: seq<Connection>, id: string): real
    requires id in Nodes(cs)
  {
    var levels := NodeLevels(cs);
    TargetY(levels[id], MaxLevel(levels, Nodes(cs)))
  }

  /** Every node's target lies strictly inside the chart, and a node at a deeper level than
      another is pulled strictly lower; nodes that no link targets share the top band. */
  lemma NodeTargetsOrdered(cs: seq<Connection>, a: string, b: string)
    requires a in Nodes(cs) && b in Nodes(cs)
    ensures 0.0 < NodeTargetY(cs, a) < ChartHeight
    ensures NodeLevels(cs)[a] < NodeLevels(cs)[b] ==> NodeTargetY(cs, a) < NodeTargetY(cs, b)
    ensures IsRoot(Links(cs), a) ==> NodeTargetY(cs, a) == VerticalSpacing(MaxLevel(NodeLevels(cs), Nodes(cs)))
  {
    var levels := NodeLevels(cs);
    var m := MaxLevel(levels, Nodes(cs));
    TargetYInside(levels[a], m);
    if levels[a] < levels[b] {
      TargetYIncreasing(levels[a], levels[b], m);
    }
  }

  /** Any connection gives at least one node, so `maxLevel` is a number. */
  lemma NodesNonEmpty(cs: seq<Connection>)
    requires cs != []
    ensures Nodes(cs) != []
  {
    NodesAreEndpoints(cs);
    assert cs[0].source in Nodes(cs);
  }
}
