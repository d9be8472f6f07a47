/** Graph construction (NetworkGraph.jsx lines 13-21): from the connection records and the
    metric rows, the task lookup `nodeInfo`, the distinct link types, the distinct node ids and
    the link list. */
module GraphBuilder {
  import opened Sequences

  /** One input connection; `kind` is the record's `type` field. */
  datatype Connection = Connection(source: string, target: string, kind: string)

  /** One metrics row: its `task` id and its other display fields, kept verbatim. */
  datatype MetricRow = MetricRow(task: string, fields: map<string, string>)

  /** A link handed to the simulation: the connection's fields, endpoints still as ids. */
  datatype Link = Link(source: string, target: string, kind: string)

  /** `connections.map(d => d.type)` */
  function KindsOf(cs: seq<Connection>): (r: seq<string>)
    ensures |r| == |cs| && forall i :: 0 <= i < |cs| ==> r[i] == cs[i].kind
  {
    if cs == [] then [] else [cs[0].kind] + KindsOf(cs[1..])
  }

  /** `connections.flatMap(l => [l.source, l.target])` */
  function Endpoints(cs: seq<Connection>): (r: seq<string>)
    ensures |r| == 2 * |cs|
    ensures forall i :: 0 <= i < |cs| ==> r[2 * i] == cs[i].source && r[2 * i + 1] == cs[i].target
  {
    if cs == [] then [] else [cs[0].source, cs[0].target] + Endpoints(cs[1..])
  }

  /** The distinct link types in first-seen order. */
  function Types(cs: seq<Connection>): seq<string> {
    Distinct(KindsOf(cs))
  }

  /** The distinct node ids in first-seen order, source before target within a connection. */
  function Nodes(cs: seq<Connection>): seq<string> {
    Distinct(Endpoints(cs))
  }

  /** `connections.map(d => Object.create(d))`: one link per connection, in input order,
      reading the same fields. */
  function Links(cs: seq<Connection>): (ls: seq<Link>)
    ensures |ls| == |cs|
    ensures forall i :: 0 <= i < |cs| ==>
      ls[i].source == cs[i].source && ls[i].target == cs[i].target && ls[i].kind == cs[i].kind
  {
    if cs == [] then [] else [Link(cs[0].source, cs[0].target, cs[0].kind)] + Links(cs[1..])
  }

  /** No row after row `i` and before row `n` names the same task. */
  predicate LastBefore(metrics: seq<MetricRow>, i: int, n: int)
    requires 0 <= i < |metrics| && n <= |metrics|
  {
    forall j :: i < j < n ==> metrics[j].task != metrics[i].task
  }

  /** Row `i` is the last row that names its task. */
  predicate IsLastRowFor(metrics: seq<MetricRow>, i: int)
    requires 0 <= i < |metrics|
  {
    LastBefore(metrics, i, |metrics|)
  }

  /** `metrics.forEach(row => { nodeInfo[row.task] = row; })`: every task of the metrics gets
      an entry, nothing else does, and the entry is the last row naming that task. */
  method BuildNodeInfo(metrics: seq<MetricRow>) returns (info: map<string, MetricRow>)
    ensures forall i :: 0 <= i < |metrics| ==> metrics[i].task in info
    ensures forall k :: k in info ==> exists i :: 0 <= i < |metrics| && metrics[i].task == k
    ensures forall i :: 0 <= i < |metrics| && IsLastRowFor(metrics, i) ==> info[metrics[i].task] == metrics[i]
  {
    info := map[];
    var n := 0;
    while n < |metrics|
      invariant 0 <= n <= |metrics|
      invariant forall i :: 0 <= i < n ==> metrics[i].task in info
      invariant forall k :: k in info ==> exists i :: 0 <= i < n && metrics[i].task == k
      invariant forall i :: 0 <= i < n && LastBefore(metrics, i, n) ==> info[metrics[i].task] == metrics[i]
    {
      info := info[metrics[n].task := metrics[n]];
      n := n + 1;
    }
  }

  /** Every id used as a source or a target is a node, nothing else is, and each occurs once.
      Metric rows play no part, so a task that only has metrics is never a node. */
  lemma {:induction false} NodesAreEndpoints(cs: seq<Connection>)
    ensures NoDuplicates(Nodes(cs))
    ensures forall x :: x in Nodes(cs) <==> exists i :: 0 <= i < |cs| && (cs[i].source == x || cs[i].target == x)
  {
    var e := Endpoints(cs);
    DistinctIsFirstSeen(e);
    forall x | x in Nodes(cs)
      ensures exists i :: 0 <= i < |cs| && (cs[i].source == x || cs[i].target == x)
    {
      var k := FirstIndex(e, x);
      assert e[2 * (k / 2)] == cs[k / 2].source && e[2 * (k / 2) + 1] == cs[k / 2].target;
    }
    forall i | 0 <= i < |cs|
      ensures cs[i].source in Nodes(cs) && cs[i].target in Nodes(cs)
    {
      assert e[2 * i] == cs[i].source && e[2 * i + 1] == cs[i].target;
    }
  }

  /** Within one connection, a source seen for the first time is listed before its target. */
  lemma SourceBeforeTarget(cs: seq<Connection>, i: nat, p: nat, q: nat)
    requires i < |cs| && cs[i].source != cs[i].target
    requires p < |Nodes(cs)| && q < |Nodes(cs)|
    requires Nodes(cs)[p] == cs[i].source && Nodes(cs)[q] == cs[i].target
    requires forall k :: 0 <= k < i ==> cs[k].source !in [cs[i].source, cs[i].target]
    requires forall k :: 0 <= k < i ==> cs[k].target !in [cs[i].source, cs[i].target]
    ensures p < q
  {
    var e := Endpoints(cs);
    DistinctIsFirstSeen(e);
    assert e[2 * i] == cs[i].source && e[2 * i + 1] == cs[i].target;
    forall k | 0 <= k < 2 * i
      ensures e[k] != cs[i].source && e[k] != cs[i].target
    {
      assert e[2 * (k / 2)] == cs[k / 2].source && e[2 * (k / 2) + 1] == cs[k / 2].target;
    }
    assert FirstIndex(e, cs[i].source) == 2 * i;
    assert FirstIndex(e, cs[i].target) == 2 * i + 1;
  }

  /** `types` contains exactly the connections' types, each once (their first-seen order is
      `DistinctIsFirstSeen` on `KindsOf`). */
  lemma {:induction false} TypesAreKinds(cs: seq<Connection>)
    ensures NoDuplicates(Types(cs))
    ensures forall t :: t in Types(cs) <==> exists i :: 0 <= i < |cs| && cs[i].kind == t
  {
    var k := KindsOf(cs);
    DistinctIsFirstSeen(k);
    forall t | t in Types(cs)
      ensures exists i :: 0 <= i < |cs| && cs[i].kind == t
    {
      var j := FirstIndex(k, t);
      assert cs[j].kind == t;
    }
    forall i | 0 <= i < |cs|
      ensures cs[i].kind in Types(cs)
    {
      assert k[i] == cs[i].kind;
    }
  }
}
