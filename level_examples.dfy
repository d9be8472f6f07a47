/** Worked examples of `calculateNodeLevels` (NetworkGraph.jsx lines 25-73) on three small
    graphs: a diamond, a two-node cycle, and a graph where a link does not point downwards.
    Each example first shows which index the link loop builds, then follows the two passes. */
module LevelExamples {
  import opened Sequences
  import opened GraphBuilder
  import opened LevelAssigner

  /** The links added one at a time to `ix`, as the `forEach` over the links does. */
  function AddLinks(ix: DependencyIndex, links: seq<Link>): DependencyIndex
    decreases |links|
  {
    if links == [] then ix else AddLink(AddLinks(ix, links[..|links| - 1]), links[|links| - 1])
  }

  /** Empty dependency and dependent sets for every node. */
  function EmptyIndex(nodes: seq<string>): DependencyIndex {
    DependencyIndex(map n | n in nodes :: [], map n | n in nodes :: [])
  }

  /** The index of a graph is its links added to empty sets. */
  lemma {:induction false} IndexOfIsAddLinks(nodes: seq<string>, links: seq<Link>)
    ensures IndexOf(nodes, links) == AddLinks(EmptyIndex(nodes), links)
    decreases |links|
  {
    if links == [] {
      IndexOfNoLinks(nodes);
    } else {
      var k := |links| - 1;
      IndexOfIsAddLinks(nodes, links[..k]);
      AddLinksGivesIndexOf(nodes, links, k);
      assert links[..k + 1] == links;
    }
  }

  /** The first two endpoints of every example are A then B. */
  lemma DistinctAB()
    ensures Distinct(["A", "B"]) == ["A", "B"]
  {
    DistinctSnoc([], "A");
    assert [] + ["A"] == ["A"];
    DistinctSnoc(["A"], "B");
    assert ["A"] + ["B"] == ["A", "B"];
  }

  // ---------------------------------------------------------------------------------------
  // Diamond: A -> B, B -> C, A -> D, D -> C

  function DiamondNodes(): seq<string> { ["A", "B", "C", "D"] }

  /** The connection records the diamond is drawn from. */
  function DiamondConnections(): seq<Connection> {
    [Connection("A", "B", "x"), Connection("B", "C", "x"), Connection("A", "D", "x"), Connection("D", "C", "x")]
  }

  function DiamondLinks(): seq<Link> {
    [Link("A", "B", "x"), Link("B", "C", "x"), Link("A", "D", "x"), Link("D", "C", "x")]
  }

  /** Empty sets for the four nodes, then the four links added in order. */
  function DiamondIndex(): DependencyIndex {
    var i0 := DependencyIndex(map["A" := [], "B" := [], "C" := [], "D" := []], map["A" := [], "B" := [], "C" := [], "D" := []]);
    var i1 := DependencyIndex(i0.dependencies["B" := ["A"]], i0.dependents["A" := ["B"]]);
    var i2 := DependencyIndex(i1.dependencies["C" := ["B"]], i1.dependents["B" := ["C"]]);
    var i3 := DependencyIndex(i2.dependencies["D" := ["A"]], i2.dependents["A" := ["B", "D"]]);
    DependencyIndex(i3.dependencies["C" := ["B", "D"]], i3.dependents["D" := ["C"]])
  }

  lemma DiamondIndexBuilt()
    ensures IndexOf(DiamondNodes(), DiamondLinks()) == DiamondIndex()
  {
    IndexOfIsAddLinks(DiamondNodes(), DiamondLinks());
    DiamondAddLinks();
  }

  lemma DiamondAddLinks()
    ensures AddLinks(EmptyIndex(DiamondNodes()), DiamondLinks()) == DiamondIndex()
  {
    var nodes, links := DiamondNodes(), DiamondLinks();
    var i0 := DependencyIndex(map["A" := [], "B" := [], "C" := [], "D" := []], map["A" := [], "B" := [], "C" := [], "D" := []]);
    var i1 := DependencyIndex(i0.dependencies["B" := ["A"]], i0.dependents["A" := ["B"]]);
    var i2 := DependencyIndex(i1.dependencies["C" := ["B"]], i1.dependents["B" := ["C"]]);
    var i3 := DependencyIndex(i2.dependencies["D" := ["A"]], i2.dependents["A" := ["B", "D"]]);
    assert EmptyIndex(nodes) == i0;
    assert links[..0] == [] && links[..1][..0] == [] && links[..2][..1] == links[..1];
    assert links[..3][..2] == links[..2] && links[..4][..3] == links[..3] && links[..4] == links;
    assert Add([], "A") == ["A"] && Add([], "B") == ["B"] && Add([], "C") == ["C"];
    assert Add(["B"], "D") == ["B", "D"];
    assert AddLinks(i0, links[..1]) == i1;
    assert AddLinks(i0, links[..2]) == i2;
    assert AddLinks(i0, links[..3]) == i3;
  }

  lemma DiamondWellFormed()
    ensures DiamondIndex().WellFormed()
  {
  }

  /** C, reached from B with floor 2 while A = 0 and B = 1, gets 2 and has no dependents. */
  lemma DiamondAssignC()
    ensures DiamondIndex().WellFormed()
    ensures Assign(DiamondIndex(), map["A" := 0, "B" := 1], "C", 2) == map["A" := 0, "B" := 1, "C" := 2]
  {
    DiamondWellFormed();
    assert LevelFrom(2, ["B", "D"], map["A" := 0, "B" := 1]) == 2;
  }

  /** B, reached from A with floor 1, gets 1 and passes floor 2 on to C. */
  lemma DiamondAssignB()
    ensures DiamondIndex().WellFormed()
    ensures Assign(DiamondIndex(), map["A" := 0], "B", 1) == map["A" := 0, "B" := 1, "C" := 2]
  {
    DiamondAssignC();
    assert LevelFrom(1, ["A"], map["A" := 0]) == 1;
  }

  /** D, reached from A with floor 1, gets 1; its dependent C is already visited. */
  lemma DiamondAssignD()
    ensures DiamondIndex().WellFormed()
    ensures Assign(DiamondIndex(), map["A" := 0, "B" := 1, "C" := 2], "D", 1) == map["A" := 0, "B" := 1, "C" := 2, "D" := 1]
  {
    DiamondWellFormed();
    var m: map<string, nat> := map["A" := 0, "B" := 1, "C" := 2, "D" := 1];
    assert LevelFrom(1, ["A"], map["A" := 0, "B" := 1, "C" := 2]) == 1;
    assert Assign(DiamondIndex(), m, "C", 2) == m;
  }

  /** The root pass: A at 0, then B, C and D through A's dependents in the order [B, D]. */
  lemma DiamondFirstPass()
    ensures DiamondIndex().WellFormed()
    ensures FirstPass(DiamondIndex(), map[], DiamondNodes()) == map["A" := 0, "B" := 1, "C" := 2, "D" := 1]
  {
    DiamondAssignB();
    DiamondAssignD();
    var ix, m := DiamondIndex(), map["A" := 0, "B" := 1, "C" := 2, "D" := 1];
    assert AssignEach(ix, map["A" := 0], ["B", "D"], 1) == m;
    assert Assign(ix, map[], "A", 0) == m;
    assert FirstPass(ix, m, ["B", "C", "D"]) == m;
  }

  /** A = 0, B = 1, D = 1, C = 2: C sits one below the deeper of its two dependencies. */
  lemma DiamondLevels()
    ensures IndexOf(DiamondNodes(), DiamondLinks()).WellFormed()
    ensures Levels(IndexOf(DiamondNodes(), DiamondLinks()), DiamondNodes()) == map["A" := 0, "B" := 1, "C" := 2, "D" := 1]
  {
    DiamondIndexBuilt();
    DiamondFirstPass();
    DiamondSecondPass();
  }

  /** Every node already has a level, so the sweep pass changes nothing. */
  lemma DiamondSecondPass()
    ensures DiamondIndex().WellFormed()
    ensures SecondPass(DiamondIndex(), map["A" := 0, "B" := 1, "C" := 2, "D" := 1], DiamondNodes())
      == map["A" := 0, "B" := 1, "C" := 2, "D" := 1]
  {
    DiamondWellFormed();
  }

  /** The graph built from the diamond's connections: the ids in first-seen order A, B, C, D
      (from the endpoints A, B, B, C, A, D, D, C) and one link per connection. */
  lemma DiamondGraph()
    ensures Nodes(DiamondConnections()) == DiamondNodes()
    ensures Links(DiamondConnections()) == DiamondLinks()
  {
    assert Endpoints(DiamondConnections()) == ["A", "B", "B", "C", "A", "D", "D", "C"];
    DiamondDistinct();
  }

  lemma DiamondDistinct()
    ensures Distinct(["A", "B", "B", "C", "A", "D", "D", "C"]) == DiamondNodes()
  {
    DiamondDistinctSix();
    DistinctSnoc(["A", "B", "B", "C", "A", "D"], "D");
    assert ["A", "B", "B", "C", "A", "D"] + ["D"] == ["A", "B", "B", "C", "A", "D", "D"];
    DistinctSnoc(["A", "B", "B", "C", "A", "D", "D"], "C");
    assert ["A", "B", "B", "C", "A", "D", "D"] + ["C"] == ["A", "B", "B", "C", "A", "D", "D", "C"];
  }

  lemma DiamondDistinctSix()
    ensures Distinct(["A", "B", "B", "C", "A", "D"]) == ["A", "B", "C", "D"]
  {
    DiamondDistinctFour();
    DistinctSnoc(["A", "B", "B", "C"], "A");
    assert ["A", "B", "B", "C"] + ["A"] == ["A", "B", "B", "C", "A"];
    DistinctSnoc(["A", "B", "B", "C", "A"], "D");
    assert ["A", "B", "B", "C", "A"] + ["D"] == ["A", "B", "B", "C", "A", "D"];
  }

  lemma DiamondDistinctFour()
    ensures Distinct(["A", "B", "B", "C"]) == ["A", "B", "C"]
  {
    DistinctAB();
    DistinctSnoc(["A", "B"], "B");
    assert ["A", "B"] + ["B"] == ["A", "B", "B"];
    DistinctSnoc(["A", "B", "B"], "C");
    assert ["A", "B", "B"] + ["C"] == ["A", "B", "B", "C"];
  }

  /** `calculateNodeLevels` run on the graph built from the diamond's connections. */
  lemma DiamondNodeLevels()
    ensures NodeLevels(DiamondConnections()) == map["A" := 0, "B" := 1, "C" := 2, "D" := 1]
  {
    DiamondGraph();
    DiamondLevels();
  }

  // ---------------------------------------------------------------------------------------
  // Cycle: A -> B, B -> A

  function CycleNodes(): seq<string> { ["A", "B"] }

  /** The connection records the cycle is drawn from. */
  function CycleConnections(): seq<Connection> { [Connection("A", "B", "x"), Connection("B", "A", "x")] }

  function CycleLinks(): seq<Link> { [Link("A", "B", "x"), Link("B", "A", "x")] }

  /** Empty sets for the two nodes, then the two links added in order. */
  function CycleIndex(): DependencyIndex {
    var i0 := DependencyIndex(map["A" := [], "B" := []], map["A" := [], "B" := []]);
    var i1 := DependencyIndex(i0.dependencies["B" := ["A"]], i0.dependents["A" := ["B"]]);
    DependencyIndex(i1.dependencies["A" := ["B"]], i1.dependents["B" := ["A"]])
  }

  lemma CycleAddLinks()
    ensures AddLinks(EmptyIndex(CycleNodes()), CycleLinks()) == CycleIndex()
  {
    var nodes, links := CycleNodes(), CycleLinks();
    var i0 := DependencyIndex(map["A" := [], "B" := []], map["A" := [], "B" := []]);
    var i1 := DependencyIndex(i0.dependencies["B" := ["A"]], i0.dependents["A" := ["B"]]);
    assert EmptyIndex(nodes) == i0;
    assert links[..0] == [] && links[..1][..0] == [] && links[..2][..1] == links[..1] && links[..2] == links;
    assert Add([], "A") == ["A"] && Add([], "B") == ["B"];
    assert AddLinks(i0, links[..1]) == i1;
  }

  lemma CycleIndexBuilt()
    ensures IndexOf(CycleNodes(), CycleLinks()) == CycleIndex()
  {
    IndexOfIsAddLinks(CycleNodes(), CycleLinks());
    CycleAddLinks();
  }

  lemma CycleWellFormed()
    ensures CycleIndex().WellFormed()
  {
  }

  /** B, reached from A with floor 2 while A = 1, gets 2; its dependent A is visited. */
  lemma CycleAssignB()
    ensures CycleIndex().WellFormed()
    ensures Assign(CycleIndex(), map["A" := 1], "B", 2) == map["A" := 1, "B" := 2]
  {
    CycleWellFormed();
    var m: map<string, nat> := map["A" := 1, "B" := 2];
    assert LevelFrom(2, ["A"], map["A" := 1]) == 2;
    assert Assign(CycleIndex(), m, "A", 3) == m;
  }

  /** No root, so the root pass does nothing; the sweep pass enters the cycle at A, whose
      unassigned dependency B counts as 0, so A gets 1 and B gets 2. */
  lemma CycleLevels()
    ensures IndexOf(CycleNodes(), CycleLinks()).WellFormed()
    ensures Levels(IndexOf(CycleNodes(), CycleLinks()), CycleNodes()) == map["A" := 1, "B" := 2]
  {
    CycleIndexBuilt();
    CyclePasses();
  }

  lemma CyclePasses()
    ensures CycleIndex().WellFormed()
    ensures FirstPass(CycleIndex(), map[], CycleNodes()) == map[]
    ensures SecondPass(CycleIndex(), map[], CycleNodes()) == map["A" := 1, "B" := 2]
  {
    CycleAssignB();
    var ix, m := CycleIndex(), map["A" := 1, "B" := 2];
    assert LevelFrom(0, ["B"], map[]) == 1;
    assert AssignEach(ix, map["A" := 1], ["B"], 2) == m;
    assert Assign(ix, map[], "A", 0) == m;
    assert SecondPass(ix, m, ["B"]) == m;
  }

  /** The graph built from the cycle's connections: the ids in first-seen order A, B (from
      the endpoints A, B, B, A) and one link per connection. */
  lemma CycleGraph()
    ensures Nodes(CycleConnections()) == CycleNodes()
    ensures Links(CycleConnections()) == CycleLinks()
  {
    assert Endpoints(CycleConnections()) == ["A", "B", "B", "A"];
    CycleDistinct();
  }

  lemma CycleDistinct()
    ensures Distinct(["A", "B", "B", "A"]) == CycleNodes()
  {
    DistinctAB();
    DistinctSnoc(["A", "B"], "B");
    assert ["A", "B"] + ["B"] == ["A", "B", "B"];
    DistinctSnoc(["A", "B", "B"], "A");
    assert ["A", "B", "B"] + ["A"] == ["A", "B", "B", "A"];
  }

  /** `calculateNodeLevels` run on the graph built from the cycle's connections. */
  lemma CycleNodeLevels()
    ensures NodeLevels(CycleConnections()) == map["A" := 1, "B" := 2]
  {
    CycleGraph();
    CycleLevels();
  }

  // ---------------------------------------------------------------------------------------
  // Skew: A -> B, A -> C, C -> B

  function SkewNodes(): seq<string> { ["A", "B", "C"] }

  /** The connection records the skew graph is drawn from. */
  function SkewConnections(): seq<Connection> {
    [Connection("A", "B", "x"), Connection("A", "C", "x"), Connection("C", "B", "x")]
  }

  function SkewLinks(): seq<Link> { [Link("A", "B", "x"), Link("A", "C", "x"), Link("C", "B", "x")] }

  /** Empty sets for the three nodes, then the three links added in order. */
  function SkewIndex(): DependencyIndex {
    var i0 := DependencyIndex(map["A" := [], "B" := [], "C" := []], map["A" := [], "B" := [], "C" := []]);
    var i1 := DependencyIndex(i0.dependencies["B" := ["A"]], i0.dependents["A" := ["B"]]);
    var i2 := DependencyIndex(i1.dependencies["C" := ["A"]], i1.dependents["A" := ["B", "C"]]);
    DependencyIndex(i2.dependencies["B" := ["A", "C"]], i2.dependents["C" := ["B"]])
  }

  lemma SkewAddLinks()
    ensures AddLinks(EmptyIndex(SkewNodes()), SkewLinks()) == SkewIndex()
  {
    var nodes, links := SkewNodes(), SkewLinks();
    var i0 := DependencyIndex(map["A" := [], "B" := [], "C" := []], map["A" := [], "B" := [], "C" := []]);
    var i1 := DependencyIndex(i0.dependencies["B" := ["A"]], i0.dependents["A" := ["B"]]);
    var i2 := DependencyIndex(i1.dependencies["C" := ["A"]], i1.dependents["A" := ["B", "C"]]);
    assert EmptyIndex(nodes) == i0;
    assert links[..0] == [] && links[..1][..0] == [] && links[..2][..1] == links[..1];
    assert links[..3][..2] == links[..2] && links[..3] == links;
    assert Add([], "A") == ["A"] && Add([], "B") == ["B"];
    assert Add(["B"], "C") == ["B", "C"] && Add(["A"], "C") == ["A", "C"];
    assert AddLinks(i0, links[..1]) == i1;
    assert AddLinks(i0, links[..2]) == i2;
  }

  lemma SkewIndexBuilt()
    ensures IndexOf(SkewNodes(), SkewLinks()) == SkewIndex()
  {
    IndexOfIsAddLinks(SkewNodes(), SkewLinks());
    SkewAddLinks();
  }

  lemma SkewWellFormed()
    ensures SkewIndex().WellFormed()
  {
  }

  /** From root A, B is reached first (floor 1) while C has no level yet and counts as 0, so
      B gets 1; C then gets 1 and finds B already visited. */
  lemma SkewFirstPass()
    ensures SkewIndex().WellFormed()
    ensures FirstPass(SkewIndex(), map[], SkewNodes()) == map["A" := 0, "B" := 1, "C" := 1]
  {
    SkewWellFormed();
    var ix, m := SkewIndex(), map["A" := 0, "B" := 1, "C" := 1];
    assert LevelFrom(1, ["A", "C"], map["A" := 0]) == 1;
    assert Assign(ix, map["A" := 0], "B", 1) == map["A" := 0, "B" := 1];
    assert LevelFrom(1, ["A"], map["A" := 0, "B" := 1]) == 1;
    assert Assign(ix, m, "B", 2) == m;
    assert Assign(ix, map["A" := 0, "B" := 1], "C", 1) == m;
    assert AssignEach(ix, map["A" := 0], ["B", "C"], 1) == m;
    assert Assign(ix, map[], "A", 0) == m;
    assert FirstPass(ix, m, ["B", "C"]) == m;
  }

  /** A = 0, B = 1, C = 1, so the link C -> B does not point downwards: the level of a target
      is not always above the level of its source, even without cycles. */
  lemma SkewLevels()
    ensures IndexOf(SkewNodes(), SkewLinks()).WellFormed()
    ensures Levels(IndexOf(SkewNodes(), SkewLinks()), SkewNodes()) == map["A" := 0, "B" := 1, "C" := 1]
  {
    SkewIndexBuilt();
    SkewFirstPass();
    var m := map["A" := 0, "B" := 1, "C" := 1];
    assert SecondPass(SkewIndex(), m, SkewNodes()) == m;
  }

  /** The graph built from the skew graph's connections: the ids in first-seen order A, B, C
      (from the endpoints A, B, A, C, C, B) and one link per connection. */
  lemma SkewGraph()
    ensures Nodes(SkewConnections()) == SkewNodes()
    ensures Links(SkewConnections()) == SkewLinks()
  {
    assert Endpoints(SkewConnections()) == ["A", "B", "A", "C", "C", "B"];
    SkewDistinctFour();
    DistinctSnoc(["A", "B", "A", "C"], "C");
    assert ["A", "B", "A", "C"] + ["C"] == ["A", "B", "A", "C", "C"];
    DistinctSnoc(["A", "B", "A", "C", "C"], "B");
    assert ["A", "B", "A", "C", "C"] + ["B"] == ["A", "B", "A", "C", "C", "B"];
  }

  lemma SkewDistinctFour()
    ensures Distinct(["A", "B", "A", "C"]) == ["A", "B", "C"]
  {
    SkewDistinctThree();
    DistinctSnoc(["A", "B", "A"], "C");
    assert ["A", "B", "A"] + ["C"] == ["A", "B", "A", "C"];
  }

  lemma SkewDistinctThree()
    ensures Distinct(["A", "B", "A"]) == ["A", "B"]
  {
    DistinctAB();
    DistinctSnoc(["A", "B"], "A");
    assert ["A", "B"] + ["A"] == ["A", "B", "A"];
  }


  /** `calculateNodeLevels` run on the graph built from the skew graph's connections. */
  lemma SkewNodeLevels()
    ensures NodeLevels(SkewConnections()) == map["A" := 0, "B" := 1, "C" := 1]
  {
    SkewGraph();
    SkewLevels();
  }
}
