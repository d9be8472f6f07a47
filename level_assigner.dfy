/** Level assignment (`calculateNodeLevels`, NetworkGraph.jsx lines 25-73).

    The two JavaScript Maps of dependency sets and dependent sets become a `DependencyIndex`
    whose sets are duplicate-free sequences in the order the links add to them, because the
    iteration order of a JavaScript `Set` decides which path reaches a node first. The
    recursive `assignLevel` is the method `LevelAssigner.AssignLevel`, which updates the
    `levels` map and the `visited` set in place; its result is pinned down by the functions
    `Assign` and `AssignEach`, about which the layout properties are proved. */
module LevelAssigner {
  import opened Sequences
  import opened GraphBuilder

  /** For each node id: the ids it depends on (sources of links into it) and the ids that
      depend on it (targets of links out of it). */
  datatype DependencyIndex = DependencyIndex(
    dependencies: map<string, seq<string>>,
    dependents: map<string, seq<string>>)
  {
    /** Both maps have the same keys and every dependent is itself a key. */
    ghost predicate WellFormed() {
      && dependencies.Keys == dependents.Keys
      && forall s, t :: s in dependents && t in dependents[s] ==> t in dependencies
    }

    /** Every dependent lists the node it depends on among its dependencies. */
    ghost predicate Mirrored() {
      forall s, t :: s in dependents && t in dependents[s] ==> t in dependencies && s in dependencies[t]
    }
  }

  // ---------------------------------------------------------------------------------------
  // The dependency index (lines 26-38)

  /** Sources of the links into `n`, in link order, repeats kept. */
  function SourcesInto(links: seq<Link>, n: string): (r: seq<string>)
    ensures forall s :: s in r <==> exists i :: 0 <= i < |links| && links[i].target == n && links[i].source == s
    decreases |links|
  {
    if links == [] then []
    else
      var init, last := links[..|links| - 1], links[|links| - 1];
      assert forall i :: 0 <= i < |init| ==> links[i] == init[i];
      SourcesInto(init, n) + if last.target == n then [last.source] else []
  }

  /** Targets of the links out of `n`, in link order, repeats kept. */
  function TargetsFrom(links: seq<Link>, n: string): (r: seq<string>)
    ensures forall t :: t in r <==> exists i :: 0 <= i < |links| && links[i].source == n && links[i].target == t
    decreases |links|
  {
    if links == [] then []
    else
      var init, last := links[..|links| - 1], links[|links| - 1];
      assert forall i :: 0 <= i < |init| ==> links[i] == init[i];
      TargetsFrom(init, n) + if last.source == n then [last.target] else []
  }

  /** The keys of the dependency map: every node and every link target. */
  function TargetKeys(nodes: seq<string>, links: seq<Link>): set<string> {
    (set n | n in nodes) + (set l | l in links :: l.target)
  }

  /** The keys of the dependent map: every node and every link source. */
  function SourceKeys(nodes: seq<string>, links: seq<Link>): set<string> {
    (set n | n in nodes) + (set l | l in links :: l.source)
  }

  /** The index the loop over the links builds: one empty set per node to start with, then,
      for each link, its source added to its target's dependencies and its target added to
      its source's dependents. */
  function IndexOf(nodes: seq<string>, links: seq<Link>): DependencyIndex {
    DependencyIndex(
      map n | n in TargetKeys(nodes, links) :: Distinct(SourcesInto(links, n)),
      map n | n in SourceKeys(nodes, links) :: Distinct(TargetsFrom(links, n)))
  }

  /** `Set.prototype.add` on a set kept as a duplicate-free sequence. */
  function Add(s: seq<string>, x: string): seq<string> {
    if x in s then s else s + [x]
  }

  /** The set stored under `k`, or the empty set that `if (!map.has(k)) map.set(k, new Set())`
      puts there. */
  function SetOrEmpty(m: map<string, seq<string>>, k: string): seq<string> {
    if k in m then m[k] else []
  }

  lemma SourcesIntoSnoc(links: seq<Link>, l: Link, n: string)
    ensures SourcesInto(links + [l], n) == SourcesInto(links, n) + if l.target == n then [l.source] else []
  {
    var ls := links + [l];
    assert ls[..|ls| - 1] == links;
  }

  lemma TargetsFromSnoc(links: seq<Link>, l: Link, n: string)
    ensures TargetsFrom(links + [l], n) == TargetsFrom(links, n) + if l.source == n then [l.target] else []
  {
    var ls := links + [l];
    assert ls[..|ls| - 1] == links;
  }

  lemma KeysSnoc(nodes: seq<string>, links: seq<Link>, l: Link)
    ensures TargetKeys(nodes, links + [l]) == TargetKeys(nodes, links) + {l.target}
    ensures SourceKeys(nodes, links + [l]) == SourceKeys(nodes, links) + {l.source}
  {
  }

  /** An id that is neither a node nor a link target has no dependencies yet. */
  lemma NoSourcesWhenAbsent(nodes: seq<string>, links: seq<Link>, n: string)
    requires n !in TargetKeys(nodes, links)
    ensures SourcesInto(links, n) == []
  {
    if SourcesInto(links, n) != [] {
      assert SourcesInto(links, n)[0] in SourcesInto(links, n);
    }
  }

  /** An id that is neither a node nor a link source has no dependents yet. */
  lemma NoTargetsWhenAbsent(nodes: seq<string>, links: seq<Link>, n: string)
    requires n !in SourceKeys(nodes, links)
    ensures TargetsFrom(links, n) == []
  {
    if TargetsFrom(links, n) != [] {
      assert TargetsFrom(links, n)[0] in TargetsFrom(links, n);
    }
  }

  lemma DependenciesAt(nodes: seq<string>, links: seq<Link>, l: Link, n: string)
    requires n in IndexOf(nodes, links + [l]).dependencies
    ensures n in IndexOf(nodes, links).dependencies || n == l.target
    ensures IndexOf(nodes, links + [l]).dependencies[n] ==
      if n == l.target then Add(SetOrEmpty(IndexOf(nodes, links).dependencies, n), l.source)
      else IndexOf(nodes, links).dependencies[n]
  {
    var ls := links + [l];
    KeysSnoc(nodes, links, l);
    var m0, m1 := IndexOf(nodes, links).dependencies, IndexOf(nodes, ls).dependencies;
    var before := SourcesInto(links, n);
    assert m1[n] == Distinct(SourcesInto(ls, n));
    SourcesIntoSnoc(links, l, n);
    if n == l.target {
      assert m1[n] == Add(Distinct(before), l.source) by {
        DistinctSnoc(before, l.source);
      }
      assert SetOrEmpty(m0, n) == Distinct(before) by {
        if n !in m0 {
          NoSourcesWhenAbsent(nodes, links, n);
        }
      }
    } else {
      assert SourcesInto(ls, n) == before;
    }
  }

  lemma DependentsAt(nodes: seq<string>, links: seq<Link>, l: Link, n: string)
    requires n in IndexOf(nodes, links + [l]).dependents
    ensures n in IndexOf(nodes, links).dependents || n == l.source
    ensures IndexOf(nodes, links + [l]).dependents[n] ==
      if n == l.source then Add(SetOrEmpty(IndexOf(nodes, links).dependents, n), l.target)
      else IndexOf(nodes, links).dependents[n]
  {
    var ls := links + [l];
    KeysSnoc(nodes, links, l);
    var m0, m1 := IndexOf(nodes, links).dependents, IndexOf(nodes, ls).dependents;
    var before := TargetsFrom(links, n);
    assert m1[n] == Distinct(TargetsFrom(ls, n));
    TargetsFromSnoc(links, l, n);
    if n == l.source {
      assert m1[n] == Add(Distinct(before), l.target) by {
        DistinctSnoc(before, l.target);
      }
      assert SetOrEmpty(m0, n) == Distinct(before) by {
        if n !in m0 {
          NoTargetsWhenAbsent(nodes, links, n);
        }
      }
    } else {
      assert TargetsFrom(ls, n) == before;
    }
  }

  /** One more link adds its source to its target's dependency set (created empty first when
      missing), exactly as one turn of the `forEach` does. */
  lemma DependenciesSnoc(nodes: seq<string>, links: seq<Link>, l: Link)
    ensures IndexOf(nodes, links + [l]).dependencies ==
      IndexOf(nodes, links).dependencies[l.target := Add(SetOrEmpty(IndexOf(nodes, links).dependencies, l.target), l.source)]
  {
    var before, after := IndexOf(nodes, links).dependencies, IndexOf(nodes, links + [l]).dependencies;
    var expected := before[l.target := Add(SetOrEmpty(before, l.target), l.source)];
    KeysSnoc(nodes, links, l);
    assert after.Keys == expected.Keys;
    forall n | n in after
      ensures after[n] == expected[n]
    {
      DependenciesAt(nodes, links, l, n);
    }
  }

  /** One more link adds its target to its source's dependent set (created empty first when
      missing), exactly as one turn of the `forEach` does. */
  lemma DependentsSnoc(nodes: seq<string>, links: seq<Link>, l: Link)
    ensures IndexOf(nodes, links + [l]).dependents ==
      IndexOf(nodes, links).dependents[l.source := Add(SetOrEmpty(IndexOf(nodes, links).dependents, l.source), l.target)]
  {
    var before, after := IndexOf(nodes, links).dependents, IndexOf(nodes, links + [l]).dependents;
    var expected := before[l.source := Add(SetOrEmpty(before, l.source), l.target)];
    KeysSnoc(nodes, links, l);
    assert after.Keys == expected.Keys;
    forall n | n in after
      ensures after[n] == expected[n]
    {
      DependentsAt(nodes, links, l, n);
    }
  }

  /** Before any link, every node has empty dependency and dependent sets. */
  lemma IndexOfNoLinks(nodes: seq<string>)
    ensures IndexOf(nodes, []).dependencies == map n | n in nodes :: []
    ensures IndexOf(nodes, []).dependents == map n | n in nodes :: []
  {
    assert TargetKeys(nodes, []) == set n | n in nodes;
    assert SourceKeys(nodes, []) == set n | n in nodes;
  }

  /** The index after one turn of the `forEach` over the links. */
  function AddLink(ix: DependencyIndex, l: Link): DependencyIndex {
    DependencyIndex(
      ix.dependencies[l.target := Add(SetOrEmpty(ix.dependencies, l.target), l.source)],
      ix.dependents[l.source := Add(SetOrEmpty(ix.dependents, l.source), l.target)])
  }

  /** Adding the links one at a time to empty sets for the nodes yields `IndexOf`. */
  lemma {:induction false} AddLinksGivesIndexOf(nodes: seq<string>, links: seq<Link>, i: nat)
    requires i < |links|
    ensures AddLink(IndexOf(nodes, links[..i]), links[i]) == IndexOf(nodes, links[..i + 1])
  {
    assert links[..i + 1] == links[..i] + [links[i]];
    DependenciesSnoc(nodes, links[..i], links[i]);
    DependentsSnoc(nodes, links[..i], links[i]);
  }

  /** Lines 26-38: the dependency and dependent sets, filled by one pass over the links. */
  method BuildDependencyIndex(nodes: seq<string>, links: seq<Link>) returns (ix: DependencyIndex)
    ensures ix == IndexOf(nodes, links)
  {
    var dependencies: map<string, seq<string>> := map n | n in nodes :: [];
    var dependents: map<string, seq<string>> := map n | n in nodes :: [];
    assert links[..0] == [];
    IndexOfNoLinks(nodes);
    for i := 0 to |links|
      invariant DependencyIndex(dependencies, dependents) == IndexOf(nodes, links[..i])
    {
      ghost var before := DependencyIndex(dependencies, dependents);
      var targetId, sourceId := links[i].target, links[i].source;
      if targetId !in dependencies { dependencies := dependencies[targetId := []]; }
      if sourceId !in dependents { dependents := dependents[sourceId := []]; }
      var sources, targets := dependencies[targetId], dependents[sourceId];
      assert sources == SetOrEmpty(before.dependencies, targetId);
      assert targets == SetOrEmpty(before.dependents, sourceId);
      dependencies := dependencies[targetId := Add(sources, sourceId)];
      dependents := dependents[sourceId := Add(targets, targetId)];
      assert dependencies == before.dependencies[targetId := Add(sources, sourceId)];
      assert dependents == before.dependents[sourceId := Add(targets, targetId)];
      AddLinksGivesIndexOf(nodes, links, i);
    }
    assert links[..|links|] == links;
    ix := DependencyIndex(dependencies, dependents);
  }

  /** A node is a root (an empty dependency set) exactly when no link targets it. */
  predicate IsRoot(links: seq<Link>, n: string) {
    forall l :: l in links ==> l.target != n
  }

  /** A dependent lists its source among its dependencies: both come from the same link. */
  lemma DependentDependsBack(nodes: seq<string>, links: seq<Link>, s: string, t: string)
    requires s in IndexOf(nodes, links).dependents && t in IndexOf(nodes, links).dependents[s]
    ensures s in IndexOf(nodes, links).dependencies[t]
  {
    assert t in TargetsFrom(links, s);
    var i :| 0 <= i < |links| && links[i].source == s && links[i].target == t;
    assert s in SourcesInto(links, t);
  }

  /** A node's dependency set is empty exactly when no link targets it. */
  lemma EmptyDependenciesIffRoot(nodes: seq<string>, links: seq<Link>, n: string)
    requires n in IndexOf(nodes, links).dependencies
    ensures IndexOf(nodes, links).dependencies[n] == [] <==> IsRoot(links, n)
  {
    var deps := IndexOf(nodes, links).dependencies[n];
    assert deps == Distinct(SourcesInto(links, n));
    if deps != [] {
      assert deps[0] in SourcesInto(links, n);
    }
    if !IsRoot(links, n) {
      var l :| l in links && l.target == n;
      var i :| 0 <= i < |links| && links[i] == l;
      assert l.source in SourcesInto(links, n);
    }
  }

  /** When every endpoint is a node, as it is for the nodes built from the same connections,
      the index has one entry per node, is well formed, and its empty dependency sets are
      exactly the roots. */
  lemma IndexWellFormed(nodes: seq<string>, links: seq<Link>)
    requires forall l :: l in links ==> l.source in nodes && l.target in nodes
    ensures IndexOf(nodes, links).WellFormed() && IndexOf(nodes, links).Mirrored()
    ensures IndexOf(nodes, links).dependencies.Keys == set n | n in nodes
    ensures forall n :: n in nodes ==> (IndexOf(nodes, links).dependencies[n] == [] <==> IsRoot(links, n))
  {
    var ix := IndexOf(nodes, links);
    assert TargetKeys(nodes, links) == set n | n in nodes;
    assert SourceKeys(nodes, links) == set n | n in nodes;
    forall s, t | s in ix.dependents && t in ix.dependents[s]
      ensures t in ix.dependencies && s in ix.dependencies[t]
    {
      assert t in TargetsFrom(links, s);
      var i :| 0 <= i < |links| && links[i].source == s && links[i].target == t;
      assert links[i] in links;
      DependentDependsBack(nodes, links, s, t);
    }
    forall n | n in nodes
      ensures ix.dependencies[n] == [] <==> IsRoot(links, n)
    {
      EmptyDependenciesIffRoot(nodes, links, n);
    }
  }

  // ---------------------------------------------------------------------------------------
  // The functional meaning of assignLevel (lines 43-58)

  /** `levels.get(depId) || 0`: an unassigned dependency counts as level 0. */
  function LevelOrZero(levels: map<string, nat>, d: string): nat {
    if d in levels then levels[d] else 0
  }

  /** `Math.max(floor, ...deps.map(d => (levels.get(d) || 0) + 1))`: the floor when there are
      no dependencies, otherwise the largest of the floor and one more than each dependency. */
  function LevelFrom(floor: nat, deps: seq<string>, levels: map<string, nat>): (r: nat)
    ensures r >= floor
    ensures forall d :: d in deps ==> r >= LevelOrZero(levels, d) + 1
    ensures r == floor || exists d :: d in deps && r == LevelOrZero(levels, d) + 1
    decreases |deps|
  {
    if deps == [] then floor
    else
      var rest := LevelFrom(floor, deps[1..], levels);
      var here := LevelOrZero(levels, deps[0]) + 1;
      assert forall d :: d in deps ==> d == deps[0] || d in deps[1..];
      if here > rest then here else rest
  }

  /** Every assigned level is 0 exactly for the nodes without dependencies. */
  ghost predicate Layered(ix: DependencyIndex, levels: map<string, nat>)
    requires levels.Keys <= ix.dependencies.Keys
  {
    forall k :: k in levels ==> (levels[k] == 0 <==> ix.dependencies[k] == [])
  }

  /** `assignLevel(id, floor)` run on `levels`: nothing when `id` was visited; otherwise `id`
      gets its level and each dependent, in set order, is assigned with one more as floor.
      It only ever adds indexed nodes (what it adds and keeps: `AssignCovers`). */
  function Assign(ix: DependencyIndex, levels: map<string, nat>, id: string, floor: nat): (r: map<string, nat>)
    requires ix.WellFormed() && levels.Keys <= ix.dependencies.Keys && id in ix.dependencies
    ensures levels.Keys <= r.Keys <= ix.dependencies.Keys
    decreases ix.dependencies.Keys - levels.Keys, 0
  {
    if id in levels then levels
    else
      var level := LevelFrom(floor, ix.dependencies[id], levels);
      var marked := levels[id := level];
      assert ix.dependencies.Keys - marked.Keys < ix.dependencies.Keys - levels.Keys by {
        assert id in ix.dependencies.Keys - levels.Keys;
      }
      AssignEach(ix, marked, ix.dependents[id], level + 1)
  }

  /** `dependents.forEach(t => assignLevel(t, floor))`, left to right. */
  function AssignEach(ix: DependencyIndex, levels: map<string, nat>, ts: seq<string>, floor: nat): (r: map<string, nat>)
    requires ix.WellFormed() && levels.Keys <= ix.dependencies.Keys
    requires forall t :: t in ts ==> t in ix.dependencies
    ensures levels.Keys <= r.Keys <= ix.dependencies.Keys
    decreases ix.dependencies.Keys - levels.Keys, 1, |ts|
  {
    if ts == [] then levels
    else AssignEach(ix, Assign(ix, levels, ts[0], floor), ts[1..], floor)
  }

  /** A call covers `id`, never changes a level already written (the `visited` check of
      line 44), and writes nothing below `floor`. */
  lemma {:induction false} AssignCovers(ix: DependencyIndex, levels: map<string, nat>, id: string, floor: nat)
    requires ix.WellFormed() && levels.Keys <= ix.dependencies.Keys && id in ix.dependencies
    ensures id in Assign(ix, levels, id, floor)
    ensures forall k :: k in levels ==> Assign(ix, levels, id, floor)[k] == levels[k]
    ensures forall k :: k in Assign(ix, levels, id, floor) && k !in levels ==> Assign(ix, levels, id, floor)[k] >= floor
    decreases ix.dependencies.Keys - levels.Keys, 0
  {
    if id !in levels {
      var level := LevelFrom(floor, ix.dependencies[id], levels);
      var marked := levels[id := level];
      assert ix.dependencies.Keys - marked.Keys < ix.dependencies.Keys - levels.Keys by {
        assert id in ix.dependencies.Keys - levels.Keys;
      }
      AssignEachCovers(ix, marked, ix.dependents[id], level + 1);
    }
  }

  /** The loop over dependents covers each of them, keeps what was written and writes
      nothing below `floor`. */
  lemma {:induction false} AssignEachCovers(ix: DependencyIndex, levels: map<string, nat>, ts: seq<string>, floor: nat)
    requires ix.WellFormed() && levels.Keys <= ix.dependencies.Keys
    requires forall t :: t in ts ==> t in ix.dependencies
    ensures forall t :: t in ts ==> t in AssignEach(ix, levels, ts, floor)
    ensures forall k :: k in levels ==> AssignEach(ix, levels, ts, floor)[k] == levels[k]
    ensures forall k :: k in AssignEach(ix, levels, ts, floor) && k !in levels ==> AssignEach(ix, levels, ts, floor)[k] >= floor
    decreases ix.dependencies.Keys - levels.Keys, 1, |ts|
  {
    if ts != [] {
      var next := Assign(ix, levels, ts[0], floor);
      AssignCovers(ix, levels, ts[0], floor);
      AssignEachCovers(ix, next, ts[1..], floor);
      assert forall t :: t in ts ==> t == ts[0] || t in ts[1..];
    }
  }

  /** The three bounds checked when a level is written (lines 47-51): at least the floor, at
      least one more than every dependency that already has a level, and at least 1 when
      there is any dependency. And each dependent first reached through this call (lines
      55-57) lies strictly below it. */
  lemma AssignBounds(ix: DependencyIndex, levels: map<string, nat>, id: string, floor: nat)
    requires ix.WellFormed() && levels.Keys <= ix.dependencies.Keys && id in ix.dependencies
    requires id !in levels
    ensures Assign(ix, levels, id, floor)[id] >= floor
    ensures forall d :: d in ix.dependencies[id] && d in levels ==>
      Assign(ix, levels, id, floor)[id] >= levels[d] + 1
    ensures ix.dependencies[id] != [] ==> Assign(ix, levels, id, floor)[id] >= 1
    ensures forall t :: t in ix.dependents[id] && t != id && t !in levels ==>
      t in Assign(ix, levels, id, floor) && Assign(ix, levels, id, floor)[t] >= Assign(ix, levels, id, floor)[id] + 1
  {
    var level := LevelFrom(floor, ix.dependencies[id], levels);
    var marked := levels[id := level];
    AssignEachCovers(ix, marked, ix.dependents[id], level + 1);
    var r := Assign(ix, levels, id, floor);
    assert r[id] == level;
    if ix.dependencies[id] != [] {
      assert ix.dependencies[id][0] in ix.dependencies[id];
    }
  }

  /** Writing levels keeps "level 0 exactly for the nodes without dependencies", provided a
      node without dependencies is only ever assigned with floor 0: dependents always have a
      dependency, so the recursion never reaches such a node. */
  lemma {:induction false} AssignLayered(ix: DependencyIndex, levels: map<string, nat>, id: string, floor: nat)
    requires ix.WellFormed() && ix.Mirrored() && levels.Keys <= ix.dependencies.Keys && id in ix.dependencies
    requires Layered(ix, levels) && (ix.dependencies[id] == [] ==> floor == 0)
    ensures Layered(ix, Assign(ix, levels, id, floor))
    decreases ix.dependencies.Keys - levels.Keys, 0
  {
    if id !in levels {
      var level := LevelFrom(floor, ix.dependencies[id], levels);
      var marked := levels[id := level];
      MarkLayered(ix, levels, id, floor);
      assert ix.dependencies.Keys - marked.Keys < ix.dependencies.Keys - levels.Keys by {
        assert id in ix.dependencies.Keys - levels.Keys;
      }
      DependentsHaveDependencies(ix, id);
      AssignEachLayered(ix, marked, ix.dependents[id], level + 1);
    }
  }

  /** The level written for `id` is 0 exactly when it has no dependencies (given floor 0 for
      such a node), so marking it keeps the property. */
  lemma MarkLayered(ix: DependencyIndex, levels: map<string, nat>, id: string, floor: nat)
    requires ix.WellFormed() && levels.Keys <= ix.dependencies.Keys && id in ix.dependencies
    requires Layered(ix, levels) && (ix.dependencies[id] == [] ==> floor == 0)
    ensures Layered(ix, levels[id := LevelFrom(floor, ix.dependencies[id], levels)])
  {
    if ix.dependencies[id] != [] {
      assert ix.dependencies[id][0] in ix.dependencies[id];
    }
  }

  /** A dependent always has a dependency: the node it was reached from. */
  lemma DependentsHaveDependencies(ix: DependencyIndex, id: string)
    requires ix.WellFormed() && ix.Mirrored() && id in ix.dependents
    ensures forall t :: t in ix.dependents[id] ==> t in ix.dependencies && ix.dependencies[t] != []
  {
    forall t | t in ix.dependents[id]
      ensures t in ix.dependencies && ix.dependencies[t] != []
    {
      assert id in ix.dependencies[t];
    }
  }

  /** The loop over dependents keeps the same property; every dependent has a dependency. */
  lemma {:induction false} AssignEachLayered(ix: DependencyIndex, levels: map<string, nat>, ts: seq<string>, floor: nat)
    requires ix.WellFormed() && ix.Mirrored() && levels.Keys <= ix.dependencies.Keys
    requires forall t :: t in ts ==> t in ix.dependencies && ix.dependencies[t] != []
    requires Layered(ix, levels)
    ensures Layered(ix, AssignEach(ix, levels, ts, floor))
    decreases ix.dependencies.Keys - levels.Keys, 1, |ts|
  {
    if ts != [] {
      AssignLayered(ix, levels, ts[0], floor);
      AssignEachLayered(ix, Assign(ix, levels, ts[0], floor), ts[1..], floor);
    }
  }

  /** Lines 60-64: `assignLevel(n, 0)` for each node with no dependencies, in node order. */
  function FirstPass(ix: DependencyIndex, levels: map<string, nat>, ns: seq<string>): (r: map<string, nat>)
    requires ix.WellFormed() && levels.Keys <= ix.dependencies.Keys
    requires forall n :: n in ns ==> n in ix.dependencies
    ensures levels.Keys <= r.Keys <= ix.dependencies.Keys
    decreases |ns|
  {
    if ns == [] then levels
    else
      var next := if ix.dependencies[ns[0]] == [] then Assign(ix, levels, ns[0], 0) else levels;
      FirstPass(ix, next, ns[1..])
  }

  /** Lines 66-70: `assignLevel(n)` (floor 0) for each node still without a level. */
  function SecondPass(ix: DependencyIndex, levels: map<string, nat>, ns: seq<string>): (r: map<string, nat>)
    requires ix.WellFormed() && levels.Keys <= ix.dependencies.Keys
    requires forall n :: n in ns ==> n in ix.dependencies
    ensures levels.Keys <= r.Keys <= ix.dependencies.Keys
    decreases |ns|
  {
    if ns == [] then levels
    else
      var next := if ns[0] !in levels then Assign(ix, levels, ns[0], 0) else levels;
      SecondPass(ix, next, ns[1..])
  }

  /** The root pass keeps the levels already written, gives every root among `ns` a level,
      and keeps "level 0 exactly for the roots". */
  lemma {:induction false} FirstPassFacts(ix: DependencyIndex, levels: map<string, nat>, ns: seq<string>)
    requires ix.WellFormed() && levels.Keys <= ix.dependencies.Keys
    requires forall n :: n in ns ==> n in ix.dependencies
    ensures forall k :: k in levels ==> FirstPass(ix, levels, ns)[k] == levels[k]
    ensures forall n :: n in ns && ix.dependencies[n] == [] ==> n in FirstPass(ix, levels, ns)
    ensures ix.Mirrored() && Layered(ix, levels) ==> Layered(ix, FirstPass(ix, levels, ns))
    decreases |ns|
  {
    if ns != [] {
      var next := if ix.dependencies[ns[0]] == [] then Assign(ix, levels, ns[0], 0) else levels;
      if ix.dependencies[ns[0]] == [] {
        AssignCovers(ix, levels, ns[0], 0);
        if ix.Mirrored() && Layered(ix, levels) {
          AssignLayered(ix, levels, ns[0], 0);
        }
      }
      FirstPassFacts(ix, next, ns[1..]);
      assert forall n :: n in ns ==> n == ns[0] || n in ns[1..];
    }
  }

  /** The sweep pass keeps the levels already written, gives every node of `ns` a level,
      and keeps "level 0 exactly for the roots". */
  lemma {:induction false} SecondPassFacts(ix: DependencyIndex, levels: map<string, nat>, ns: seq<string>)
    requires ix.WellFormed() && levels.Keys <= ix.dependencies.Keys
    requires forall n :: n in ns ==> n in ix.dependencies
    ensures forall k :: k in levels ==> SecondPass(ix, levels, ns)[k] == levels[k]
    ensures forall n :: n in ns ==> n in SecondPass(ix, levels, ns)
    ensures ix.Mirrored() && Layered(ix, levels) ==> Layered(ix, SecondPass(ix, levels, ns))
    decreases |ns|
  {
    if ns != [] {
      var next := if ns[0] !in levels then Assign(ix, levels, ns[0], 0) else levels;
      if ns[0] !in levels {
        AssignCovers(ix, levels, ns[0], 0);
        if ix.Mirrored() && Layered(ix, levels) {
          AssignLayered(ix, levels, ns[0], 0);
        }
      }
      SecondPassFacts(ix, next, ns[1..]);
      assert forall n :: n in ns ==> n == ns[0] || n in ns[1..];
    }
  }

  /** The level map `calculateNodeLevels` returns for an index and a node order. */
  function Levels(ix: DependencyIndex, nodes: seq<string>): map<string, nat>
    requires ix.WellFormed() && forall n :: n in nodes ==> n in ix.dependencies
  {
    SecondPass(ix, FirstPass(ix, map[], nodes), nodes)
  }

  /** The levels computed for a list of connections: one per node, 0 exactly for the nodes
      no link targets. */
  function NodeLevels(cs: seq<Connection>): (r: map<string, nat>)
    ensures r.Keys == set n | n in Nodes(cs)
    ensures forall n :: n in Nodes(cs) ==> (r[n] == 0 <==> IsRoot(Links(cs), n))
  {
    var nodes, links := Nodes(cs), Links(cs);
    EndpointsAreNodes(cs);
    IndexWellFormed(nodes, links);
    LevelsOfNodes(nodes, links);
    Levels(IndexOf(nodes, links), nodes)
  }

  /** Every link built from the connections has both endpoints among the nodes. */
  lemma EndpointsAreNodes(cs: seq<Connection>)
    ensures forall l :: l in Links(cs) ==> l.source in Nodes(cs) && l.target in Nodes(cs)
  {
    NodesAreEndpoints(cs);
    forall l | l in Links(cs)
      ensures l.source in Nodes(cs) && l.target in Nodes(cs)
    {
      var i :| 0 <= i < |Links(cs)| && Links(cs)[i] == l;
      assert cs[i].source == l.source && cs[i].target == l.target;
    }
  }

  /** What `calculateNodeLevels` promises: every node gets a level, nothing else does, and a
      node is at level 0 exactly when no link targets it. */
  lemma LevelsOfNodes(nodes: seq<string>, links: seq<Link>)
    requires forall l :: l in links ==> l.source in nodes && l.target in nodes
    ensures IndexOf(nodes, links).WellFormed()
    ensures Levels(IndexOf(nodes, links), nodes).Keys == set n | n in nodes
    ensures forall n :: n in nodes ==> (Levels(IndexOf(nodes, links), nodes)[n] == 0 <==> IsRoot(links, n))
  {
    var ix := IndexOf(nodes, links);
    IndexWellFormed(nodes, links);
    LevelsLayered(ix, nodes);
    var lv := Levels(ix, nodes);
    forall n | n in nodes
      ensures lv[n] == 0 <==> IsRoot(links, n)
    {
      assert lv[n] == 0 <==> ix.dependencies[n] == [];
    }
  }

  /** On any index, both passes together give every node a level, and level 0 exactly to the
      nodes without dependencies. */
  lemma LevelsLayered(ix: DependencyIndex, nodes: seq<string>)
    requires ix.WellFormed() && ix.Mirrored() && forall n :: n in nodes ==> n in ix.dependencies
    ensures forall n :: n in nodes ==> n in Levels(ix, nodes)
    ensures Layered(ix, Levels(ix, nodes))
  {
    var first := FirstPass(ix, map[], nodes);
    FirstPassFacts(ix, map[], nodes);
    SecondPassFacts(ix, first, nodes);
  }

  // ---------------------------------------------------------------------------------------
  // The stateful recursion

  /** The mutable state of one `calculateNodeLevels` call: the index it built, the `levels`
      Map and the `visited` Set. */
  class LevelAssigner {
    const index: DependencyIndex
    var levels: map<string, nat>
    var visited: set<string>

    /** `visited` and the keys of `levels` agree between calls, and only indexed nodes are
        ever visited. */
    ghost predicate Valid()
      reads this
    {
      && index.WellFormed()
      && visited == levels.Keys
      && levels.Keys <= index.dependencies.Keys
    }

    constructor (ix: DependencyIndex)
      requires ix.WellFormed()
      ensures Valid() && index == ix && levels == map[] && visited == {}
    {
      index := ix;
      levels := map[];
      visited := {};
    }

    /** `assignLevel(id, floor)`. It terminates on every graph, cycles included, because each
        call that does work first adds `id` to `visited`. */
    method AssignLevel(id: string, floor: nat)
      requires Valid() && id in index.dependencies
      modifies this
      ensures Valid()
      ensures levels == Assign(index, old(levels), id, floor)
      ensures forall k :: k in old(levels) ==> k in levels && levels[k] == old(levels)[k]
      decreases index.dependencies.Keys - visited
    {
      if id in visited {
        assert Assign(index, levels, id, floor) == levels;
        return;
      }
      ghost var before := levels;
      assert id !in before;
      visited := visited + {id};
      var currentLevel := LevelFrom(floor, index.dependencies[id], levels);
      levels := levels[id := currentLevel];
      ghost var start := levels;
      var ts := index.dependents[id];
      for i := 0 to |ts|
        invariant Valid()
        invariant old(visited) + {id} <= visited
        invariant AssignEach(index, levels, ts[i..], currentLevel + 1) == AssignEach(index, start, ts, currentLevel + 1)
      {
        assert ts[i..][1..] == ts[i + 1..];
        AssignLevel(ts[i], currentLevel + 1);
      }
      assert ts[|ts|..] == [];
      assert levels == AssignEach(index, start, ts, currentLevel + 1);
      AssignCovers(index, before, id, floor);
    }
  }

  /** `calculateNodeLevels()`: build the index, run the root pass and the sweep pass. Every
      node gets exactly one level, and a node's level is 0 exactly when no link targets it. */
  method CalculateNodeLevels(nodes: seq<string>, links: seq<Link>) returns (levels: map<string, nat>)
    requires forall l :: l in links ==> l.source in nodes && l.target in nodes
    ensures IndexOf(nodes, links).WellFormed()
    ensures levels == Levels(IndexOf(nodes, links), nodes)
    ensures levels.Keys == set n | n in nodes
    ensures forall n :: n in nodes ==> (levels[n] == 0 <==> IsRoot(links, n))
  {
    var ix := BuildDependencyIndex(nodes, links);
    LevelsOfNodes(nodes, links);
    var assigner := new LevelAssigner(ix);
    for i := 0 to |nodes|
      invariant assigner.Valid() && assigner.index == ix
      invariant FirstPass(ix, assigner.levels, nodes[i..]) == FirstPass(ix, map[], nodes)
    {
      assert nodes[i..][1..] == nodes[i + 1..];
      if ix.dependencies[nodes[i]] == [] {
        assigner.AssignLevel(nodes[i], 0);
      }
    }
    assert nodes[|nodes|..] == [];
    ghost var afterRoots := assigner.levels;
    for i := 0 to |nodes|
      invariant assigner.Valid() && assigner.index == ix
      invariant SecondPass(ix, assigner.levels, nodes[i..]) == SecondPass(ix, afterRoots, nodes)
    {
      assert nodes[i..][1..] == nodes[i + 1..];
      if nodes[i] !in assigner.levels {
        assigner.AssignLevel(nodes[i], 0);
      }
    }
    assert nodes[|nodes|..] == [];
    levels := assigner.levels;
  }
}
