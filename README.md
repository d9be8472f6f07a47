# NetworkGraph layering core, modelled in Dafny

`src/components/NetworkGraph.jsx` draws a task dependency graph. It does four computations
whose results feed d3. This project models those four and proves what they promise:

- **Graph construction** (lines 13-21). It builds the `nodeInfo` lookup from the metric rows, the
  distinct link `types`, the distinct node ids and the `links`. JavaScript's
  `Array.from(new Set(xs))` becomes `Sequences.Distinct`, a fold that keeps first-seen order.
- **Level assignment** (`calculateNodeLevels`, lines 25-73). It has three steps:
  - the loop over the links fills the dependency and dependent sets
    (`LevelAssigner.BuildDependencyIndex`);
  - the recursive `assignLevel` is the method `LevelAssigner.LevelAssigner.AssignLevel`, on an
    object holding the `levels` map and the `visited` set;
  - the two `forEach` passes are `LevelAssigner.CalculateNodeLevels`.
  
  Each method is proved equal to a functional specification: `IndexOf`, `Assign`/`AssignEach`,
  and `FirstPass`/`SecondPass`. The properties are proved about those functions: termination on
  any graph, never overwriting a level, coverage of every node, level 0 exactly for the roots,
  and the three bounds checked when a level is written. Worked examples (`LevelExamples`) follow
  the code on a diamond, a two-node cycle and a graph where a link does not point downwards.
- **Layout targets** (lines 76-79, 88-91, 305-313). These are `maxLevel`, the level spacing and the
  y target `(level + 1) * chartHeight / (maxLevel + 2)` used by both the initial and the reset
  `forceY`. They are computed on exact `real` numbers.
- **Marker ids** (lines 124-145). `type.replace(/[\s&]/g, "_")` is used to define each arrow
  marker and to refer to it from each link.

A connection's `type` field is called `kind` in the model, because `type` is a Dafny keyword.

Behaviour of the code that the model keeps:
- The level of a node is not always above the levels of all its dependencies. The code keeps the
  level a node got on its first visit: for A → B, A → C, C → B it gives B = 1 and C = 1
  (`LevelExamples.SkewLevels`). Only the bounds checked at assignment time hold in general
  (`LevelAssigner.AssignBounds`). The model follows the code here, not the stronger aim of
  placing every node below all of its dependencies.
- In a cycle with no root, no node gets level 0. Where the cycle is entered depends on the
  node order and on the recursion: for A → B, B → A the sweep pass starts at A, the first node,
  which counts its unassigned dependency as 0, giving A = 1, B = 2
  (`LevelExamples.CycleLevels`). In general an earlier unassigned node can reach the cycle by
  recursion first and enter it at another of its nodes.

## Model

| member | source | states |
|---|---|---|
| `Sequences.Distinct` | src/components/NetworkGraph.jsx:19-20 | the de-duplicated list holds exactly the elements of its input |
| `Sequences.DistinctIsFirstSeen` | src/components/NetworkGraph.jsx:19-20 | the de-duplicated list has no repeats and lists elements in the order of their first occurrence |
| `GraphBuilder.BuildNodeInfo` | src/components/NetworkGraph.jsx:13-17 | every metric row's task has an entry, no other key does, and the entry for a task is the last row naming it |
| `GraphBuilder.KindsOf` | src/components/NetworkGraph.jsx:19 | one type per connection, in connection order |
| `GraphBuilder.Endpoints` | src/components/NetworkGraph.jsx:20 | two ids per connection, source then target, in connection order |
| `GraphBuilder.Links` | src/components/NetworkGraph.jsx:21 | one link per connection, in order, with the same source, target and type |
| `GraphBuilder.Types` | src/components/NetworkGraph.jsx:19 | defined as `Distinct(KindsOf(cs))`; its contents and uniqueness are stated by `TypesAreKinds`, its first-seen order by `DistinctIsFirstSeen` |
| `GraphBuilder.Nodes` | src/components/NetworkGraph.jsx:20 | defined as `Distinct(Endpoints(cs))`; its contents and uniqueness are stated by `NodesAreEndpoints`, its order by `DistinctIsFirstSeen` and `SourceBeforeTarget` |
| `GraphBuilder.TypesAreKinds` | src/components/NetworkGraph.jsx:19 | `types` has no repeats and contains a type exactly when some connection has it |
| `GraphBuilder.NodesAreEndpoints` | src/components/NetworkGraph.jsx:20 | `nodes` has no repeats and contains an id exactly when it is some connection's source or target, so a task that only has metrics is no node |
| `GraphBuilder.SourceBeforeTarget` | src/components/NetworkGraph.jsx:20 | when a connection introduces both its endpoints, its source comes before its target in `nodes` |
| `LevelAssigner.SourcesInto` | src/components/NetworkGraph.jsx:29-38 | an id is among the sources gathered for `n` exactly when some link goes from it into `n` |
| `LevelAssigner.TargetsFrom` | src/components/NetworkGraph.jsx:29-38 | an id is among the targets gathered for `n` exactly when some link goes from `n` to it |
| `LevelAssigner.IndexOf` | src/components/NetworkGraph.jsx:26-38 | defined declaratively: each node's dependency set is the de-duplicated sources of the links into it, and its dependent set the de-duplicated targets of the links out of it; `BuildDependencyIndex`, `IndexWellFormed` and `EmptyDependenciesIffRoot` carry its properties |
| `LevelAssigner.AddLink` | src/components/NetworkGraph.jsx:29-38 | one turn of the link loop, defined as the create-if-missing plus `Set.add` on both maps; `DependenciesSnoc`, `DependentsSnoc` and `AddLinksGivesIndexOf` state what it does to the index |
| `LevelAssigner.IndexOfNoLinks` | src/components/NetworkGraph.jsx:26-27 | before any link, every node has an empty dependency set and an empty dependent set |
| `LevelAssigner.DependenciesSnoc` | src/components/NetworkGraph.jsx:29-38 | one more link adds its source to its target's dependency set, creating the set first if missing, and changes nothing else |
| `LevelAssigner.DependentsSnoc` | src/components/NetworkGraph.jsx:29-38 | one more link adds its target to its source's dependent set, creating the set first if missing, and changes nothing else |
| `LevelAssigner.AddLinksGivesIndexOf` | src/components/NetworkGraph.jsx:29-38 | one turn of the loop over the links takes the index of a prefix to the index of the prefix one longer |
| `LevelAssigner.BuildDependencyIndex` | src/components/NetworkGraph.jsx:26-38 | the loop returns exactly the index `IndexOf(nodes, links)`: each node's sets list the other endpoints of its links, in link order, without repeats |
| `LevelAssigner.DependentDependsBack` | src/components/NetworkGraph.jsx:36-37 | if `t` is a dependent of `s`, then `s` is a dependency of `t` |
| `LevelAssigner.EmptyDependenciesIffRoot` | src/components/NetworkGraph.jsx:29-38 | a node's dependency set is empty exactly when no link targets it |
| `LevelAssigner.IndexWellFormed` | src/components/NetworkGraph.jsx:26-38 | when every endpoint is a node, both maps have exactly the nodes as keys, every dependent points back, and an empty dependency set means a root |
| `LevelAssigner.LevelFrom` | src/components/NetworkGraph.jsx:47-51 | the level is at least the floor and at least one more than each dependency's level, with an unassigned dependency counting as 0, and it equals one of these candidates |
| `LevelAssigner.LevelOrZero` | src/components/NetworkGraph.jsx:50 | the fallback to 0 for a dependency without a level, defined as the stored level or 0 when there is none; used inside `LevelFrom`, whose ensures states the resulting bounds |
| `LevelAssigner.Assign` | src/components/NetworkGraph.jsx:43-58 | a call only adds levels, and only for indexed nodes; it is well-founded on the set of unvisited nodes, so it terminates on any graph, cycles included |
| `LevelAssigner.AssignEach` | src/components/NetworkGraph.jsx:55-57 | the loop over the dependents only adds levels, and only for indexed nodes |
| `LevelAssigner.AssignCovers` | src/components/NetworkGraph.jsx:43-53 | after a call the node has a level, no level written before has changed, and every new level is at least the floor |
| `LevelAssigner.AssignEachCovers` | src/components/NetworkGraph.jsx:55-57 | after the loop every dependent has a level, no earlier level has changed, and every new level is at least the floor |
| `LevelAssigner.AssignBounds` | src/components/NetworkGraph.jsx:47-57 | a newly visited node's level is at least the floor, at least one more than each dependency that already has a level, and at least 1 if it has a dependency; each dependent first reached through it is at least one level deeper |
| `LevelAssigner.MarkLayered` | src/components/NetworkGraph.jsx:47-53 | writing a node's level keeps "level 0 exactly when there are no dependencies", provided a node without dependencies is assigned with floor 0 |
| `LevelAssigner.DependentsHaveDependencies` | src/components/NetworkGraph.jsx:55-56 | every dependent has at least one dependency, so the recursion never reaches a root |
| `LevelAssigner.AssignLayered` | src/components/NetworkGraph.jsx:43-58 | a whole call keeps "level 0 exactly for the nodes without dependencies" |
| `LevelAssigner.AssignEachLayered` | src/components/NetworkGraph.jsx:55-57 | the loop over the dependents keeps the same property |
| `LevelAssigner.FirstPass` | src/components/NetworkGraph.jsx:60-64 | the root pass only adds levels for indexed nodes |
| `LevelAssigner.SecondPass` | src/components/NetworkGraph.jsx:66-70 | the sweep pass only adds levels for indexed nodes |
| `LevelAssigner.FirstPassFacts` | src/components/NetworkGraph.jsx:60-64 | the root pass keeps earlier levels, gives every root a level, and keeps level 0 exactly for the roots |
| `LevelAssigner.SecondPassFacts` | src/components/NetworkGraph.jsx:66-70 | the sweep pass keeps earlier levels, gives every node a level, and keeps level 0 exactly for the roots |
| `LevelAssigner.LevelsLayered` | src/components/NetworkGraph.jsx:60-70 | after both passes every node has a level, and level 0 is given exactly to the nodes without dependencies |
| `LevelAssigner.Levels` | src/components/NetworkGraph.jsx:60-72 | defined as the sweep pass applied to the root pass from an empty map; `LevelsLayered` and `LevelsOfNodes` state its keys and its roots, `CalculateNodeLevels` is proved equal to it |
| `LevelAssigner.LevelsOfNodes` | src/components/NetworkGraph.jsx:25-73 | the computed levels have exactly the nodes as keys, and a node's level is 0 exactly when no link targets it |
| `LevelAssigner.EndpointsAreNodes` | src/components/NetworkGraph.jsx:20-21 | every link built from the connections has both endpoints among the nodes |
| `LevelAssigner.NodeLevels` | src/components/NetworkGraph.jsx:75 | `nodeLevels` has one entry per node, and an entry is 0 exactly for the nodes no link targets |
| `LevelAssigner.LevelAssigner.constructor` | src/components/NetworkGraph.jsx:40-41 | the level map and the visited set start empty |
| `LevelAssigner.LevelAssigner.AssignLevel` | src/components/NetworkGraph.jsx:43-58 | the in-place recursion leaves `levels` equal to `Assign` of the old levels, keeps every earlier level, and keeps `visited` equal to the assigned nodes; it terminates because each working call visits a new node |
| `LevelAssigner.CalculateNodeLevels` | src/components/NetworkGraph.jsx:25-73 | the returned map equals `Levels` of the built index, has exactly the nodes as keys, and gives 0 exactly to the nodes no link targets |
| `LevelExamples.IndexOfIsAddLinks` | src/components/NetworkGraph.jsx:29-38 | the index equals the links added one at a time to empty sets |
| `LevelExamples.DiamondIndexBuilt` | src/components/NetworkGraph.jsx:26-38 | for A → B, B → C, A → D, D → C the loop builds dependencies C: [B, D] and dependents A: [B, D], and so on |
| `LevelExamples.DiamondLevels` | src/components/NetworkGraph.jsx:25-73 | the diamond gets A = 0, B = 1, D = 1, C = 2 |
| `LevelExamples.DiamondGraph` | src/components/NetworkGraph.jsx:20-21 | the diamond's connection records give the nodes A, B, C, D in that order and the four links in order |
| `LevelExamples.DiamondNodeLevels` | src/components/NetworkGraph.jsx:19-75 | run on the diamond's connection records, `nodeLevels` is A = 0, B = 1, C = 2, D = 1 |
| `LevelExamples.CycleIndexBuilt` | src/components/NetworkGraph.jsx:26-38 | for A → B, B → A each node is the other's only dependency and only dependent |
| `LevelExamples.CycleLevels` | src/components/NetworkGraph.jsx:25-73 | the two-node cycle terminates with A = 1 and B = 2 |
| `LevelExamples.CycleGraph` | src/components/NetworkGraph.jsx:20-21 | the cycle's connection records give the nodes A, B in that order, which decides that this example's sweep pass enters the cycle at A |
| `LevelExamples.CycleNodeLevels` | src/components/NetworkGraph.jsx:19-75 | run on the cycle's connection records, `nodeLevels` is A = 1, B = 2 |
| `LevelExamples.SkewIndexBuilt` | src/components/NetworkGraph.jsx:26-38 | for A → B, A → C, C → B the loop builds dependencies B: [A, C] and dependents A: [B, C] |
| `LevelExamples.SkewLevels` | src/components/NetworkGraph.jsx:25-73 | the result is A = 0, B = 1, C = 1, so the link C → B does not point downwards |
| `LevelExamples.SkewGraph` | src/components/NetworkGraph.jsx:20-21 | the skew graph's connection records give the nodes A, B, C in that order and the three links in order |
| `LevelExamples.SkewNodeLevels` | src/components/NetworkGraph.jsx:19-75 | run on the skew graph's connection records, `nodeLevels` is A = 0, B = 1, C = 1 |
| `Layout.MaxLevel` | src/components/NetworkGraph.jsx:76 | `maxLevel` is at least every node's level and is the level of some node |
| `Layout.VerticalSpacing` | src/components/NetworkGraph.jsx:78-79 | the spacing is positive, and `maxLevel + 2` spacings make up exactly the chart height |
| `Layout.TargetY` | src/components/NetworkGraph.jsx:88-91 | defined as `(level + 1) * verticalSpacing`; `TargetYIncreasing` and `TargetYInside` state its order and its range |
| `Layout.TargetYIncreasing` | src/components/NetworkGraph.jsx:88-91 | the y target strictly increases with the level |
| `Layout.TargetYInside` | src/components/NetworkGraph.jsx:88-91 | for every level up to `maxLevel` the target lies strictly between 0 and the chart height |
| `Layout.NodeTargetY` | src/components/NetworkGraph.jsx:88-91 | the target of one node, shared by the initial force and the reset force at lines 307-309: `TargetY` of its level in `nodeLevels` under the graph's `maxLevel`; `NodeTargetsOrdered` states its range and order |
| `Layout.NodeTargetsOrdered` | src/components/NetworkGraph.jsx:305-313 | every node's target, in the initial force and in the reset one, lies strictly inside the chart; a deeper node is pulled strictly lower; a root is pulled to one spacing from the top |
| `Layout.NodesNonEmpty` | src/components/NetworkGraph.jsx:76 | any non-empty connection list gives at least one node, so the maximum is taken over at least one level |
| `Markers.Sanitize` | src/components/NetworkGraph.jsx:127 | same length as the type; each whitespace character or `&` becomes `_`, and every other character is kept in place |
| `Markers.IsJsWhitespace` | src/components/NetworkGraph.jsx:127 | the characters the JavaScript class `\s` matches, listed by code point (tab to carriage return, space, no-break space, the Unicode space separators, line and paragraph separators, byte-order mark); used by `Sanitize`, whose ensures states the replacement |
| `Markers.SanitizeClean` | src/components/NetworkGraph.jsx:127 | a sanitised id contains no whitespace and no `&`, and sanitising it again changes nothing |
| `Markers.SanitizeMerges` | src/components/NetworkGraph.jsx:145 | the types "a b", "a\tb", "a&b" and "a_b" share the marker id suffix "a_b" |
| `Markers.MarkerId` | src/components/NetworkGraph.jsx:127 | a marker id is `arrow-` followed by the type with each whitespace character or `&` replaced by `_` and every other character kept in place |
| `Markers.MarkerIds` | src/components/NetworkGraph.jsx:124-127 | one marker id per entry of `types`, in order |
| `Markers.MarkerRef` | src/components/NetworkGraph.jsx:145 | defined as `url(#` + `MarkerId` of the link's type + `)`; `LinkMarkersDefined` states which marker it names |
| `Markers.LinkMarkersDefined` | src/components/NetworkGraph.jsx:124-145 | each link's `url(#...)` holds the id defined for the entry of `types` equal to the link's own type, and such an entry exists because every link type is among `types` |

## Left out

- The d3 force simulation is not part of this model: forces, strengths, `alpha`, `restart` and tick updates (lines 81-91, 305-313, 323-326). It is an external physics engine with floating-point integration. Only the target function it is given is modelled.
- SVG and DOM construction, the colour scale, the legend and the reset button (lines 93-169, 287-303, 329-353) are left out. They are rendering only.
- The click panel and its transition (lines 173-237) and `wrapText` (lines 239-258) are left out. They depend on DOM text measurement and animation callbacks.
- The drag handlers (lines 262-284) are left out. They are d3 event plumbing.
- `linkArc` (lines 315-321) is left out. It is floating-point geometry.
- Object-valued link endpoints (lines 30-31) are not modelled. Endpoints are still plain ids when levels are computed, so links are records of ids. The same holds for the `Object.create` prototype copy (line 21) and for nodes being wrapped as `{ id }` objects (line 20).
- `nodeInfo` is a map, not a JavaScript object. The special behaviour of a task named `__proto__` is not modelled.
- `LevelAssigner.CalculateNodeLevels`: requires every link endpoint to be a node. This holds for the links built from the same connections (`LevelAssigner.EndpointsAreNodes`), which is the only way the function is called. For other inputs the JavaScript does not always fail: a source outside the nodes that is never a target is never visited, and its target counts it as 0 at line 50. It throws at line 55 only when it reaches a target that is outside the nodes and is no link's source, since only such an id has no dependent set (line 34 creates one for every source). The model does not cover these inputs. The link loop itself is modelled without this condition, including the set creation of lines 33-34.
- `Layout.MaxLevel`: requires at least one node. With no connections `Math.max()` returns `-Infinity`, and the spacing it would feed is never used because there are no nodes.
- `Layout.MaxLevel` takes the levels in node order rather than the Map's insertion order. The maximum does not depend on the order.
- Numbers are exact: levels are unbounded naturals, and the spacing and targets are exact rationals, not IEEE doubles. The JavaScript rounds twice: the division `chartHeight / (maxLevel + 2)` at line 78 and the multiplication `(level + 1) * verticalSpacing` at lines 90 and 309. The model has neither rounding.
- Strings are sequences of Unicode characters, not UTF-16 code units. Every character that `\s` matches lies in the Basic Multilingual Plane, so on well-formed strings the replacement is the same; only lengths counted in code units differ. A JavaScript string may also hold a lone surrogate, which the `replace` at line 127 keeps but a Dafny `char` cannot hold; such types are not modelled.
- Connection records with a missing field are not modelled: the fields are `string`, so they cannot be `undefined`. In JavaScript an undefined `type` makes `d.replace` throw at line 127, and an undefined endpoint becomes a node with id `undefined`.
- `LevelAssigner.LevelAssigner.AssignLevel` and `LevelAssigner.Assign` have no depth limit. The JavaScript recursion at line 56 runs on the call stack, so a long enough dependency chain throws a stack overflow.
