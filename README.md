# topsort in Dafny

A model of `topsort(edges, options)` from the `topsort` TypeScript library,
with proofs of what it promises.

The input is a list of groups. A group `[from, to1, to2, ...]` says that
`from` must come before every `to`. `topsort` works in two phases:

1. It builds a dictionary of `EdgeNode`s keyed by identity. The node of
   `from` collects every other element of its group in its `afters`.
2. It sorts the keys descending (`sortDesc`). It then runs a depth-first
   `visit` from each key, carrying the path of ancestors. On each node it
   sorts that node's `afters` in place, visits them in order, and puts the
   node in front of the output.

An `after` already on the path closes a cycle. By default `topsort` throws
on it. With `continueOnCircularDependency` it skips that after and goes on.

The modules follow that structure:

- `Order` (`order.dfy`) covers the string order `<`, the `sortDesc`
  comparator, and sorting by it.
- `Graphs` (`graph.dfy`) covers the dependency graph (each key maps to its
  afters): paths, reachability, cycles and topological orders.
- `Build` (`build.dfy`) covers phase 1 as functions (`BuildNodes`). It also
  gives a reference definition from the input alone (`Ids`, `AftersOf`,
  `ConstraintGraph`) and proves the two equal.
- `Dfs` (`dfs.dfy`) covers phase 2 as functions (`Visit`, `VisitAfters`,
  `VisitRoots`), with the walk invariant.
- `TopSort` (`topsort.dfy`) is the imperative model. Class `Sorter` holds
  the closure state of the source (`nodes`, `visited`, `sorted`, the
  option). Its methods `AddEdge`, `AddEdges`, `Visit`, `VisitAfters` and
  `Sort` are the loops and the recursive `visit`. Each is proved to compute
  what the functions say. `TopSort` returns exactly `TopSortSpec`.
- `Properties` (`properties.dfy`) holds the promises to callers, proved of
  `TopSortSpec`: permutation, constraints honoured, cycles reported, and the
  behaviour of the two modes.
- `Scenarios` (`scenarios.dfy`) works the library's own test inputs out on
  the model.

Identities are strings. The key of a node is the string form of its
identity, so the identity, the key and the value `sortDesc` compares are the
same string. A thrown `Error` is the result `CircularDependency(id, after)`,
which carries the two identities the message names. The `TypeError` on an
empty group (its `edge[0]` is `undefined`) is the result `EmptyEdge(index)`,
which names the first empty group.

## Model

| member | source | states |
|---|---|---|
| Order.Less | src/topsort.ts:18-21 | The string order `<` never holds between equal strings, and a proper prefix is smaller than the string it begins. |
| Order.SortDesc | src/topsort.ts:17-26 | The comparator returns 0 exactly on equal strings, 1 exactly when `a < b`, and -1 exactly when `b < a`. |
| Order.LessTrichotomy | src/topsort.ts:17-26 | Two strings are equal or ordered one way, and never ordered both ways, so the comparator's "must be equal" fall-through is right. |
| Order.LessTransitive | src/topsort.ts:17-26 | The order `sortDesc` is built on is transitive. |
| Order.SortDescDescending | src/topsort.ts:17-26 | A list is descending exactly when `sortDesc` never returns a positive value for an element and one after it (both directions), so `Descending` is the order `sort(sortDesc)` produces. |
| Order.Insert | src/topsort.ts:74 | One step of the sort adds exactly the inserted element to the list, as a multiset. |
| Order.SortedDesc | src/topsort.ts:74 | Sorting with `sortDesc` returns a permutation of its input. |
| Order.SortedDescIsSorted | src/topsort.ts:74 | The sorted list is descending: no element is smaller than one after it. |
| Order.SortedDescUnique | src/topsort.ts:89 | Two descending lists with the same elements are equal, so the result of `sort(sortDesc)` does not depend on the sorting algorithm. |
| Order.SortedDescCharacterized | src/topsort.ts:89 | A list is the sorted afters exactly when it is descending and a permutation (both directions). |
| Build.Ensure | src/topsort.ts:52-54 | Looking up or creating a node adds exactly that key, and the node keeps its afters when it already existed and has none otherwise. |
| Build.Push | src/topsort.ts:59-68 | One group element adds its key; the leader's afters grow by that element, unless it is the leader itself. |
| Build.AddTargets | src/topsort.ts:56-69 | The inner loop adds a key for each element of the group, and the leader's afters grow by the group with the leader's own occurrences removed. |
| Build.AddEdge | src/topsort.ts:47-69 | One non-empty group adds a key for each of its identities, and the leader's afters are its old afters (none for a new node) followed by the rest of the group. |
| Build.BuildNodes | src/topsort.ts:45-70 | When the build fails, the group it names exists and is empty. |
| Build.EnsureEffect | src/topsort.ts:52-54 | Looking up or creating a node adds exactly that key, keeps existing nodes and their afters, and keeps the key list free of repeats. |
| Build.PushKeys | src/topsort.ts:63-67 | One group element gets a node if it had none; the key list still enumerates the dictionary once each. |
| Build.PushAfters | src/topsort.ts:59-68 | One group element is skipped when it is the leader and is otherwise appended to the leader's afters; no other node changes. |
| Build.PushClosed | src/topsort.ts:63-68 | After one element, every after still has a node. |
| Build.AddTargetsKeys | src/topsort.ts:56-69 | The inner loop keeps the key list a listing of the dictionary's keys, each exactly once. |
| Build.AddTargetsAfters | src/topsort.ts:56-69 | The inner loop appends the group's non-leader elements, in order and with repeats, to the leader's afters only. |
| Build.AddTargetsClosed | src/topsort.ts:56-69 | The inner loop leaves no after without a node. |
| Build.AddEdgeEffect | src/topsort.ts:45-70 | One group adds a node for each of its identities, keeps existing nodes, and grows only the leader's afters, by the rest of the group. |
| Build.BuildNodesCorrect | src/topsort.ts:45-70 | The finished dictionary has a node for every identity named anywhere and no other. Each node's afters are the non-leader elements of every group it leads, in input order. |
| Build.BuildNodesFails | src/topsort.ts:45-48 | The build fails exactly when some group is empty, and then at the first empty group. |
| Build.EmptyAtSticks | src/topsort.ts:45-48 | Once a prefix of the input has failed, the whole input fails at the same group. |
| Build.BuiltGraph | src/topsort.ts:45-74 | A successful build holds exactly the constraint graph, and its sorted keys list the identities named, once each. |
| Build.WithoutElems | src/topsort.ts:59-61 | An element survives the leader filter exactly when it is in the group and is not the leader. |
| Build.AftersOfConstraint | src/topsort.ts:56-68 | `y` is an after of `x` exactly when some group led by `x` names `y` and `y` is not `x`. |
| Dfs.Visit | src/topsort.ts:75-105 | A completed visit only adds visited keys, and only keys of the graph. |
| Dfs.VisitAfters | src/topsort.ts:90-102 | A completed walk of the afters only adds visited keys, and only keys of the graph. |
| Dfs.VisitRoots | src/topsort.ts:73-75 | A completed walk of the roots only adds visited keys, and only keys of the graph. |
| Dfs.SortedAfters | src/topsort.ts:89 | Sorting a node's afters neither adds nor loses an identity, and every after is a node. |
| Dfs.VisitSound | src/topsort.ts:75-105 | A visit keeps the walk invariant and leaves its key visited. The invariant: each visited key is either finished (in `sorted`, once) or on the path; the path follows edges; and every edge out of a finished key points further right unless it closes a cycle in continue mode. Otherwise the visit reports, in strict mode only, an edge whose target reaches its source. |
| Dfs.VisitAftersSound | src/topsort.ts:90-102 | Walking the afters keeps the invariant and finishes each after (or skips it on the path in continue mode), or reports a cycle-closing edge in strict mode. |
| Dfs.VisitRootsSound | src/topsort.ts:73-75 | Walking the roots with empty paths keeps the invariant and visits every root, or reports a cycle-closing edge in strict mode. |
| Dfs.VisitStrictAgrees | src/topsort.ts:92-95 | A visit that completes in strict mode gives the same result in continue mode. |
| Dfs.VisitAftersStrictAgrees | src/topsort.ts:90-102 | The same, for the walk of a node's afters. |
| Dfs.VisitRootsStrictAgrees | src/topsort.ts:75 | The same, for the walk of the roots. |
| TopSort.Outcome | src/topsort.ts:97-107 | A walk never ends in the empty-group failure; it throws exactly when the walk found a cycle-closing edge. |
| TopSort.TopSortSpec | src/topsort.ts:35-108 | `topsort` fails on an empty group exactly when the input has one (both directions), and the group it names is empty. |
| TopSort.ReportsOutcome | src/topsort.ts:97 | Proof step of the `TopSort` method: the result of a reported walk is the thrown pair when there is one, and otherwise the output. |
| TopSort.BuildPrefix | src/topsort.ts:45-48 | One more group extends the build by that group, or fails there when the group is empty. |
| TopSort.SpecEmpty | src/topsort.ts:47-48 | When the build fails at a group, `topsort` fails there. |
| TopSort.SpecBuilt | src/topsort.ts:73-75 | After a successful build, `topsort` is the walk of the sorted keys, and every key and every after is a node. |
| TopSort.SortVisitedMark | src/topsort.ts:87-89 | Proof step of `Sorter.Visit`: sorting the afters of a newly visited node in place keeps the dictionary equal to "sorted afters exactly on visited nodes". |
| TopSort.VisitStep | src/topsort.ts:80-104 | Proof step of `Sorter.Visit`: entering an unvisited node reports what the walk of its sorted afters reports, with the node put in front of the output. |
| TopSort.AftersOnPath | src/topsort.ts:92-98 | Proof step of `Sorter.VisitAfters`: an after on the path is skipped in continue mode, and otherwise throws with the node and that after. |
| TopSort.AftersOffPath | src/topsort.ts:100-101 | Proof step of `Sorter.VisitAfters`: an after off the path is visited; the loop goes on from the new state, or stops with the thrown pair. |
| TopSort.RootsStep | src/topsort.ts:75 | Proof step of `Sorter.Sort`: one root is visited with an empty path; the loop goes on from the new state, or stops with the thrown pair. |
| TopSort.Sorter.constructor | src/topsort.ts:36-42 | The state starts empty: no nodes, no keys, nothing visited, nothing sorted. |
| TopSort.Sorter.AddEdge | src/topsort.ts:47-69 | One iteration of the build loop changes the dictionary as `Build.AddEdge` says and leaves the walk state alone. |
| TopSort.Sorter.AddEdges | src/topsort.ts:45-70 | The build loop leaves the dictionary `BuildNodes` gives, or reports the first empty group. |
| TopSort.Sorter.Visit | src/topsort.ts:75-105 | The recursive `visit` method reports exactly the functional walk: the same visited set and output, or the same thrown pair. When it completes, exactly the visited nodes have sorted afters. |
| TopSort.Sorter.VisitAfters | src/topsort.ts:89-102 | The loop over a node's sorted afters reports exactly the functional walk of those afters. |
| TopSort.Sorter.Sort | src/topsort.ts:73-75 | Phase 2 reports exactly the walk of the keys in descending order with empty paths. |
| TopSort.TopSort | src/topsort.ts:35-108 | `topsort` returns exactly `TopSortSpec`, on which every property below is proved. |
| Properties.WalkSound | src/topsort.ts:75-107 | On input without empty groups, the output lists every identity once and respects every edge (up to cycles in continue mode). A thrown pair is an edge closing a cycle, and only strict mode throws. |
| Properties.EmptyEdgeExactly | src/topsort.ts:47-48 | `topsort` fails on an empty group exactly when there is one, and names the first. |
| Properties.SortedIsPermutation | src/topsort.ts:104-107 | The output lists every identity named in the input, each exactly once. |
| Properties.RespectsPrecedes | src/topsort.ts:90-104 | An edge out of a placed node has its target placed after it, unless it lies on a cycle in continue mode. |
| Properties.SortedHonoursConstraints | src/topsort.ts:30-33 | For every group, its leader comes before each of its other identities. In continue mode a constraint may be broken only when it lies on a cycle. |
| Properties.CircularIsCycle | src/topsort.ts:92-98 | A thrown pair `(id, after)` is a constraint of the input, `after` reaches `id`, the graph has a cycle, and the mode is strict. |
| Properties.ContinueNeverThrows | src/topsort.ts:93-95 | With `continueOnCircularDependency` no circular error is thrown. |
| Properties.StrictThrowsIffCycle | src/topsort.ts:92-98 | In strict mode, on input without empty groups, `topsort` throws exactly when the constraints have a cycle (both directions). |
| Properties.AcyclicTopological | src/topsort.ts:28-33 | Without a cycle, the output is a topological order: every after of a node comes later. |
| Properties.AcyclicModesAgree | src/topsort.ts:31-32 | Without a cycle, the option changes nothing. |
| Properties.ResultFromGraph | src/topsort.ts:73-74 | The result depends only on the constraint graph. The order in which the dictionary enumerates its keys does not matter, since any descending listing of the identities gives the same walk. |
| Properties.EmptyInput | src/topsort.ts:35-108 | With no groups, `topsort` returns the empty list in either mode. |
| Properties.ChainTopological | src/topsort.ts:28-33 | Proof step of `ChainSortsToItself`: a list of distinct identities is a topological order of the graph built from its consecutive pairs. |
| Properties.PathOrderUnique | src/topsort.ts:28-33 | Proof step of `ChainSortsToItself`: when consecutive elements of a list are edges of a graph, that list is the only topological order of the graph over its elements. |
| Properties.ChainSortsToItself | src/topsort.ts:28-33 | Sorting the consecutive pairs of a list of two or more distinct identities returns that list, in either mode. |
| Properties.ChainIdempotent | src/topsort.ts:104-107 | Feeding a successful output back as its consecutive pairs sorts to the same output, in either mode; a one-element output gives no groups and so the empty list. |
| Scenarios.ChainScenario | src/topsort.spec.ts:5-14 | `[[1, 2], [2, 3]]` sorts as `[1, 2, 3]`. |
| Scenarios.SplitScenario | src/topsort.spec.ts:65-76 | `[[0], [2, 3], [1, 2], [0]]` sorts as `[0, 1, 2, 3]`. |
| Scenarios.DescentScenario | src/topsort.spec.ts:220-235 | `[[6, 5], [5, 4], [22, 21], [21, 20], [4, 22], [10], [11], [12]]` sorts as `[10, 11, 12, 6, 5, 4, 22, 21, 20]`. |
| Scenarios.TwoCycleScenario | src/topsort.spec.ts:114-152 | `[[1, 2], [2, 1]]` throws in strict mode, and the error names both 1 and 2; in continue mode it returns two items, 1 and 2. |
| Scenarios.ThreeCycleScenario | src/topsort.spec.ts:125-170 | `[[1, 2], [2, 3], [3, 1]]` throws in strict mode; in continue mode it returns three items, 1, 2 and 3. |
| Scenarios.CycleOutcomes | src/topsort.spec.ts:145-146 | On any input without empty groups that has a cycle, strict mode throws, and continue mode returns each identity named exactly once. |

## Left out

- The identity type is fixed to `string`. The source is generic in `T` and
  keys nodes by `toString()`. Two different identities with the same string
  form (the number `1` and the string `"1"`) share a node there; that is not
  modelled.
- `node.afters.sort(sortDesc)` compares the raw identities. For numbers,
  JavaScript's `<` compares numerically, while the model compares afters as
  strings. Every test input worked out here has at most one after per node,
  so the difference does not show there. The root keys are strings in the
  source too, and are compared as strings in both.
- String comparison is character by character over `char`. UTF-16 code
  units versus code points is not modelled.
- The dictionaries are plain JavaScript objects. A key named like an
  inherited member (`constructor`, `toString`, `__proto__`) finds the
  inherited value instead of a node. The model uses a true map.
- `Object.keys` enumeration order is not modelled: the keys are kept in
  creation order. `Properties.ResultFromGraph` proves the result does not
  depend on that order.
- `Array.prototype.sort` is modelled by its result only, an insertion sort.
  `Order.SortedDescUnique` proves every correct sort gives that result.
- The options object is a boolean. A missing object, or one without the
  flag, is strict mode (`false`).
- The text of the thrown error message is not modelled; the result carries
  the two identities it names.
- Call-stack depth: the source's recursion can overflow on very deep
  chains. The model has unbounded recursion.
- `EdgeNode` objects are folded into the dictionary, as the map from key to
  afters (`Build.Nodes`). Their `id` field equals the key for string
  identities.
- Scenarios.TwoCycleScenario and Scenarios.ThreeCycleScenario state only
  what the tests check in continue mode (the count and membership). The
  order there is determined by the model, but the library documents it as
  not guaranteed.
- Properties.ChainIdempotent: a one-element output gives a chain with no
  groups, which sorts to the empty order; re-sorting returns the same output
  only for outputs of zero or at least two identities.
- The compiled copies under `dist/` and `lib/`, and the `.js` tests, are
  not part of this model.
