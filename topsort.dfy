/**
 * `topsort(edges, options)`: the imperative model. The closure state of
 * the source (the `nodes` dictionary, the `visited` hash and the `sorted`
 * array, plus the option) lives in a `Sorter` object; the build loop and
 * the recursive `visit` are its methods. Each is proved to compute what
 * the functions of modules Build and Dfs say, and the entry point
 * `TopSort` returns exactly `TopSortSpec`.
 */
module TopSort {
  import opened Order
  import opened Graphs
  import opened Build
  import opened Dfs

  datatype Option<T> = None | Some(value: T)

  /** The outcome of `topsort`: the order, the circular-chain error with its pair, or the failure on an empty group. */
  datatype Result = Sorted(order: seq<Id>) | CircularDependency(id: Id, after: Id) | EmptyEdge(index: nat)

  /** What `topsort` returns: build the dictionary, then visit the keys in descending order with empty paths. */
  function TopSortSpec(edges: seq<seq<Id>>, continueOnCircularDependency: bool): (r: Result)
    ensures r.EmptyEdge? <==> !NoEmptyEdge(edges)
    ensures r.EmptyEdge? ==> r.index < |edges| && edges[r.index] == []
  {
    BuildNodesFails(edges);
    match BuildNodes(edges)
    case EmptyAt(i) => EmptyEdge(i)
    case Built(n) =>
      BuiltGraph(edges);
      Outcome(VisitRoots(n.afters, continueOnCircularDependency, SortedDesc(n.keys), {}, []))
  }

  /** How `topsort` reports a walk: its output, or the pair it throws on. */
  function Outcome(w: Walk): (r: Result)
    ensures !r.EmptyEdge?
    ensures r.CircularDependency? <==> w.Circular?
  {
    match w
    case Walked(_, sorted) => Sorted(sorted)
    case Circular(id, after) => CircularDependency(id, after)
  }

  /** The result `topsort` returns once phase 2 has reported the walk `w`. */
  lemma ReportsOutcome(w: Walk, thrown: Option<(Id, Id)>, visited: set<Id>, sorted: seq<Id>)
    requires Reports(w, thrown, visited, sorted)
    ensures Outcome(w) == if thrown.Some? then CircularDependency(thrown.value.0, thrown.value.1) else Sorted(sorted)
  {
  }

  /** One more group of the build loop. */
  lemma BuildPrefix(edges: seq<seq<Id>>, i: nat)
    requires i < |edges| && BuildNodes(edges[..i]).Built?
    ensures BuildNodes(edges[..i + 1])
         == if edges[i] == [] then EmptyAt(i) else Built(Build.AddEdge(BuildNodes(edges[..i]).nodes, edges[i]))
  {
    assert edges[..i + 1][..i] == edges[..i];
  }

  /** The build stops at the first empty group, and so does `topsort`. */
  lemma SpecEmpty(edges: seq<seq<Id>>, cont: bool, i: nat)
    requires i < |edges| && BuildNodes(edges[..i + 1]) == EmptyAt(i)
    ensures TopSortSpec(edges, cont) == EmptyEdge(i)
  {
    EmptyAtSticks(edges, i + 1);
  }

  /** Once every group is in, `topsort` is the walk of the built dictionary. */
  lemma SpecBuilt(edges: seq<seq<Id>>, cont: bool)
    requires BuildNodes(edges).Built?
    ensures var n := BuildNodes(edges).nodes;
      && Closed(n.afters)
      && (forall a | a in n.keys :: a in n.afters)
      && (forall a | a in SortedDesc(n.keys) :: a in n.afters)
      && TopSortSpec(edges, cont) == Outcome(VisitRoots(n.afters, cont, SortedDesc(n.keys), {}, []))
  {
    BuiltGraph(edges);
    SortedDescMembers(BuildNodes(edges).nodes.keys);
  }

  /** The dictionary once the nodes in `visited` have had their afters sorted in place. */
  ghost function SortVisited(g: Graph, visited: set<Id>): Graph
  {
    map k | k in g :: if k in visited then SortedDesc(g[k]) else g[k]
  }

  /** Sorting the afters of a newly visited node in place keeps the dictionary in step with `visited`. */
  lemma SortVisitedMark(g: Graph, visited: set<Id>, k: Id)
    requires k in g
    ensures SortVisited(g, visited)[k := SortedDesc(g[k])] == SortVisited(g, visited + {k})
  {
  }

  /** The outcome of the `visit` method is the walk `w`: a thrown pair is the walk's circular pair, otherwise the state is the walk's. */
  predicate Reports(w: Walk, thrown: Option<(Id, Id)>, visited: set<Id>, sorted: seq<Id>)
  {
    match w
    case Walked(v, s) => thrown == None && visited == v && sorted == s
    case Circular(id, after) => thrown == Some((id, after))
  }

  /** Entering an unvisited node: `visit` reports what the walk of its sorted afters reports, with the node put in front. */
  lemma VisitStep(g: Graph, cont: bool, k: Id, anc: seq<Id>, visited: set<Id>, sorted: seq<Id>,
                  thrown: Option<(Id, Id)>, visited': set<Id>, sorted': seq<Id>)
    requires Closed(g) && k in g && visited <= g.Keys && k !in visited
    requires forall a | a in SortedDesc(g[k]) :: a in g
    requires Reports(VisitAfters(g, cont, k, SortedDesc(g[k]), anc + [k], visited + {k}, sorted), thrown, visited', sorted')
    ensures Reports(Dfs.Visit(g, cont, k, anc, visited, sorted), thrown, visited', if thrown == None then [k] + sorted' else sorted')
  {
    CardShrinks(g.Keys, visited, k);
  }

  /** One step of the afters loop on an after that is already on the path. */
  lemma AftersOnPath(g: Graph, cont: bool, id: Id, afters: seq<Id>, i: nat, anc: seq<Id>, visited: set<Id>, sorted: seq<Id>)
    requires Closed(g) && visited <= g.Keys && forall a | a in afters :: a in g
    requires i < |afters| && afters[i] in anc
    ensures forall a | a in afters[i + 1..] :: a in g
    ensures VisitAfters(g, cont, id, afters[i..], anc, visited, sorted)
         == if cont then VisitAfters(g, cont, id, afters[i + 1..], anc, visited, sorted)
            else Circular(id, afters[i])
  {
    assert afters[i..][1..] == afters[i + 1..];
  }

  /** One step of the afters loop on an after that is not on the path, once `visit` has reported on it. */
  lemma AftersOffPath(g: Graph, cont: bool, id: Id, afters: seq<Id>, i: nat, anc: seq<Id>, visited: set<Id>, sorted: seq<Id>,
                      thrown: Option<(Id, Id)>, visited': set<Id>, sorted': seq<Id>)
    requires Closed(g) && visited <= g.Keys && forall a | a in afters :: a in g
    requires i < |afters| && afters[i] !in anc
    requires Reports(Dfs.Visit(g, cont, afters[i], anc, visited, sorted), thrown, visited', sorted')
    ensures thrown.Some? ==> Reports(VisitAfters(g, cont, id, afters[i..], anc, visited, sorted), thrown, visited', sorted')
    ensures thrown == None ==> visited <= visited' <= g.Keys && forall a | a in afters[i + 1..] :: a in g
    ensures thrown == None ==>
      VisitAfters(g, cont, id, afters[i..], anc, visited, sorted) == VisitAfters(g, cont, id, afters[i + 1..], anc, visited', sorted')
  {
    assert afters[i..][1..] == afters[i + 1..];
  }

  /** One step of the roots loop, once `visit` has reported on the root. */
  lemma RootsStep(g: Graph, cont: bool, roots: seq<Id>, j: nat, visited: set<Id>, sorted: seq<Id>,
                  thrown: Option<(Id, Id)>, visited': set<Id>, sorted': seq<Id>)
    requires Closed(g) && visited <= g.Keys && forall a | a in roots :: a in g
    requires j < |roots|
    requires Reports(Dfs.Visit(g, cont, roots[j], [], visited, sorted), thrown, visited', sorted')
    ensures thrown.Some? ==> Reports(VisitRoots(g, cont, roots[j..], visited, sorted), thrown, visited', sorted')
    ensures thrown == None ==> visited <= visited' <= g.Keys && forall a | a in roots[j + 1..] :: a in g
    ensures thrown == None ==>
      VisitRoots(g, cont, roots[j..], visited, sorted) == VisitRoots(g, cont, roots[j + 1..], visited', sorted')
  {
    assert roots[j..][1..] == roots[j + 1..];
  }

  class Sorter {
    var nodes: Graph
    var keys: seq<Id>
    var visited: set<Id>
    var sorted: seq<Id>
    const continueOnCircularDependency: bool

    constructor (continueOnCircularDependency: bool)
      ensures this.continueOnCircularDependency == continueOnCircularDependency
      ensures nodes == map[] && keys == [] && visited == {} && sorted == []
    {
      this.continueOnCircularDependency := continueOnCircularDependency;
      nodes, keys, visited, sorted := map[], [], {}, [];
    }

    /** The body of the outer `edges.forEach`, on a non-empty group. */
    method AddEdge(edge: seq<Id>)
      requires |edge| > 0
      modifies this
      ensures Nodes(keys, nodes) == Build.AddEdge(old(Nodes(keys, nodes)), edge)
      ensures visited == old(visited) && sorted == old(sorted)
    {
      var fromEdge := edge[0];
      if fromEdge !in nodes {
        nodes, keys := nodes[fromEdge := []], keys + [fromEdge];
      }
      var j := 0;
      while j < |edge|
        invariant 0 <= j <= |edge|
        invariant Nodes(keys, nodes) == AddTargets(Ensure(old(Nodes(keys, nodes)), fromEdge), fromEdge, edge[..j])
        invariant visited == old(visited) && sorted == old(sorted)
      {
        var toEdge := edge[j];
        if toEdge != fromEdge {
          if toEdge !in nodes {
            nodes, keys := nodes[toEdge := []], keys + [toEdge];
          }
          nodes := nodes[fromEdge := nodes[fromEdge] + [toEdge]];
        }
        assert edge[..j + 1][..j] == edge[..j];
        j := j + 1;
      }
      assert edge[..j] == edge;
    }

    /**
     * `visit(idstr, ancestorsIn)`. The path is a value: the callee's push
     * onto its copy is never seen by the caller. `g` is the dictionary as
     * built, before any afters were sorted.
     */
    method Visit(idstr: Id, ancestorsIn: seq<Id>, ghost g: Graph) returns (thrown: Option<(Id, Id)>)
      requires Closed(g) && idstr in g && visited <= g.Keys
      requires nodes == SortVisited(g, visited)
      modifies this`nodes, this`visited, this`sorted
      ensures Reports(Dfs.Visit(g, continueOnCircularDependency, idstr, ancestorsIn, old(visited), old(sorted)), thrown, visited, sorted)
      ensures thrown == None ==> nodes == SortVisited(g, visited)
      decreases |g.Keys - visited|, 0
    {
      if idstr in visited {
        return None;
      }
      SortedAfters(g, idstr);
      CardShrinks(g.Keys, visited, idstr);
      SortVisitedMark(g, visited, idstr);
      var ancestors := ancestorsIn + [idstr];
      visited := visited + {idstr};
      nodes := nodes[idstr := SortedDesc(nodes[idstr])];
      thrown := VisitAfters(idstr, nodes[idstr], ancestors, g);
      VisitStep(g, continueOnCircularDependency, idstr, ancestorsIn, old(visited), old(sorted), thrown, visited, sorted);
      if thrown == None {
        sorted := [idstr] + sorted;
      }
    }

    /** The `forEach` over the sorted afters of `id`, whose path is `ancestors`. */
    method VisitAfters(id: Id, afters: seq<Id>, ancestors: seq<Id>, ghost g: Graph) returns (thrown: Option<(Id, Id)>)
      requires Closed(g) && visited <= g.Keys && forall a | a in afters :: a in g
      requires nodes == SortVisited(g, visited)
      modifies this`nodes, this`visited, this`sorted
      ensures Reports(Dfs.VisitAfters(g, continueOnCircularDependency, id, afters, ancestors, old(visited), old(sorted)), thrown, visited, sorted)
      ensures thrown == None ==> nodes == SortVisited(g, visited)
      decreases |g.Keys - visited|, 1
    {
      ghost var cont := continueOnCircularDependency;
      ghost var w := Dfs.VisitAfters(g, cont, id, afters, ancestors, visited, sorted);
      ghost var v0 := visited;
      var i := 0;
      while i < |afters|
        invariant 0 <= i <= |afters|
        invariant v0 <= visited <= g.Keys
        invariant nodes == SortVisited(g, visited)
        invariant Dfs.VisitAfters(g, cont, id, afters[i..], ancestors, visited, sorted) == w
      {
        var afterID := afters[i];
        if afterID in ancestors {
          AftersOnPath(g, cont, id, afters, i, ancestors, visited, sorted);
          if !continueOnCircularDependency {
            return Some((id, afterID));
          }
        } else {
          ghost var v, s := visited, sorted;
          CardMonotone(g.Keys, v0, visited);
          thrown := Visit(afterID, ancestors, g);
          AftersOffPath(g, cont, id, afters, i, ancestors, v, s, thrown, visited, sorted);
          if thrown.Some? {
            return;
          }
        }
        i := i + 1;
      }
      assert afters[i..] == [];
      return None;
    }

    /** Phase 1, `edges.forEach(...)`: every group into the dictionary, failing on the first empty one. */
    method AddEdges(edges: seq<seq<Id>>) returns (emptyAt: Option<nat>)
      requires nodes == map[] && keys == []
      modifies this
      ensures visited == old(visited) && sorted == old(sorted)
      ensures match BuildNodes(edges)
        case EmptyAt(i) => emptyAt == Some(i)
        case Built(n) => emptyAt == None && Nodes(keys, nodes) == n
    {
      var i := 0;
      while i < |edges|
        invariant 0 <= i <= |edges|
        invariant BuildNodes(edges[..i]) == Built(Nodes(keys, nodes))
        invariant visited == old(visited) && sorted == old(sorted)
      {
        BuildPrefix(edges, i);
        if edges[i] == [] {
          EmptyAtSticks(edges, i + 1);
          return Some(i);
        }
        AddEdge(edges[i]);
        i := i + 1;
      }
      assert edges[..i] == edges;
      return None;
    }

    /** Phase 2, `keys.sort(sortDesc).forEach(visit)`: every key visited in descending order with an empty path. */
    method Sort() returns (thrown: Option<(Id, Id)>)
      requires Closed(nodes) && forall a | a in keys :: a in nodes
      requires visited == {} && sorted == []
      modifies this`nodes, this`visited, this`sorted
      ensures (SortedDescMembers(keys);
        Reports(VisitRoots(old(nodes), continueOnCircularDependency, SortedDesc(keys), {}, []), thrown, visited, sorted))
    {
      ghost var g := nodes;
      ghost var cont := continueOnCircularDependency;
      var roots := SortedDesc(keys);
      SortedDescMembers(keys);
      ghost var w := VisitRoots(g, cont, roots, {}, []);
      assert nodes == SortVisited(g, {});
      var j := 0;
      while j < |roots|
        invariant 0 <= j <= |roots|
        invariant visited <= g.Keys && nodes == SortVisited(g, visited)
        invariant VisitRoots(g, cont, roots[j..], visited, sorted) == w
      {
        ghost var v, s := visited, sorted;
        thrown := Visit(roots[j], [], g);
        RootsStep(g, cont, roots, j, v, s, thrown, visited, sorted);
        if thrown.Some? {
          return;
        }
        j := j + 1;
      }
      assert roots[j..] == [];
      return None;
    }
  }

  /** `topsort(edges, { continueOnCircularDependency })`. */
  method TopSort(edges: seq<seq<Id>>, continueOnCircularDependency: bool) returns (r: Result)
    ensures r == TopSortSpec(edges, continueOnCircularDependency)
  {
    var s := new Sorter(continueOnCircularDependency);
    var emptyAt := s.AddEdges(edges);
    if emptyAt.Some? {
      return EmptyEdge(emptyAt.value);
    }
    ghost var n := BuildNodes(edges).nodes;
    assert s.keys == n.keys && s.nodes == n.afters;
    SpecBuilt(edges, continueOnCircularDependency);
    var thrown := s.Sort();
    ReportsOutcome(VisitRoots(n.afters, continueOnCircularDependency, SortedDesc(n.keys), {}, []), thrown, s.visited, s.sorted);
    if thrown.Some? {
      return CircularDependency(thrown.value.0, thrown.value.1);
    }
    return Sorted(s.sorted);
  }
}
