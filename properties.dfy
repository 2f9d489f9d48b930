/**
 * What `topsort` promises its callers, stated on the input groups and
 * the graph of constraints they define, and proved of `TopSortSpec`
 * (which the `TopSort` method returns).
 */
module Properties {
  import opened Order
  import opened Graphs
  import opened Build
  import opened Dfs
  import opened TopSort

  /** In `order`, `x` is listed before `y`. */
  ghost predicate Precedes(order: seq<Id>, x: Id, y: Id)
  {
    x in order && y in order && IndexOf(order, x) < IndexOf(order, y)
  }

  /** The walk of a built input: its result with what the walk invariant gives. */
  lemma WalkSound(edges: seq<seq<Id>>, cont: bool)
    requires NoEmptyEdge(edges)
    ensures var g := ConstraintGraph(edges);
      match TopSortSpec(edges, cont)
      case Sorted(order) => NoDup(order) && Elems(order) == Ids(edges) && Respects(g, cont, order)
      case CircularDependency(id, after) => !cont && ClosesCycle(g, id, after)
      case EmptyEdge(_) => false
  {
    BuildNodesFails(edges);
    BuiltGraph(edges);
    var n := BuildNodes(edges).nodes;
    var g := n.afters;
    var roots := SortedDesc(n.keys);
    SortedDescMembers(n.keys);
    assert Inv(g, cont, [], {}, []);
    VisitRootsSound(g, cont, roots, {}, []);
  }

  /** `topsort` fails on an empty group, exactly when there is one, and names the first. */
  lemma EmptyEdgeExactly(edges: seq<seq<Id>>, cont: bool)
    ensures TopSortSpec(edges, cont).EmptyEdge? <==> !NoEmptyEdge(edges)
    ensures TopSortSpec(edges, cont).EmptyEdge? ==>
      var i := TopSortSpec(edges, cont).index;
      i < |edges| && edges[i] == [] && forall j | 0 <= j < i :: edges[j] != []
  {
    BuildNodesFails(edges);
  }

  /** The order lists every identity named in the input, each exactly once. */
  lemma SortedIsPermutation(edges: seq<seq<Id>>, cont: bool)
    requires TopSortSpec(edges, cont).Sorted?
    ensures var order := TopSortSpec(edges, cont).order;
      NoDup(order) && forall x :: x in order <==> x in Ids(edges)
  {
    EmptyEdgeExactly(edges, cont);
    WalkSound(edges, cont);
  }

  /** An edge respected by the order: the target comes after the source, unless it closes a cycle in continue mode. */
  lemma RespectsPrecedes(g: Graph, cont: bool, s: seq<Id>, x: Id, y: Id)
    requires NoDup(s) && Respects(g, cont, s)
    requires x in s && x in g && y in g[x]
    ensures Precedes(s, x, y) || (cont && Reaches(g, y, x))
  {
    var p := IndexOf(s, x);
    var q :| 0 <= q < |g[x]| && g[x][q] == y;
    assert g[s[p]][q] == y;
    if y in s[p + 1..] {
      var k :| p + 1 <= k < |s| && s[k] == y;
      IndexOfNoDup(s, k);
    }
  }

  /**
   * Every constraint of the input holds in the order: the leader of a
   * group comes before each other identity of the group; in continue
   * mode a constraint may be broken only when it lies on a cycle.
   */
  lemma SortedHonoursConstraints(edges: seq<seq<Id>>, cont: bool, x: Id, y: Id)
    requires TopSortSpec(edges, cont).Sorted? && Constraint(edges, x, y)
    ensures Precedes(TopSortSpec(edges, cont).order, x, y) || (cont && Reaches(ConstraintGraph(edges), y, x))
  {
    EmptyEdgeExactly(edges, cont);
    WalkSound(edges, cont);
    var order := TopSortSpec(edges, cont).order;
    var g := ConstraintGraph(edges);
    var i, j :| 0 <= i < |edges| && 0 <= j < |edges[i]| && edges[i][0] == x && edges[i][j] == y && y != x;
    assert x in Ids(edges) && x in Elems(order);
    AftersOfConstraint(edges, x, y);
    RespectsPrecedes(g, cont, order, x, y);
  }

  /** A reported circular dependency is a constraint of the input that lies on a cycle; only strict mode reports. */
  lemma CircularIsCycle(edges: seq<seq<Id>>, cont: bool)
    requires TopSortSpec(edges, cont).CircularDependency?
    ensures var r := TopSortSpec(edges, cont);
      && !cont
      && Constraint(edges, r.id, r.after)
      && Reaches(ConstraintGraph(edges), r.after, r.id)
      && HasCycle(ConstraintGraph(edges))
  {
    EmptyEdgeExactly(edges, cont);
    WalkSound(edges, cont);
    var r := TopSortSpec(edges, cont);
    AftersOfConstraint(edges, r.id, r.after);
    BackEdgeCycle(ConstraintGraph(edges), r.id, r.after);
  }

  /** Continue mode never throws a circular dependency. */
  lemma ContinueNeverThrows(edges: seq<seq<Id>>)
    ensures !TopSortSpec(edges, true).CircularDependency?
  {
    if TopSortSpec(edges, true).CircularDependency? {
      CircularIsCycle(edges, true);
    }
  }

  /** In strict mode, on input without empty groups, `topsort` throws exactly when the constraints have a cycle. */
  lemma StrictThrowsIffCycle(edges: seq<seq<Id>>)
    requires NoEmptyEdge(edges)
    ensures TopSortSpec(edges, false).CircularDependency? <==> HasCycle(ConstraintGraph(edges))
  {
    EmptyEdgeExactly(edges, false);
    WalkSound(edges, false);
    var g := ConstraintGraph(edges);
    match TopSortSpec(edges, false)
    case CircularDependency(id, after) =>
      BackEdgeCycle(g, id, after);
    case Sorted(order) =>
      assert Topological(g, order);
      TopologicalAcyclic(g, order);
  }

  /** Without a cycle the result is a topological order of the whole graph, in either mode. */
  lemma AcyclicTopological(edges: seq<seq<Id>>, cont: bool)
    requires TopSortSpec(edges, cont).Sorted? && !HasCycle(ConstraintGraph(edges))
    ensures Topological(ConstraintGraph(edges), TopSortSpec(edges, cont).order)
  {
    EmptyEdgeExactly(edges, cont);
    WalkSound(edges, cont);
    var g := ConstraintGraph(edges);
    var order := TopSortSpec(edges, cont).order;
    forall i, j | 0 <= i < |order| && order[i] in g && 0 <= j < |g[order[i]]|
      ensures g[order[i]][j] in order[i + 1..]
    {
      var x, y := order[i], g[order[i]][j];
      if y !in order[i + 1..] {
        assert cont && Reaches(g, y, x);
        BackEdgeCycle(g, x, y);
      }
    }
  }

  /** The option changes nothing on input whose constraints have no cycle. */
  lemma AcyclicModesAgree(edges: seq<seq<Id>>)
    requires !HasCycle(ConstraintGraph(edges))
    ensures TopSortSpec(edges, true) == TopSortSpec(edges, false)
  {
    EmptyEdgeExactly(edges, false);
    if NoEmptyEdge(edges) {
      StrictThrowsIffCycle(edges);
      BuiltGraph(edges);
      var n := BuildNodes(edges).nodes;
      SortedDescMembers(n.keys);
      VisitRootsStrictAgrees(n.afters, SortedDesc(n.keys), {}, []);
    }
  }

  /** Two repetition-free lists of the same identities hold the same multiset. */
  lemma SameElemsMultiset(a: seq<Id>, b: seq<Id>)
    requires NoDup(a) && NoDup(b) && forall x :: x in a <==> x in b
    ensures multiset(a) == multiset(b)
  {
    forall x
      ensures multiset(a)[x] == multiset(b)[x]
    {
      if x in a {
        CountOne(a, x);
        CountOne(b, x);
      }
    }
  }

  /**
   * The result depends on the constraint graph alone: the order in which
   * identities first appear (the enumeration order of the dictionary's
   * keys) does not matter, since the roots are any descending listing of
   * the nodes.
   */
  lemma ResultFromGraph(edges: seq<seq<Id>>, cont: bool, roots: seq<Id>)
    requires NoEmptyEdge(edges)
    requires Descending(roots) && NoDup(roots) && forall x :: x in roots <==> x in Ids(edges)
    ensures (BuildNodesFails(edges); BuiltGraph(edges);
      TopSortSpec(edges, cont) == Outcome(VisitRoots(ConstraintGraph(edges), cont, roots, {}, [])))
  {
    BuildNodesFails(edges);
    BuiltGraph(edges);
    var n := BuildNodes(edges).nodes;
    var sorted := SortedDesc(n.keys);
    SortedDescMembers(n.keys);
    SortedDescIsSorted(n.keys);
    assert forall x :: x in sorted <==> x in Elems(sorted);
    SameElemsMultiset(roots, sorted);
    SortedDescUnique(roots, sorted);
  }

  // ---------------------------------------------------------------------
  // Feeding an order back in

  /** An order as input: each consecutive pair of it as a group of two. */
  function Chain(order: seq<Id>): (r: seq<seq<Id>>)
    ensures |r| == if |order| < 2 then 0 else |order| - 1
    ensures forall i | 0 <= i < |r| :: r[i] == [order[i], order[i + 1]]
  {
    seq(if |order| < 2 then 0 else |order| - 1, i requires 0 <= i < |order| - 1 => [order[i], order[i + 1]])
  }

  /** Every identity of an order of two or more is named by its chain. */
  lemma ChainCovers(order: seq<Id>, k: nat)
    requires |order| >= 2 && k < |order|
    ensures order[k] in Ids(Chain(order))
  {
    var e := Chain(order);
    if k < |order| - 1 {
      assert e[k][0] == order[k];
    } else {
      assert e[k - 1][1] == order[k];
    }
  }

  /** The chain names nothing outside the order. */
  lemma ChainNamesOnly(order: seq<Id>, x: Id)
    requires x in Ids(Chain(order))
    ensures x in order
  {
    var e := Chain(order);
    var i, j :| 0 <= i < |e| && 0 <= j < |e[i]| && e[i][j] == x;
    assert x == order[i + j];
  }

  /** The chain of an order of two or more names exactly its identities, in non-empty groups. */
  lemma ChainIds(order: seq<Id>)
    requires |order| >= 2
    ensures NoEmptyEdge(Chain(order))
    ensures forall x :: x in order <==> x in Ids(Chain(order))
  {
    forall x
      ensures x in order <==> x in Ids(Chain(order))
    {
      if x in order {
        var k :| 0 <= k < |order| && order[k] == x;
        ChainCovers(order, k);
      }
      if x in Ids(Chain(order)) {
        ChainNamesOnly(order, x);
      }
    }
  }

  /** Each link of the chain is an edge of its graph. */
  lemma ChainEdges(order: seq<Id>, i: nat)
    requires NoDup(order) && i < |order| - 1
    ensures var g := ConstraintGraph(Chain(order)); order[i] in g && order[i + 1] in g[order[i]]
  {
    var e := Chain(order);
    assert e[i][0] == order[i] && e[i][1] == order[i + 1];
    assert order[i] in Ids(e);
    assert Constraint(e, order[i], order[i + 1]);
    AftersOfConstraint(e, order[i], order[i + 1]);
  }

  /** The only after of a chain member is the next one. */
  lemma ChainAfter(order: seq<Id>, i: nat, y: Id)
    requires NoDup(order) && i < |order|
    requires y in AftersOf(Chain(order), order[i])
    ensures i < |order| - 1 && y == order[i + 1]
  {
    var e := Chain(order);
    assert Constraint(e, order[i], y) by {
      AftersOfConstraint(e, order[i], y);
    }
    var a, b :| 0 <= a < |e| && 0 <= b < |e[a]| && e[a][0] == order[i] && e[a][b] == y && y != order[i];
    assert e[a] == [order[a], order[a + 1]];
    assert a == i;
  }

  /** An order is topological for the graph of its own chain. */
  lemma ChainTopological(order: seq<Id>)
    requires NoDup(order)
    ensures Topological(ConstraintGraph(Chain(order)), order)
  {
    var g := ConstraintGraph(Chain(order));
    forall i, j | 0 <= i < |order| && order[i] in g && 0 <= j < |g[order[i]]|
      ensures g[order[i]][j] in order[i + 1..]
    {
      ChainAfter(order, i, g[order[i]][j]);
      assert order[i + 1..][0] == order[i + 1];
    }
  }

  /** Positions of a chain in a list where each link moves strictly right: none is before its own index. */
  lemma {:induction false} ChainPositionsBelow(s: seq<Id>, order: seq<Id>, i: nat)
    requires i < |order|
    requires forall k | 0 <= k < |order| :: order[k] in s
    requires forall k | 0 <= k < |order| - 1 :: IndexOf(s, order[k]) < IndexOf(s, order[k + 1])
    ensures IndexOf(s, order[i]) >= i
  {
    if i > 0 {
      ChainPositionsBelow(s, order, i - 1);
    }
  }

  /** ... and, when the list is no longer than the chain, none is after its own index. */
  lemma {:induction false} ChainPositionsAbove(s: seq<Id>, order: seq<Id>, i: nat)
    requires i < |order| && |s| <= |order|
    requires forall k | 0 <= k < |order| :: order[k] in s
    requires forall k | 0 <= k < |order| - 1 :: IndexOf(s, order[k]) < IndexOf(s, order[k + 1])
    ensures IndexOf(s, order[i]) <= i
    decreases |order| - i
  {
    if i < |order| - 1 {
      ChainPositionsAbove(s, order, i + 1);
    }
  }

  /**
   * A path through all the nodes has only one topological order: a
   * repetition-free listing of the same identities that is topological
   * for a graph holding the path's edges is the path itself.
   */
  lemma PathOrderUnique(g: Graph, order: seq<Id>, s: seq<Id>)
    requires NoDup(order) && NoDup(s) && forall x :: x in s <==> x in order
    requires forall i | 0 <= i < |order| - 1 :: order[i] in g && order[i + 1] in g[order[i]]
    requires Topological(g, s)
    ensures s == order
  {
    SameElemsMultiset(s, order);
    assert |s| == |multiset(s)| == |multiset(order)| == |order|;
    forall k | 0 <= k < |order| - 1
      ensures IndexOf(s, order[k]) < IndexOf(s, order[k + 1])
    {
      var p := IndexOf(s, order[k]);
      var q :| 0 <= q < |g[order[k]]| && g[order[k]][q] == order[k + 1];
      assert g[s[p]][q] in s[p + 1..];
      var m :| p + 1 <= m < |s| && s[m] == order[k + 1];
      IndexOfNoDup(s, m);
    }
    forall i | 0 <= i < |order|
      ensures s[i] == order[i]
    {
      ChainPositionsBelow(s, order, i);
      ChainPositionsAbove(s, order, i);
    }
  }

  /** A repetition-free order of two or more identities, given as a chain, sorts to itself in either mode. */
  lemma ChainSortsToItself(order: seq<Id>, cont: bool)
    requires NoDup(order) && |order| >= 2
    ensures TopSortSpec(Chain(order), cont) == Sorted(order)
  {
    var e := Chain(order);
    var g := ConstraintGraph(e);
    ChainIds(order);
    forall i | 0 <= i < |order| - 1
      ensures order[i] in g && order[i + 1] in g[order[i]]
    {
      ChainEdges(order, i);
    }
    ChainTopological(order);
    assert g.Keys <= Elems(order);
    TopologicalAcyclic(g, order);
    EmptyEdgeExactly(e, cont);
    if cont {
      ContinueNeverThrows(e);
    } else {
      StrictThrowsIffCycle(e);
    }
    SortedIsPermutation(e, cont);
    AcyclicTopological(e, cont);
    PathOrderUnique(g, order, TopSortSpec(e, cont).order);
  }

  /**
   * Re-ordering is idempotent: a successful output fed back in as a
   * chain, in either mode, sorts to itself. A one-element output gives a
   * chain without groups, which sorts to the empty order.
   */
  lemma ChainIdempotent(edges: seq<seq<Id>>, cont: bool, cont': bool)
    requires TopSortSpec(edges, cont).Sorted?
    ensures var order := TopSortSpec(edges, cont).order;
      TopSortSpec(Chain(order), cont') == Sorted(if |order| == 1 then [] else order)
  {
    var order := TopSortSpec(edges, cont).order;
    SortedIsPermutation(edges, cont);
    if |order| >= 2 {
      ChainSortsToItself(order, cont');
    } else {
      assert Chain(order) == [];
      assert BuildNodes([]) == Built(Nodes([], map[]));
      assert SortedDesc([]) == [];
    }
  }

  /** With no groups there are no nodes, and `topsort` returns the empty list in either mode. */
  lemma EmptyInput(cont: bool)
    ensures TopSortSpec([], cont) == Sorted([])
  {
    assert BuildNodes([]) == Built(Nodes([], map[]));
    assert SortedDesc([]) == [];
  }
}
