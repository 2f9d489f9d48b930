/**
 * Phase 2 of `topsort`, as functions: the depth-first `visit` with its
 * ancestor path, the walk over one node's sorted `afters`, and the walk
 * over the sorted keys. These are the reference the imperative model in
 * module TopSort is proved against; the lemmas below state what every
 * walk preserves.
 */
module Dfs {
  import opened Order
  import opened Graphs

  /** A walk that has not failed (the `visited` keys and the `sorted` output so far), or the reported cycle. */
  datatype Walk = Walked(visited: set<Id>, sorted: seq<Id>) | Circular(id: Id, after: Id)

  lemma CardShrinks(keys: set<Id>, visited: set<Id>, k: Id)
    requires k in keys && k !in visited
    ensures |keys - (visited + {k})| < |keys - visited|
  {
    assert keys - (visited + {k}) == (keys - visited) - {k};
  }

  lemma CardMonotone(keys: set<Id>, v1: set<Id>, v2: set<Id>)
    requires v1 <= v2
    ensures |keys - v2| <= |keys - v1|
  {
    assert keys - v1 == (keys - v2) + ((keys - v1) - (keys - v2));
  }

  /**
   * `visit(k, anc)`: nothing when `k` is visited; otherwise `k` is marked
   * visited, its sorted afters are walked with `k` on the path, and `k` is
   * put in front of the output.
   */
  function Visit(g: Graph, cont: bool, k: Id, anc: seq<Id>, visited: set<Id>, sorted: seq<Id>): (r: Walk)
    requires Closed(g) && k in g && visited <= g.Keys
    ensures r.Walked? ==> visited <= r.visited <= g.Keys
    decreases |g.Keys - visited|, 0
  {
    if k in visited then Walked(visited, sorted)
    else
      CardShrinks(g.Keys, visited, k);
      SortedAfters(g, k);
      match VisitAfters(g, cont, k, SortedDesc(g[k]), anc + [k], visited + {k}, sorted)
      case Walked(v, s) => Walked(v, [k] + s)
      case Circular(id, after) => Circular(id, after)
  }

  /**
   * `node.afters.forEach(...)` for node `id` whose path is `anc`: an after
   * on the path is a cycle, skipped when `cont` holds and reported
   * otherwise; any other after is visited with the same path.
   */
  function VisitAfters(g: Graph, cont: bool, id: Id, afters: seq<Id>, anc: seq<Id>, visited: set<Id>, sorted: seq<Id>): (r: Walk)
    requires Closed(g) && visited <= g.Keys && forall a | a in afters :: a in g
    ensures r.Walked? ==> visited <= r.visited <= g.Keys
    decreases |g.Keys - visited|, 1, |afters|
  {
    if afters == [] then Walked(visited, sorted)
    else if afters[0] in anc then
      if cont then VisitAfters(g, cont, id, afters[1..], anc, visited, sorted)
      else Circular(id, afters[0])
    else
      match Visit(g, cont, afters[0], anc, visited, sorted)
      case Circular(i, a) => Circular(i, a)
      case Walked(v, s) =>
        CardMonotone(g.Keys, visited, v);
        VisitAfters(g, cont, id, afters[1..], anc, v, s)
  }

  /** `keys.forEach(visit)`: every root is visited with an empty path. */
  function VisitRoots(g: Graph, cont: bool, roots: seq<Id>, visited: set<Id>, sorted: seq<Id>): (r: Walk)
    requires Closed(g) && visited <= g.Keys && forall a | a in roots :: a in g
    ensures r.Walked? ==> visited <= r.visited <= g.Keys
  {
    if roots == [] then Walked(visited, sorted)
    else
      match Visit(g, cont, roots[0], [], visited, sorted)
      case Circular(i, a) => Circular(i, a)
      case Walked(v, s) => VisitRoots(g, cont, roots[1..], v, s)
  }

  // ---------------------------------------------------------------------
  // What a walk preserves

  /**
   * Every edge out of a placed node points further right, except, when
   * `cont` holds, an edge whose target reaches its source (an edge of a
   * cycle, the one kind the walk skips).
   */
  ghost predicate Respects(g: Graph, cont: bool, s: seq<Id>)
  {
    forall i, j | 0 <= i < |s| && s[i] in g && 0 <= j < |g[s[i]]| ::
      g[s[i]][j] in s[i + 1..] || (cont && Reaches(g, g[s[i]][j], s[i]))
  }

  /**
   * The walk's invariant: a visited key is either finished (in `sorted`,
   * once) or on the current path `anc`, never both; the path follows
   * edges; and the finished part respects the edges.
   */
  ghost predicate Inv(g: Graph, cont: bool, anc: seq<Id>, visited: set<Id>, sorted: seq<Id>)
  {
    && visited <= g.Keys
    && NoDup(sorted)
    && Elems(sorted) !! Elems(anc)
    && visited == Elems(sorted) + Elems(anc)
    && (anc != [] ==> IsPath(g, anc))
    && Respects(g, cont, sorted)
  }

  /** A reported pair `(id, after)`: the edge `id -> after` exists and `after` reaches `id`. */
  ghost predicate ClosesCycle(g: Graph, id: Id, after: Id)
  {
    id in g && after in g[id] && Reaches(g, after, id)
  }

  /** The sorted afters of a node are its afters, and they are nodes. */
  lemma SortedAfters(g: Graph, k: Id)
    requires Closed(g) && k in g
    ensures forall a | a in SortedDesc(g[k]) :: a in g[k] && a in g
    ensures forall j | 0 <= j < |g[k]| :: g[k][j] in SortedDesc(g[k])
  {
    var afters := SortedDesc(g[k]);
    forall a | a in afters
      ensures a in g[k] && a in g
    {
      assert a in multiset(afters);
      ClosedAfter(g, k, a);
    }
    forall j | 0 <= j < |g[k]|
      ensures g[k][j] in afters
    {
      assert g[k][j] in multiset(g[k]);
    }
  }

  /** Entering an unvisited `k`: with `k` pushed on the path and marked visited, the invariant still holds. */
  lemma VisitEnter(g: Graph, cont: bool, k: Id, anc: seq<Id>, visited: set<Id>, sorted: seq<Id>)
    requires k in g && k !in visited && Inv(g, cont, anc, visited, sorted)
    requires anc == [] || k in g[anc[|anc| - 1]]
    ensures Inv(g, cont, anc + [k], visited + {k}, sorted)
  {
    PathExtend(g, anc, k);
    assert Elems(anc + [k]) == Elems(anc) + {k};
  }

  /** Leaving `k` after its afters are walked: putting `k` in front of the output restores the invariant for the shorter path. */
  lemma VisitLeave(g: Graph, cont: bool, k: Id, anc: seq<Id>, v: set<Id>, s: seq<Id>)
    requires Closed(g) && k in g && k !in Elems(anc)
    requires Inv(g, cont, anc + [k], v, s)
    requires forall a | a in SortedDesc(g[k]) :: a in s || (cont && a in anc + [k])
    ensures Inv(g, cont, anc, v, [k] + s)
  {
    var path := anc + [k];
    assert Elems(path) == Elems(anc) + {k};
    assert anc != [] ==> IsPath(g, anc) by {
      if anc != [] {
        assert anc == path[..|anc|];
      }
    }
    SortedAfters(g, k);
    forall j | 0 <= j < |g[k]|
      ensures g[k][j] in s || (cont && Reaches(g, g[k][j], k))
    {
      if g[k][j] !in s {
        PathReachesLast(g, path, g[k][j]);
      }
    }
    PrependRespects(g, cont, k, s);
    assert Elems([k] + s) == {k} + Elems(s);
  }

  lemma PathExtend(g: Graph, anc: seq<Id>, k: Id)
    requires k in g
    requires anc == [] || (IsPath(g, anc) && k in g[anc[|anc| - 1]])
    ensures IsPath(g, anc + [k])
  {
  }

  lemma PrependRespects(g: Graph, cont: bool, k: Id, s: seq<Id>)
    requires Respects(g, cont, s) && k in g
    requires forall j | 0 <= j < |g[k]| :: g[k][j] in s || (cont && Reaches(g, g[k][j], k))
    ensures Respects(g, cont, [k] + s)
  {
    var t := [k] + s;
    assert t[1..] == s;
    forall i, j | 0 <= i < |t| && t[i] in g && 0 <= j < |g[t[i]]|
      ensures g[t[i]][j] in t[i + 1..] || (cont && Reaches(g, g[t[i]][j], t[i]))
    {
      if i > 0 {
        assert t[i] == s[i - 1] && t[i + 1..] == s[i..];
      }
    }
  }

  /**
   * Visiting `k` from path `anc` keeps the invariant and leaves `k`
   * visited, or reports a pair that closes a cycle, which only happens in
   * strict mode.
   */
  lemma {:induction false} VisitSound(g: Graph, cont: bool, k: Id, anc: seq<Id>, visited: set<Id>, sorted: seq<Id>)
    requires Closed(g) && k in g && Inv(g, cont, anc, visited, sorted)
    requires anc == [] || k in g[anc[|anc| - 1]]
    ensures match Visit(g, cont, k, anc, visited, sorted)
      case Walked(v, s) => Inv(g, cont, anc, v, s) && k in v
      case Circular(i, a) => !cont && ClosesCycle(g, i, a)
    decreases |g.Keys - visited|, 0
  {
    if k !in visited {
      CardShrinks(g.Keys, visited, k);
      var path := anc + [k];
      var afters := SortedDesc(g[k]);
      VisitEnter(g, cont, k, anc, visited, sorted);
      SortedAfters(g, k);
      VisitAftersSound(g, cont, k, afters, path, visited + {k}, sorted);
      match VisitAfters(g, cont, k, afters, path, visited + {k}, sorted)
      case Circular(i, a) =>
      case Walked(v, s) =>
        VisitLeave(g, cont, k, anc, v, s);
    }
  }

  /**
   * Walking the afters of `id`, the last node of the path: the invariant
   * holds afterwards and every after is finished, or was skipped as being
   * on the path in continue mode; or a pair closing a cycle is reported.
   */
  lemma {:induction false} VisitAftersSound(g: Graph, cont: bool, id: Id, afters: seq<Id>, anc: seq<Id>, visited: set<Id>, sorted: seq<Id>)
    requires Closed(g) && Inv(g, cont, anc, visited, sorted)
    requires anc != [] && id == anc[|anc| - 1]
    requires forall a | a in afters :: a in g[id]
    ensures match VisitAfters(g, cont, id, afters, anc, visited, sorted)
      case Walked(v, s) =>
        && Inv(g, cont, anc, v, s)
        && forall a | a in afters :: a in s || (cont && a in anc)
      case Circular(i, a) => !cont && ClosesCycle(g, i, a)
    decreases |g.Keys - visited|, 1, |afters|
  {
    if afters != [] {
      var a0 := afters[0];
      ClosedAfter(g, id, a0);
      if a0 in anc {
        if cont {
          VisitAftersSound(g, cont, id, afters[1..], anc, visited, sorted);
        } else {
          PathReachesLast(g, anc, a0);
        }
      } else {
        VisitSound(g, cont, a0, anc, visited, sorted);
        match Visit(g, cont, a0, anc, visited, sorted)
        case Circular(i, a) =>
        case Walked(v, s) =>
          CardMonotone(g.Keys, visited, v);
          VisitAftersSound(g, cont, id, afters[1..], anc, v, s);
          var r := VisitAfters(g, cont, id, afters[1..], anc, v, s);
          if r.Walked? {
            assert a0 in Elems(r.sorted);
          }
      }
    }
  }

  /** Walking the roots keeps the invariant with an empty path and leaves every root visited. */
  lemma {:induction false} VisitRootsSound(g: Graph, cont: bool, roots: seq<Id>, visited: set<Id>, sorted: seq<Id>)
    requires Closed(g) && Inv(g, cont, [], visited, sorted)
    requires forall a | a in roots :: a in g
    ensures match VisitRoots(g, cont, roots, visited, sorted)
      case Walked(v, s) => Inv(g, cont, [], v, s) && Elems(roots) <= v
      case Circular(i, a) => !cont && ClosesCycle(g, i, a)
  {
    if roots != [] {
      VisitSound(g, cont, roots[0], [], visited, sorted);
      match Visit(g, cont, roots[0], [], visited, sorted)
      case Circular(i, a) =>
      case Walked(v, s) =>
        VisitRootsSound(g, cont, roots[1..], v, s);
        assert roots == [roots[0]] + roots[1..];
    }
  }

  // ---------------------------------------------------------------------
  // The option only matters on a cycle

  /** A walk that completes in strict mode is the same walk in continue mode. */
  lemma {:induction false} VisitStrictAgrees(g: Graph, k: Id, anc: seq<Id>, visited: set<Id>, sorted: seq<Id>)
    requires Closed(g) && k in g && visited <= g.Keys
    requires Visit(g, false, k, anc, visited, sorted).Walked?
    ensures Visit(g, true, k, anc, visited, sorted) == Visit(g, false, k, anc, visited, sorted)
    decreases |g.Keys - visited|, 0
  {
    if k !in visited {
      CardShrinks(g.Keys, visited, k);
      SortedAfters(g, k);
      VisitAftersStrictAgrees(g, k, SortedDesc(g[k]), anc + [k], visited + {k}, sorted);
    }
  }

  lemma {:induction false} VisitAftersStrictAgrees(g: Graph, id: Id, afters: seq<Id>, anc: seq<Id>, visited: set<Id>, sorted: seq<Id>)
    requires Closed(g) && visited <= g.Keys && forall a | a in afters :: a in g
    requires VisitAfters(g, false, id, afters, anc, visited, sorted).Walked?
    ensures VisitAfters(g, true, id, afters, anc, visited, sorted) == VisitAfters(g, false, id, afters, anc, visited, sorted)
    decreases |g.Keys - visited|, 1, |afters|
  {
    if afters != [] && afters[0] !in anc {
      VisitStrictAgrees(g, afters[0], anc, visited, sorted);
      var w := Visit(g, false, afters[0], anc, visited, sorted);
      CardMonotone(g.Keys, visited, w.visited);
      VisitAftersStrictAgrees(g, id, afters[1..], anc, w.visited, w.sorted);
    }
  }

  lemma {:induction false} VisitRootsStrictAgrees(g: Graph, roots: seq<Id>, visited: set<Id>, sorted: seq<Id>)
    requires Closed(g) && visited <= g.Keys && forall a | a in roots :: a in g
    requires VisitRoots(g, false, roots, visited, sorted).Walked?
    ensures VisitRoots(g, true, roots, visited, sorted) == VisitRoots(g, false, roots, visited, sorted)
  {
    if roots != [] {
      VisitStrictAgrees(g, roots[0], [], visited, sorted);
      var w := Visit(g, false, roots[0], [], visited, sorted);
      VisitRootsStrictAgrees(g, roots[1..], w.visited, w.sorted);
    }
  }
}
