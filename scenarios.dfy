/**
 * The published examples of `topsort`, worked out on the model. The walk
 * is computed with a few general facts: how a run of single-after nodes
 * is visited, and that visited roots and afters change nothing.
 */
module Scenarios {
  import opened Order
  import opened Graphs
  import opened Build
  import opened Dfs
  import opened TopSort
  import opened Properties

  /** Each element is smaller than the one before it. */
  predicate StrictlyDescending(s: seq<Id>)
  {
    forall i | 0 < i < |s| :: Less(s[i], s[i - 1])
  }

  /** A strictly descending listing is descending and has no repetition. */
  lemma {:induction false} StrictlyDescendingSorted(s: seq<Id>)
    requires StrictlyDescending(s)
    ensures forall i, j | 0 <= i < j < |s| :: Less(s[j], s[i])
    ensures Descending(s) && NoDup(s)
  {
    if |s| > 1 {
      StrictlyDescendingSorted(s[1..]);
      forall j | 1 < j < |s|
        ensures Less(s[j], s[0])
      {
        assert Less(s[j], s[1]) by { assert s[j] == s[1..][j - 1] && s[1] == s[1..][0]; }
        LessTransitive(s[j], s[1], s[0]);
      }
    }
    forall i, j | 0 <= i < j < |s|
      ensures !Less(s[i], s[j]) && s[i] != s[j]
    {
      if |s| > 1 && i > 0 {
        assert s[i] == s[1..][i - 1] && s[j] == s[1..][j - 1];
      }
      LessTrichotomy(s[i], s[j]);
      LessIrreflexive(s[i]);
    }
  }

  /** Afters that are all visited and none on the path change nothing. */
  lemma {:induction false} AftersSeen(g: Graph, cont: bool, id: Id, afters: seq<Id>, anc: seq<Id>, visited: set<Id>, sorted: seq<Id>)
    requires Closed(g) && visited <= g.Keys
    requires forall a | a in afters :: a in visited && a !in anc
    ensures VisitAfters(g, cont, id, afters, anc, visited, sorted) == Walked(visited, sorted)
    decreases |afters|
  {
    if afters != [] {
      AftersSeen(g, cont, id, afters[1..], anc, visited, sorted);
    }
  }

  /** An unvisited node whose afters are all visited and off the path goes in front alone. */
  lemma VisitLeaf(g: Graph, cont: bool, k: Id, anc: seq<Id>, visited: set<Id>, sorted: seq<Id>)
    requires Closed(g) && visited <= g.Keys && k in g && k !in visited
    requires forall a | a in g[k] :: a in visited && a !in anc
    ensures Visit(g, cont, k, anc, visited, sorted) == Walked(visited + {k}, [k] + sorted)
  {
    SortedAfters(g, k);
    AftersSeen(g, cont, k, SortedDesc(g[k]), anc + [k], visited + {k}, sorted);
  }

  /** A node whose one after is off the path walks that after, then goes in front. */
  lemma VisitSingle(g: Graph, cont: bool, k: Id, a: Id, anc: seq<Id>, visited: set<Id>, sorted: seq<Id>, v: set<Id>, s: seq<Id>)
    requires Closed(g) && visited <= g.Keys && k in g && k !in visited
    requires g[k] == [a] && a !in anc + [k]
    requires (ClosedAfter(g, k, a); Visit(g, cont, a, anc + [k], visited + {k}, sorted) == Walked(v, s))
    ensures Visit(g, cont, k, anc, visited, sorted) == Walked(v, [k] + s)
  {
    assert SortedDesc([a]) == [a];
    assert [a][1..] == [];
    assert VisitAfters(g, cont, k, [a], anc + [k], visited + {k}, sorted) == Walked(v, s);
  }

  /**
   * `p` is a run: unvisited nodes off the path `anc`, each with the next
   * one as its only after, the last with only visited afters that are
   * off the path.
   */
  ghost predicate Run(g: Graph, p: seq<Id>, anc: seq<Id>, visited: set<Id>)
    decreases |p|
  {
    && p != [] && p[0] in g && p[0] !in visited && p[0] !in anc
    && if |p| == 1 then forall a | a in g[p[0]] :: a in visited && a !in anc
       else g[p[0]] == [p[1]] && Run(g, p[1..], anc + [p[0]], visited + {p[0]})
  }

  lemma HeadTail(p: seq<Id>, visited: set<Id>, sorted: seq<Id>)
    requires p != []
    ensures visited + Elems(p) == visited + {p[0]} + Elems(p[1..])
    ensures p + sorted == [p[0]] + (p[1..] + sorted)
  {
    assert p == [p[0]] + p[1..];
  }

  /** Visiting the head of a run visits the whole run and puts it in front of the output as is. */
  lemma {:induction false} VisitRun(g: Graph, cont: bool, p: seq<Id>, anc: seq<Id>, visited: set<Id>, sorted: seq<Id>)
    requires Closed(g) && visited <= g.Keys && Run(g, p, anc, visited)
    ensures Visit(g, cont, p[0], anc, visited, sorted) == Walked(visited + Elems(p), p + sorted)
    decreases |p|
  {
    var k := p[0];
    HeadTail(p, visited, sorted);
    if |p| == 1 {
      VisitLeaf(g, cont, k, anc, visited, sorted);
      assert p[1..] == [];
    } else {
      var q := p[1..];
      VisitRun(g, cont, q, anc + [k], visited + {k}, sorted);
      VisitSingle(g, cont, k, p[1], anc, visited, sorted, visited + {k} + Elems(q), q + sorted);
    }
  }

  /** A root heading a run places the run and moves on. */
  lemma RootsRun(g: Graph, cont: bool, roots: seq<Id>, p: seq<Id>, visited: set<Id>, sorted: seq<Id>)
    requires Closed(g) && visited <= g.Keys && forall a | a in roots :: a in g
    requires roots != [] && Run(g, p, [], visited) && roots[0] == p[0]
    ensures (VisitRun(g, cont, p, [], visited, sorted);
      VisitRoots(g, cont, roots, visited, sorted) == VisitRoots(g, cont, roots[1..], visited + Elems(p), p + sorted))
  {
    VisitRun(g, cont, p, [], visited, sorted);
  }

  /** Every root, when its turn comes, is visited already or has only visited afters. */
  ghost predicate Leaves(g: Graph, roots: seq<Id>, visited: set<Id>)
    decreases |roots|
  {
    roots == [] ||
    (roots[0] in g && (forall a | a in g[roots[0]] :: a in visited) && Leaves(g, roots[1..], visited + {roots[0]}))
  }

  /** The output once each root not yet visited is put in front, one by one. */
  function Placed(roots: seq<Id>, visited: set<Id>, sorted: seq<Id>): seq<Id>
    decreases |roots|
  {
    if roots == [] then sorted
    else Placed(roots[1..], visited + {roots[0]}, if roots[0] in visited then sorted else [roots[0]] + sorted)
  }

  /** Roots that are leaves when reached are placed one by one, in reverse. */
  lemma {:induction false} RootsLeaves(g: Graph, cont: bool, roots: seq<Id>, visited: set<Id>, sorted: seq<Id>)
    requires Closed(g) && visited <= g.Keys && forall a | a in roots :: a in g
    requires Leaves(g, roots, visited)
    ensures VisitRoots(g, cont, roots, visited, sorted) == Walked(visited + Elems(roots), Placed(roots, visited, sorted))
    decreases |roots|
  {
    if roots != [] {
      var k := roots[0];
      HeadTail(roots, visited, sorted);
      if k in visited {
        assert visited + {k} == visited;
      } else {
        assert Run(g, [k], [], visited);
        VisitRun(g, cont, [k], [], visited, sorted);
        HeadTail([k], visited, sorted);
        assert Visit(g, cont, k, [], visited, sorted) == Walked(visited + {k}, [k] + sorted);
      }
      var s1 := if k in visited then sorted else [k] + sorted;
      assert VisitRoots(g, cont, roots, visited, sorted) == VisitRoots(g, cont, roots[1..], visited + {k}, s1);
      RootsLeaves(g, cont, roots[1..], visited + {k}, s1);
      assert Placed(roots, visited, sorted) == Placed(roots[1..], visited + {k}, s1);
    }
  }

  /** Roots visited already, whose afters are visited too, are passed over. */
  lemma {:induction false} SeenRoots(g: Graph, seen: seq<Id>, rest: seq<Id>, visited: set<Id>, sorted: seq<Id>)
    requires forall a | a in seen :: a in visited && a in g && forall b | b in g[a] :: b in visited
    requires Leaves(g, rest, visited)
    ensures Leaves(g, seen + rest, visited)
    ensures Placed(seen + rest, visited, sorted) == Placed(rest, visited, sorted)
    decreases |seen|
  {
    if seen != [] {
      assert (seen + rest)[1..] == seen[1..] + rest;
      assert visited + {seen[0]} == visited;
      SeenRoots(g, seen[1..], rest, visited, sorted);
    } else {
      assert seen + rest == rest;
    }
  }

  function Reversed(s: seq<Id>): seq<Id>
  {
    if s == [] then [] else Reversed(s[1..]) + [s[0]]
  }

  /** Unvisited roots without afters are placed one by one, so they end up reversed. */
  lemma {:induction false} LooseRoots(g: Graph, rest: seq<Id>, visited: set<Id>, sorted: seq<Id>)
    requires NoDup(rest) && forall a | a in rest :: a in g && g[a] == [] && a !in visited
    ensures Leaves(g, rest, visited)
    ensures Placed(rest, visited, sorted) == Reversed(rest) + sorted
    decreases |rest|
  {
    if rest != [] {
      var k := rest[0];
      assert forall a | a in rest[1..] :: a != k by {
        forall a | a in rest[1..]
          ensures a != k
        {
          var i :| 0 <= i < |rest[1..]| && rest[1..][i] == a;
          assert rest[i + 1] == a;
        }
      }
      LooseRoots(g, rest[1..], visited + {k}, [k] + sorted);
      assert Reversed(rest[1..]) + ([k] + sorted) == Reversed(rest) + sorted;
    }
  }

  // ---------------------------------------------------------------------
  // Building the graph of a concrete input

  lemma IdsMembers(edges: seq<seq<Id>>)
    ensures forall x :: x in Ids(edges) <==> exists e :: e in edges && x in e
  {
    forall x | x in Ids(edges)
      ensures exists e :: e in edges && x in e
    {
      var i, j :| 0 <= i < |edges| && 0 <= j < |edges[i]| && edges[i][j] == x;
      assert edges[i] in edges;
    }
    forall x, e | e in edges && x in e
      ensures x in Ids(edges)
    {
      var i :| 0 <= i < |edges| && edges[i] == e;
      var j :| 0 <= j < |e| && e[j] == x;
      assert edges[i][j] == x;
    }
  }

  lemma WithoutSelf(x: Id)
    ensures Without([x], x) == []
  {
    assert [x][..0] == [];
  }

  lemma WithoutPair(x: Id, y: Id)
    requires x != y
    ensures Without([x], x) == [] && Without([x, y], x) == [y]
  {
    assert [x][..0] == [] && [x, y][..1] == [x];
  }

  /** The afters of a concatenation are those of each part, in order. */
  lemma {:induction false} AftersOfAppend(a: seq<seq<Id>>, b: seq<seq<Id>>, k: Id)
    ensures AftersOf(a + b, k) == AftersOf(a, k) + AftersOf(b, k)
    decreases |b|
  {
    if b != [] {
      var front := b[..|b| - 1];
      assert (a + b)[..|a + b| - 1] == a + front;
      AftersOfAppend(a, front, k);
    } else {
      assert a + b == a;
    }
  }

  /** A key that leads no group with other elements gets no afters. */
  lemma {:induction false} AftersOfNone(edges: seq<seq<Id>>, k: Id)
    requires forall e | e in edges && e != [] && e[0] == k :: Without(e, k) == []
    ensures AftersOf(edges, k) == []
  {
    if edges != [] {
      AftersOfNone(edges[..|edges| - 1], k);
    }
  }

  /** A key that leads no group gets no afters. */
  lemma Unled(edges: seq<seq<Id>>, k: Id)
    requires forall e | e in edges :: e != [] && e[0] != k
    ensures AftersOf(edges, k) == []
  {
    AftersOfNone(edges, k);
  }

  /** A key whose afters all come from the one group `edge`. */
  lemma AftersOfOne(pre: seq<seq<Id>>, edge: seq<Id>, post: seq<seq<Id>>, k: Id)
    requires edge != [] && edge[0] == k
    requires forall e | e in pre && e != [] && e[0] == k :: Without(e, k) == []
    requires forall e | e in post && e != [] && e[0] == k :: Without(e, k) == []
    ensures AftersOf(pre + [edge] + post, k) == Without(edge, k)
  {
    var front := pre + [edge];
    assert AftersOf([edge], k) == Without(edge, k) by {
      assert [edge][..0] == [];
    }
    assert AftersOf(front, k) == Without(edge, k) by {
      AftersOfNone(pre, k);
      AftersOfAppend(pre, [edge], k);
    }
    assert AftersOf(front + post, k) == AftersOf(front, k) by {
      AftersOfNone(post, k);
      AftersOfAppend(front, post, k);
    }
  }

  // ---------------------------------------------------------------------
  // `[[1, 2], [2, 3]]` gives `[1, 2, 3]`

  lemma ChainGraph(x: Id, y: Id, z: Id)
    requires x != y && y != z && x != z
    ensures var g := ConstraintGraph([[x, y], [y, z]]);
      g.Keys == {x, y, z} && g[x] == [y] && g[y] == [z] && g[z] == []
  {
    var e := [[x, y], [y, z]];
    IdsMembers(e);
    assert Ids(e) == {x, y, z} by {
      assert x in e[0] && y in e[0] && z in e[1];
    }
    WithoutPair(x, y);
    WithoutPair(y, z);
    assert e == [] + [e[0]] + [e[1]] && e == [e[0]] + [e[1]] + [];
    AftersOfOne([], e[0], [e[1]], x);
    AftersOfOne([e[0]], e[1], [], y);
    AftersOfNone(e, z);
  }

  lemma ChainWalk(g: Graph, x: Id, y: Id, z: Id)
    requires x != y && y != z && x != z
    requires g.Keys == {x, y, z} && g[x] == [y] && g[y] == [z] && g[z] == []
    ensures Closed(g) && Outcome(VisitRoots(g, false, [z, y, x], {}, [])) == Sorted([x, y, z])
  {
    assert Closed(g);
    assert [z, y, x][1..] == [y, x] && [y, x][1..] == [x] && [x][1..] == [];
    assert {} + {z} == {z} && {z} + {y} == {z, y};
    assert Leaves(g, [x], {z, y});
    assert Leaves(g, [y, x], {z});
    assert Leaves(g, [z, y, x], {});
    RootsLeaves(g, false, [z, y, x], {}, []);
    assert Placed([x], {z, y}, [y, z]) == [x, y, z];
    assert [y] + [z] == [y, z];
    assert Placed([y, x], {z}, [z]) == Placed([x], {z, y}, [y, z]);
    assert [z] + [] == [z];
    assert Placed([z, y, x], {}, []) == Placed([y, x], {z}, [z]);
    assert Placed([z, y, x], {}, []) == [x, y, z];
  }

  /** Groups `[x, y]` and `[y, z]`, with keys descending as `z, y, x`, sort as `[x, y, z]`. */
  lemma ChainResult(x: Id, y: Id, z: Id)
    requires x != y && y != z && x != z
    requires Descending([z, y, x])
    ensures TopSortSpec([[x, y], [y, z]], false) == Sorted([x, y, z])
  {
    var e := [[x, y], [y, z]];
    ChainGraph(x, y, z);
    ResultFromGraph(e, false, [z, y, x]);
    ChainWalk(ConstraintGraph(e), x, y, z);
  }

  /** First test of the suite: the groups `[1, 2]` and `[2, 3]` sort as `[1, 2, 3]`. */
  lemma ChainScenario(e: seq<seq<Id>>)
    requires e == [["1", "2"], ["2", "3"]]
    ensures TopSortSpec(e, false) == Sorted(["1", "2", "3"])
  {
    var roots := ["3", "2", "1"];
    assert "1" != "2" && "1" != "3" && "2" != "3" by {
      assert "1"[0] != "2"[0] && "1"[0] != "3"[0] && "2"[0] != "3"[0];
    }
    assert Descending(roots) by {
      assert StrictlyDescending(roots);
      StrictlyDescendingSorted(roots);
    }
    ChainResult("1", "2", "3");
  }

  // ---------------------------------------------------------------------
  // `[[0], [2, 3], [1, 2], [0]]` gives `[0, 1, 2, 3]`

  lemma SplitGraph(w: Id, x: Id, y: Id, z: Id)
    requires w != x && w != y && w != z && x != y && x != z && y != z
    ensures var g := ConstraintGraph([[w], [y, z], [x, y], [w]]);
      g.Keys == {w, x, y, z} && g[w] == [] && g[x] == [y] && g[y] == [z] && g[z] == []
  {
    var e := [[w], [y, z], [x, y], [w]];
    assert Ids(e) == {w, x, y, z} by {
      IdsMembers(e);
      assert w in e[0] && y in e[1] && z in e[1] && x in e[2];
    }
    assert AftersOf(e, x) == [y] by {
      WithoutPair(w, x);
      WithoutPair(x, y);
      assert e == [[w], [y, z]] + [[x, y]] + [[w]];
      AftersOfOne([[w], [y, z]], [x, y], [[w]], x);
    }
    assert AftersOf(e, y) == [z] by {
      WithoutPair(w, y);
      WithoutPair(y, z);
      assert e == [[w]] + [[y, z]] + [[x, y], [w]];
      AftersOfOne([[w]], [y, z], [[x, y], [w]], y);
    }
    assert AftersOf(e, w) == [] by {
      WithoutPair(w, x);
      AftersOfNone(e, w);
    }
    assert AftersOf(e, z) == [] by {
      AftersOfNone(e, z);
    }
  }

  lemma SplitWalk(g: Graph, w: Id, x: Id, y: Id, z: Id)
    requires w != x && w != y && w != z && x != y && x != z && y != z
    requires g.Keys == {w, x, y, z} && g[w] == [] && g[x] == [y] && g[y] == [z] && g[z] == []
    ensures Closed(g) && Outcome(VisitRoots(g, false, [z, y, x, w], {}, [])) == Sorted([w, x, y, z])
  {
    assert Closed(g);
    assert Leaves(g, [z, y, x, w], {}) by {
      assert [z, y, x, w][1..] == [y, x, w] && [y, x, w][1..] == [x, w] && [x, w][1..] == [w] && [w][1..] == [];
      assert {} + {z} == {z} && {z} + {y} == {z, y} && {z, y} + {x} == {z, y, x};
      assert Leaves(g, [w], {z, y, x});
      assert Leaves(g, [x, w], {z, y});
      assert Leaves(g, [y, x, w], {z});
    }
    assert Placed([z, y, x, w], {}, []) == [w, x, y, z] by {
      assert [z, y, x, w][1..] == [y, x, w] && [y, x, w][1..] == [x, w] && [x, w][1..] == [w] && [w][1..] == [];
      assert {} + {z} == {z} && {z} + {y} == {z, y} && {z, y} + {x} == {z, y, x};
      assert [z] + [] == [z] && [y] + [z] == [y, z] && [x] + [y, z] == [x, y, z];
      assert Placed([w], {z, y, x}, [x, y, z]) == [w, x, y, z];
      assert Placed([x, w], {z, y}, [y, z]) == Placed([w], {z, y, x}, [x, y, z]);
      assert Placed([y, x, w], {z}, [z]) == Placed([x, w], {z, y}, [y, z]);
    }
    RootsLeaves(g, false, [z, y, x, w], {}, []);
  }

  /** A later test: `[[0], [2, 3], [1, 2], [0]]` sorts as `[0, 1, 2, 3]`; the repeated `[0]` adds nothing. */
  lemma SplitScenario(e: seq<seq<Id>>)
    requires e == [["0"], ["2", "3"], ["1", "2"], ["0"]]
    ensures TopSortSpec(e, false) == Sorted(["0", "1", "2", "3"])
  {
    var roots := ["3", "2", "1", "0"];
    assert "0" != "1" && "0" != "2" && "0" != "3" && "1" != "2" && "1" != "3" && "2" != "3" by {
      assert "0"[0] != "1"[0] && "0"[0] != "2"[0] && "0"[0] != "3"[0];
      assert "1"[0] != "2"[0] && "1"[0] != "3"[0] && "2"[0] != "3"[0];
    }
    assert Descending(roots) && NoDup(roots) by {
      assert StrictlyDescending(roots);
      StrictlyDescendingSorted(roots);
    }
    SplitGraph("0", "1", "2", "3");
    ResultFromGraph(e, false, roots);
    SplitWalk(ConstraintGraph(e), "0", "1", "2", "3");
  }

  // ---------------------------------------------------------------------
  // `[[6, 5], [5, 4], [22, 21], [21, 20], [4, 22], [10], [11], [12]]`
  // gives `[10, 11, 12, 6, 5, 4, 22, 21, 20]`

  /** The input of that test, over nine different identities listed as the sort orders them. */
  function DescentInput(ids: seq<Id>): seq<seq<Id>>
    requires |ids| == 9
  {
    [[ids[0], ids[1]], [ids[1], ids[2]], [ids[3], ids[4]], [ids[4], ids[5]], [ids[2], ids[3]], [ids[8]], [ids[7]], [ids[6]]]
  }

  /** Its graph: one run through the first six identities, and three loose ones. */
  ghost predicate DescentShape(g: Graph, ids: seq<Id>)
    requires |ids| == 9
  {
    && g.Keys == Elems(ids)
    && g[ids[0]] == [ids[1]] && g[ids[1]] == [ids[2]] && g[ids[2]] == [ids[3]]
    && g[ids[3]] == [ids[4]] && g[ids[4]] == [ids[5]] && g[ids[5]] == []
    && g[ids[6]] == [] && g[ids[7]] == [] && g[ids[8]] == []
  }

  lemma DescentIds(ids: seq<Id>)
    requires |ids| == 9
    ensures Ids(DescentInput(ids)) == Elems(ids)
  {
    var e := DescentInput(ids);
    var a6, a5, a4, a22, a21, a20, a12, a11, a10 := ids[0], ids[1], ids[2], ids[3], ids[4], ids[5], ids[6], ids[7], ids[8];
    IdsMembers(e);
    assert a6 in e[0] && a5 in e[0] && a4 in e[1] && a22 in e[2] && a21 in e[2] && a20 in e[3];
    assert a10 in e[5] && a11 in e[6] && a12 in e[7];
    assert Elems(ids) == {a6, a5, a4, a22, a21, a20, a12, a11, a10};
  }

  /** Every group of that input is non-empty and its identities are exactly `ids`. */
  lemma DescentRoots(ids: seq<Id>)
    requires |ids| == 9
    ensures NoEmptyEdge(DescentInput(ids))
    ensures forall x :: x in ids <==> x in Ids(DescentInput(ids))
  {
    DescentIds(ids);
    forall x
      ensures x in ids <==> x in Ids(DescentInput(ids))
    {
      assert x in ids <==> x in Elems(ids);
    }
  }

  /** The groups of that input that hold two identities. */
  function DescentPairs(ids: seq<Id>): seq<seq<Id>>
    requires |ids| == 9
  {
    [[ids[0], ids[1]], [ids[1], ids[2]], [ids[3], ids[4]], [ids[4], ids[5]], [ids[2], ids[3]]]
  }

  /** The first three identities of the run take their afters from one pair each. */
  lemma DescentPairsFront(ids: seq<Id>)
    requires |ids| == 9 && NoDup(ids)
    ensures var r := DescentPairs(ids);
      AftersOf(r, ids[0]) == [ids[1]] && AftersOf(r, ids[1]) == [ids[2]] && AftersOf(r, ids[2]) == [ids[3]]
  {
    var a6, a5, a4, a22, a21, a20 := ids[0], ids[1], ids[2], ids[3], ids[4], ids[5];
    var r := DescentPairs(ids);
    assert AftersOf(r, a6) == [a5] by {
      WithoutPair(a6, a5);
      assert r == [] + [[a6, a5]] + [[a5, a4], [a22, a21], [a21, a20], [a4, a22]];
      AftersOfOne([], [a6, a5], [[a5, a4], [a22, a21], [a21, a20], [a4, a22]], a6);
    }
    assert AftersOf(r, a5) == [a4] by {
      WithoutPair(a5, a4);
      assert r == [[a6, a5]] + [[a5, a4]] + [[a22, a21], [a21, a20], [a4, a22]];
      AftersOfOne([[a6, a5]], [a5, a4], [[a22, a21], [a21, a20], [a4, a22]], a5);
    }
    assert AftersOf(r, a4) == [a22] by {
      WithoutPair(a4, a22);
      assert r == [[a6, a5], [a5, a4], [a22, a21], [a21, a20]] + [[a4, a22]] + [];
      AftersOfOne([[a6, a5], [a5, a4], [a22, a21], [a21, a20]], [a4, a22], [], a4);
    }
  }

  /** So do the next two. */
  lemma DescentPairsBack(ids: seq<Id>)
    requires |ids| == 9 && NoDup(ids)
    ensures var r := DescentPairs(ids);
      AftersOf(r, ids[3]) == [ids[4]] && AftersOf(r, ids[4]) == [ids[5]]
  {
    var a6, a5, a4, a22, a21, a20 := ids[0], ids[1], ids[2], ids[3], ids[4], ids[5];
    var r := DescentPairs(ids);
    assert AftersOf(r, a22) == [a21] by {
      WithoutPair(a22, a21);
      assert r == [[a6, a5], [a5, a4]] + [[a22, a21]] + [[a21, a20], [a4, a22]];
      AftersOfOne([[a6, a5], [a5, a4]], [a22, a21], [[a21, a20], [a4, a22]], a22);
    }
    assert AftersOf(r, a21) == [a20] by {
      WithoutPair(a21, a20);
      assert r == [[a6, a5], [a5, a4], [a22, a21]] + [[a21, a20]] + [[a4, a22]];
      AftersOfOne([[a6, a5], [a5, a4], [a22, a21]], [a21, a20], [[a4, a22]], a21);
    }
  }

  /** Every identity of the input takes its afters from the pairs alone; the three singletons add none. */
  lemma DescentSplit(ids: seq<Id>, j: nat)
    requires |ids| == 9 && j < 9
    ensures AftersOf(DescentInput(ids), ids[j]) == AftersOf(DescentPairs(ids), ids[j])
  {
    var k := ids[j];
    var loose := [[ids[8]], [ids[7]], [ids[6]]];
    assert DescentInput(ids) == DescentPairs(ids) + loose;
    AftersOfAppend(DescentPairs(ids), loose, k);
    WithoutSelf(ids[8]);
    WithoutSelf(ids[7]);
    WithoutSelf(ids[6]);
    AftersOfNone(loose, k);
  }

  /** The last identity of the run and the three singletons lead no pair. */
  lemma DescentLoose(ids: seq<Id>, j: nat)
    requires |ids| == 9 && NoDup(ids) && 5 <= j < 9
    ensures AftersOf(DescentPairs(ids), ids[j]) == []
  {
    assert ids[j] != ids[0] && ids[j] != ids[1] && ids[j] != ids[2] && ids[j] != ids[3] && ids[j] != ids[4];
    Unled(DescentPairs(ids), ids[j]);
  }

  lemma DescentGraph(ids: seq<Id>)
    requires |ids| == 9 && NoDup(ids)
    ensures DescentShape(ConstraintGraph(DescentInput(ids)), ids)
  {
    DescentIds(ids);
    DescentPairsFront(ids);
    DescentPairsBack(ids);
    forall j | 0 <= j < 9
      ensures AftersOf(DescentInput(ids), ids[j]) == AftersOf(DescentPairs(ids), ids[j])
    {
      DescentSplit(ids, j);
    }
    DescentLoose(ids, 5);
    DescentLoose(ids, 6);
    DescentLoose(ids, 7);
    DescentLoose(ids, 8);
  }

  /** An element of a list without repetition does not occur before its position. */
  lemma PrefixFacts(s: seq<Id>, i: nat)
    requires NoDup(s) && i < |s|
    ensures s[i] !in s[..i] && s[i] !in Elems(s[..i])
    ensures s[..i] + [s[i]] == s[..i + 1] && Elems(s[..i]) + {s[i]} == Elems(s[..i + 1])
  {
    assert s[..i + 1] == s[..i] + [s[i]];
  }

  /** The run's identities from position `i` on form a run once those before it are entered. */
  lemma {:induction false} DescentRunFrom(g: Graph, ids: seq<Id>, i: nat)
    requires |ids| == 9 && NoDup(ids) && DescentShape(g, ids) && i < 6
    ensures Run(g, ids[i..6], ids[..i], Elems(ids[..i]))
    decreases 6 - i
  {
    var k := ids[i];
    PrefixFacts(ids, i);
    assert k in g;
    if i == 5 {
      assert ids[5..6] == [k] && g[k] == [];
    } else {
      DescentRunFrom(g, ids, i + 1);
      assert g[k] == [ids[i + 1]] by {
        if i == 0 {} else if i == 1 {} else if i == 2 {} else if i == 3 {} else {}
      }
      assert ids[i..6][1..] == ids[i + 1..6];
    }
  }

  lemma Reversed3(x: Id, y: Id, z: Id)
    ensures Reversed([x, y, z]) == [z, y, x]
  {
    assert [x, y, z][1..] == [y, z] && [y, z][1..] == [z] && [z][1..] == [];
    assert Reversed([z]) == [z];
    assert Reversed([y, z]) == [z, y];
  }

  /** The three singletons are different from each other and from the run. */
  lemma DescentLooseApart(ids: seq<Id>)
    requires |ids| == 9 && NoDup(ids)
    ensures NoDup(ids[6..]) && forall a | a in ids[6..] :: a !in Elems(ids[..6])
  {
    forall a | a in ids[6..]
      ensures a !in Elems(ids[..6])
    {
      var i :| 6 <= i < 9 && ids[i] == a;
      forall j | 0 <= j < 6
        ensures ids[..6][j] != a
      {
        assert ids[..6][j] == ids[j];
      }
    }
  }

  /** The three singletons, none visited by the run, are placed in reverse. */
  lemma DescentLooseRoots(g: Graph, ids: seq<Id>)
    requires |ids| == 9 && NoDup(ids) && DescentShape(g, ids)
    ensures Leaves(g, ids[6..], Elems(ids[..6]))
    ensures Placed(ids[6..], Elems(ids[..6]), ids[..6]) == [ids[8], ids[7], ids[6]] + ids[..6]
  {
    DescentLooseApart(ids);
    assert ids[6..] == [ids[6], ids[7], ids[8]];
    LooseRoots(g, ids[6..], Elems(ids[..6]), ids[..6]);
    Reversed3(ids[6], ids[7], ids[8]);
  }

  /** After the run, the remaining roots are visited already or have no afters. */
  lemma DescentLeaves(g: Graph, ids: seq<Id>)
    requires |ids| == 9 && NoDup(ids) && DescentShape(g, ids)
    ensures Leaves(g, ids[1..], Elems(ids[..6]))
    ensures Placed(ids[1..], Elems(ids[..6]), ids[..6]) == [ids[8], ids[7], ids[6]] + ids[..6]
  {
    var v := Elems(ids[..6]);
    var seen := ids[1..6];
    assert ids[1..] == seen + ids[6..];
    assert forall a | a in seen :: a in v && a in g && forall b | b in g[a] :: b in v by {
      assert ids[..6] == [ids[0], ids[1], ids[2], ids[3], ids[4], ids[5]];
      assert seen == [ids[1], ids[2], ids[3], ids[4], ids[5]];
    }
    DescentLooseRoots(g, ids);
    SeenRoots(g, seen, ids[6..], v, ids[..6]);
  }

  lemma DescentWalk(g: Graph, ids: seq<Id>)
    requires |ids| == 9 && NoDup(ids) && DescentShape(g, ids)
    ensures Closed(g)
    ensures Outcome(VisitRoots(g, false, ids, {}, [])) == Sorted([ids[8], ids[7], ids[6]] + ids[..6])
  {
    assert Closed(g) by {
      assert forall j | 0 <= j < 9 :: ids[j] in g;
    }
    DescentRunFrom(g, ids, 0);
    assert ids[0..6] == ids[..6] && ids[..0] == [] && Elems(ids[..0]) == {};
    RootsRun(g, false, ids, ids[..6], {}, []);
    DescentLeaves(g, ids);
    assert {} + Elems(ids[..6]) == Elems(ids[..6]) && ids[..6] + [] == ids[..6];
    RootsLeaves(g, false, ids[1..], Elems(ids[..6]), ids[..6]);
  }

  /** The result on that input, for any nine different identities listed in descending order. */
  lemma DescentResult(e: seq<seq<Id>>, ids: seq<Id>)
    requires |ids| == 9 && Descending(ids) && NoDup(ids) && e == DescentInput(ids)
    ensures TopSortSpec(e, false) == Sorted([ids[8], ids[7], ids[6], ids[0], ids[1], ids[2], ids[3], ids[4], ids[5]])
  {
    DescentRoots(ids);
    DescentGraph(ids);
    ResultFromGraph(e, false, ids);
    DescentWalk(ConstraintGraph(e), ids);
    DescentOrder(ids);
  }

  lemma DescentOrder(ids: seq<Id>)
    requires |ids| == 9
    ensures [ids[8], ids[7], ids[6]] + ids[..6] == [ids[8], ids[7], ids[6], ids[0], ids[1], ids[2], ids[3], ids[4], ids[5]]
  {
  }

  /**
   * A later test: `[[6, 5], [5, 4], [22, 21], [21, 20], [4, 22], [10],
   * [11], [12]]` sorts as `[10, 11, 12, 6, 5, 4, 22, 21, 20]`. The keys
   * compare as strings, so "22" comes between "4" and "21".
   */
  lemma DescentScenario(e: seq<seq<Id>>)
    requires e == [["6", "5"], ["5", "4"], ["22", "21"], ["21", "20"], ["4", "22"], ["10"], ["11"], ["12"]]
    ensures TopSortSpec(e, false) == Sorted(["10", "11", "12", "6", "5", "4", "22", "21", "20"])
  {
    var ids := ["6", "5", "4", "22", "21", "20", "12", "11", "10"];
    assert Descending(ids) && NoDup(ids) by {
      assert StrictlyDescending(ids);
      StrictlyDescendingSorted(ids);
    }
    DescentResult(e, ids);
  }

  // ---------------------------------------------------------------------
  // Circular inputs: strict mode throws, continue mode returns each identity once

  /** The leader of a group has an edge to each other identity of that group. */
  lemma GroupEdge(e: seq<seq<Id>>, i: nat, j: nat)
    requires i < |e| && j < |e[i]| && e[i][j] != e[i][0]
    ensures var g := ConstraintGraph(e); e[i][0] in g && e[i][j] in g && e[i][j] in g[e[i][0]]
  {
    assert e[i][0] in Ids(e) && e[i][j] in Ids(e);
    assert Constraint(e, e[i][0], e[i][j]);
    AftersOfConstraint(e, e[i][0], e[i][j]);
  }

  /** On input with a cycle, strict mode throws and continue mode lists `ids`, the identities named, once each. */
  lemma CycleOutcomes(e: seq<seq<Id>>, ids: seq<Id>)
    requires NoEmptyEdge(e) && HasCycle(ConstraintGraph(e))
    requires NoDup(ids) && forall x :: x in ids <==> x in Ids(e)
    ensures TopSortSpec(e, false).CircularDependency?
    ensures TopSortSpec(e, true).Sorted? && multiset(TopSortSpec(e, true).order) == multiset(ids)
  {
    StrictThrowsIffCycle(e);
    EmptyEdgeExactly(e, true);
    ContinueNeverThrows(e);
    SortedIsPermutation(e, true);
    SameElemsMultiset(TopSortSpec(e, true).order, ids);
  }

  lemma TwoCycle(x: Id, y: Id)
    requires x != y
    ensures var e := [[x, y], [y, x]];
      && TopSortSpec(e, false).CircularDependency?
      && TopSortSpec(e, true).Sorted? && multiset(TopSortSpec(e, true).order) == multiset{x, y}
  {
    var e := [[x, y], [y, x]];
    assert HasCycle(ConstraintGraph(e)) by {
      GroupEdge(e, 0, 1);
      GroupEdge(e, 1, 1);
      assert IsCycle(ConstraintGraph(e), [x, y, x]);
    }
    assert NoEmptyEdge(e) && NoDup([x, y]);
    assert forall z :: z in [x, y] <==> z in Ids(e) by {
      IdsMembers(e);
      assert x in e[0] && y in e[0];
    }
    CycleOutcomes(e, [x, y]);
  }

  /** A constraint of two identities that lead each other is between those two, one way or the other. */
  lemma TwoCycleNames(x: Id, y: Id, id: Id, after: Id)
    requires Constraint([[x, y], [y, x]], id, after)
    ensures {id, after} == {x, y}
  {
    var e := [[x, y], [y, x]];
    var i, j :| 0 <= i < |e| && 0 <= j < |e[i]| && e[i][0] == id && e[i][j] == after && after != id;
    assert id in {x, y} && after in {x, y};
  }

  lemma ThreeCycle(x: Id, y: Id, z: Id)
    requires x != y && y != z && x != z
    ensures var e := [[x, y], [y, z], [z, x]];
      && TopSortSpec(e, false).CircularDependency?
      && TopSortSpec(e, true).Sorted? && multiset(TopSortSpec(e, true).order) == multiset{x, y, z}
  {
    var e := [[x, y], [y, z], [z, x]];
    assert HasCycle(ConstraintGraph(e)) by {
      GroupEdge(e, 0, 1);
      GroupEdge(e, 1, 1);
      GroupEdge(e, 2, 1);
      assert IsCycle(ConstraintGraph(e), [x, y, z, x]);
    }
    assert NoEmptyEdge(e) && NoDup([x, y, z]);
    assert forall w :: w in [x, y, z] <==> w in Ids(e) by {
      IdsMembers(e);
      assert x in e[0] && y in e[0] && z in e[1];
    }
    CycleOutcomes(e, [x, y, z]);
  }

  /**
   * The circular tests: `[[1, 2], [2, 1]]` throws in strict mode, and the
   * error names both 1 and 2; with `continueOnCircularDependency` it
   * returns two items, 1 and 2.
   */
  lemma TwoCycleScenario(e: seq<seq<Id>>)
    requires e == [["1", "2"], ["2", "1"]]
    ensures TopSortSpec(e, false).CircularDependency?
    ensures var r := TopSortSpec(e, false); {r.id, r.after} == {"1", "2"}
    ensures var r := TopSortSpec(e, true);
      r.Sorted? && |r.order| == 2 && "1" in r.order && "2" in r.order
  {
    assert "1" != "2" by { assert "1"[0] != "2"[0]; }
    TwoCycle("1", "2");
    var r := TopSortSpec(e, false);
    CircularIsCycle(e, false);
    TwoCycleNames("1", "2", r.id, r.after);
    var order := TopSortSpec(e, true).order;
    assert |multiset(order)| == 2 && "1" in multiset(order) && "2" in multiset(order);
  }

  /**
   * `[[1, 2], [2, 3], [3, 1]]` throws in strict mode; with
   * `continueOnCircularDependency` it returns three items, 1, 2 and 3.
   */
  lemma ThreeCycleScenario(e: seq<seq<Id>>)
    requires e == [["1", "2"], ["2", "3"], ["3", "1"]]
    ensures TopSortSpec(e, false).CircularDependency?
    ensures var r := TopSortSpec(e, true);
      r.Sorted? && |r.order| == 3 && "1" in r.order && "2" in r.order && "3" in r.order
  {
    assert "1" != "2" && "2" != "3" && "1" != "3" by {
      assert "1"[0] != "2"[0] && "2"[0] != "3"[0] && "1"[0] != "3"[0];
    }
    ThreeCycle("1", "2", "3");
    var order := TopSortSpec(e, true).order;
    assert |multiset(order)| == 3 && "1" in multiset(order) && "2" in multiset(order) && "3" in multiset(order);
  }
}
