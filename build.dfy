/**
 * Phase 1 of `topsort`: building the `nodes` dictionary from the edge
 * groups. A group `[from, to1, to2, ...]` says that `from` comes before
 * every `to`. The functions below state, one group and one element at a
 * time, what the build loop does to the dictionary; the lemmas state what
 * the finished dictionary holds in terms of the input alone.
 */
module Build {
  import opened Order
  import opened Graphs

  /** The `nodes` dictionary: its keys in the order they were created, and each node's `afters`. */
  datatype Nodes = Nodes(keys: seq<Id>, afters: Graph)

  /** Outcome of the build: the dictionary, or the position of the first empty group (`edge[0]` is undefined there). */
  datatype Built = Built(nodes: Nodes) | EmptyAt(index: nat)

  /** The keys enumerate the dictionary, each once. */
  ghost predicate KeysListed(n: Nodes)
  {
    NoDup(n.keys) && Elems(n.keys) == n.afters.Keys
  }

  /** Keys enumerate the dictionary without repetition, and every `after` is a key. */
  ghost predicate WellFormed(n: Nodes)
  {
    KeysListed(n) && Closed(n.afters)
  }

  /** A node is created for `x` unless one already exists; an existing node is kept. */
  function Ensure(n: Nodes, x: Id): (r: Nodes)
    ensures r.afters.Keys == n.afters.Keys + {x}
    ensures r.afters[x] == AftersOr(n, x)
  {
    if x in n.afters then n else Nodes(n.keys + [x], n.afters[x := []])
  }

  /** One element `to` of the group led by `from`: skipped when it is `from`, otherwise it gets a node and is pushed onto `from`'s afters. */
  function Push(m: Nodes, from: Id, to: Id): (r: Nodes)
    requires from in m.afters
    ensures r.afters.Keys == m.afters.Keys + {to}
    ensures r.afters[from] == m.afters[from] + (if to == from then [] else [to])
  {
    if to == from then m
    else
      var m' := Ensure(m, to);
      Nodes(m'.keys, m'.afters[from := m'.afters[from] + [to]])
  }

  /** The inner `edge.forEach`, run over `edge`. */
  function AddTargets(n: Nodes, from: Id, edge: seq<Id>): (r: Nodes)
    requires from in n.afters
    ensures r.afters.Keys == n.afters.Keys + Elems(edge)
    ensures r.afters[from] == n.afters[from] + Without(edge, from)
  {
    if edge == [] then n
    else
      var front, to := edge[..|edge| - 1], edge[|edge| - 1];
      var m := AddTargets(n, from, front);
      assert Elems(edge) == Elems(front) + {to} by {
        assert edge == front + [to];
      }
      assert Without(edge, from) == Without(front, from) + (if to == from then [] else [to]);
      Push(m, from, to)
  }

  /** One iteration of the outer `edges.forEach` on a non-empty group. */
  function AddEdge(n: Nodes, edge: seq<Id>): (r: Nodes)
    requires |edge| > 0
    ensures r.afters.Keys == n.afters.Keys + Elems(edge)
    ensures r.afters[edge[0]] == AftersOr(n, edge[0]) + Without(edge, edge[0])
  {
    assert edge[0] in Elems(edge);
    AddTargets(Ensure(n, edge[0]), edge[0], edge)
  }

  /** The whole build loop; it stops at the first empty group, where the source throws. */
  function BuildNodes(edges: seq<seq<Id>>): (r: Built)
    ensures r.EmptyAt? ==> r.index < |edges| && edges[r.index] == []
  {
    if edges == [] then Built(Nodes([], map[]))
    else
      match BuildNodes(edges[..|edges| - 1])
      case EmptyAt(i) => EmptyAt(i)
      case Built(n) =>
        var edge := edges[|edges| - 1];
        if edge == [] then EmptyAt(|edges| - 1) else Built(AddEdge(n, edge))
  }

  // ---------------------------------------------------------------------
  // Reference definitions in terms of the input only

  /** Every identity named anywhere in any group. */
  ghost function Ids(edges: seq<seq<Id>>): set<Id>
  {
    set i, j | 0 <= i < |edges| && 0 <= j < |edges[i]| :: edges[i][j]
  }

  /** `s` with every occurrence of `x` removed, order and duplicates kept. */
  function Without(s: seq<Id>, x: Id): seq<Id>
  {
    if s == [] then []
    else Without(s[..|s| - 1], x) + (if s[|s| - 1] == x then [] else [s[|s| - 1]])
  }

  /** The `afters` a node keyed `k` should hold: the non-`k` elements of every group led by `k`, in input order. */
  function AftersOf(edges: seq<seq<Id>>, k: Id): seq<Id>
  {
    if edges == [] then []
    else
      var edge := edges[|edges| - 1];
      AftersOf(edges[..|edges| - 1], k) + (if edge != [] && edge[0] == k then Without(edge, k) else [])
  }

  /** Some group is led by `x` and names `y`, with `y` different from `x`. */
  ghost predicate Constraint(edges: seq<seq<Id>>, x: Id, y: Id)
  {
    exists i, j | 0 <= i < |edges| && 0 <= j < |edges[i]| :: edges[i][0] == x && edges[i][j] == y && y != x
  }

  ghost predicate NoEmptyEdge(edges: seq<seq<Id>>)
  {
    forall i | 0 <= i < |edges| :: edges[i] != []
  }

  /** The afters `n` holds for `k`, or none when `k` has no node yet. */
  function AftersOr(n: Nodes, k: Id): seq<Id>
  {
    if k in n.afters then n.afters[k] else []
  }

  /** `r` keeps every node of `n` with its afters, and only `from`'s afters grew, by `added`. */
  ghost predicate Grown(n: Nodes, r: Nodes, from: Id, added: seq<Id>)
  {
    forall k {:trigger r.afters[k]} | k in r.afters :: r.afters[k] == AftersOr(n, k) + (if k == from then added else [])
  }

  // ---------------------------------------------------------------------
  // Lemmas

  lemma {:induction false} WithoutElems(s: seq<Id>, x: Id, y: Id)
    ensures y in Without(s, x) <==> y in s && y != x
  {
    if s != [] {
      WithoutElems(s[..|s| - 1], x, y);
      assert s == s[..|s| - 1] + [s[|s| - 1]];
    }
  }

  lemma EnsureEffect(n: Nodes, x: Id)
    requires KeysListed(n)
    ensures var r := Ensure(n, x);
      && KeysListed(r)
      && r.afters.Keys == n.afters.Keys + {x}
      && Grown(n, r, x, [])
  {
    if x !in n.afters {
      assert x !in Elems(n.keys);
      assert Elems(n.keys + [x]) == Elems(n.keys) + {x};
    }
  }

  /** One element: a node exists for `to` afterwards and the keys still list the dictionary once each. */
  lemma PushKeys(m: Nodes, from: Id, to: Id)
    requires KeysListed(m) && from in m.afters
    ensures KeysListed(Push(m, from, to))
    ensures Push(m, from, to).afters.Keys == m.afters.Keys + {to}
  {
    if to != from {
      EnsureEffect(m, to);
    }
  }

  /** One element: nothing is removed, and only `from`'s afters grow, by `to` unless it is `from`. */
  lemma PushAfters(m: Nodes, from: Id, to: Id)
    requires KeysListed(m) && from in m.afters
    ensures Grown(m, Push(m, from, to), from, if to == from then [] else [to])
  {
    if to != from {
      EnsureEffect(m, to);
    }
  }

  /** One element: every after still has a node. */
  lemma PushClosed(m: Nodes, from: Id, to: Id)
    requires KeysListed(m) && Closed(m.afters) && from in m.afters
    ensures Closed(Push(m, from, to).afters)
  {
    if to != from {
      EnsureEffect(m, to);
      var r := Push(m, from, to);
      forall x, i | x in r.afters && 0 <= i < |r.afters[x]|
        ensures r.afters[x][i] in r.afters
      {
        if x == from && i == |r.afters[x]| - 1 {
          assert r.afters[x][i] == to;
        } else {
          assert r.afters[x][i] == AftersOr(m, x)[i];
        }
      }
    }
  }

  /** The inner loop keeps the keys listing the dictionary, and adds a node for each element of the group. */
  lemma {:induction false} AddTargetsKeys(n: Nodes, from: Id, edge: seq<Id>)
    requires KeysListed(n) && from in n.afters
    ensures KeysListed(AddTargets(n, from, edge))
  {
    if edge != [] {
      var front := edge[..|edge| - 1];
      AddTargetsKeys(n, from, front);
      PushKeys(AddTargets(n, from, front), from, edge[|edge| - 1]);
    }
  }

  /** The inner loop grows only `from`'s afters, by the group's non-`from` elements in order. */
  lemma {:induction false} AddTargetsAfters(n: Nodes, from: Id, edge: seq<Id>)
    requires KeysListed(n) && from in n.afters
    ensures Grown(n, AddTargets(n, from, edge), from, Without(edge, from))
  {
    if edge != [] {
      var front := edge[..|edge| - 1];
      var to := edge[|edge| - 1];
      AddTargetsAfters(n, from, front);
      AddTargetsKeys(n, from, front);
      var m := AddTargets(n, from, front);
      PushAfters(m, from, to);
      var r := Push(m, from, to);
      assert r == AddTargets(n, from, edge);
      forall k | k in r.afters
        ensures r.afters[k] == AftersOr(n, k) + (if k == from then Without(edge, from) else [])
      {
        if k == from {
          assert r.afters[k] == n.afters[from] + Without(edge, from);
        } else {
          assert r.afters[k] == AftersOr(m, k) + [];
          if k in m.afters {
            assert m.afters[k] == AftersOr(n, k) + [];
          } else {
            assert k !in n.afters;
          }
        }
      }
    }
  }

  /** The inner loop leaves no after without a node. */
  lemma {:induction false} AddTargetsClosed(n: Nodes, from: Id, edge: seq<Id>)
    requires KeysListed(n) && Closed(n.afters) && from in n.afters
    ensures Closed(AddTargets(n, from, edge).afters)
  {
    if edge != [] {
      var front := edge[..|edge| - 1];
      AddTargetsClosed(n, from, front);
      AddTargetsKeys(n, from, front);
      PushClosed(AddTargets(n, from, front), from, edge[|edge| - 1]);
    }
  }

  lemma GrownThen(n: Nodes, e: Nodes, r: Nodes, from: Id, added: seq<Id>)
    requires n.afters.Keys <= e.afters.Keys && Grown(n, e, from, []) && Grown(e, r, from, added)
    ensures Grown(n, r, from, added)
  {
    forall k | k in r.afters
      ensures r.afters[k] == AftersOr(n, k) + (if k == from then added else [])
    {
      assert r.afters[k] == AftersOr(e, k) + (if k == from then added else []);
      if k in e.afters {
        assert e.afters[k] == AftersOr(n, k) + [];
      }
    }
  }

  lemma EnsureClosed(n: Nodes, x: Id)
    requires KeysListed(n) && Closed(n.afters)
    ensures Closed(Ensure(n, x).afters)
  {
    var e := Ensure(n, x);
    EnsureEffect(n, x);
    forall y, i | y in e.afters && 0 <= i < |e.afters[y]|
      ensures e.afters[y][i] in e.afters
    {
      assert e.afters[y] == AftersOr(n, y) + [];
    }
  }

  /** One group: a node exists for each of its identities, existing nodes are kept, and the leader's afters grow by the rest. */
  lemma AddEdgeEffect(n: Nodes, edge: seq<Id>)
    requires WellFormed(n) && |edge| > 0
    ensures var r := AddEdge(n, edge);
      && WellFormed(r)
      && r.afters.Keys == n.afters.Keys + Elems(edge)
      && Grown(n, r, edge[0], Without(edge, edge[0]))
  {
    var e := Ensure(n, edge[0]);
    EnsureEffect(n, edge[0]);
    EnsureClosed(n, edge[0]);
    AddTargetsKeys(e, edge[0], edge);
    AddTargetsAfters(e, edge[0], edge);
    AddTargetsClosed(e, edge[0], edge);
    GrownThen(n, e, AddEdge(n, edge), edge[0], Without(edge, edge[0]));
    assert edge[0] in Elems(edge);
  }

  /**
   * The finished dictionary: one node per identity named anywhere, keys
   * listed once each, and each node's afters exactly AftersOf the input.
   * The build fails exactly at the first empty group.
   */
  lemma {:induction false} BuildNodesCorrect(edges: seq<seq<Id>>)
    ensures BuildNodes(edges).Built? ==>
      var n := BuildNodes(edges).nodes;
      && WellFormed(n)
      && n.afters.Keys == Ids(edges)
      && forall k | k in n.afters :: n.afters[k] == AftersOf(edges, k)
  {
    if edges != [] {
      var front := edges[..|edges| - 1];
      var edge := edges[|edges| - 1];
      BuildNodesCorrect(front);
      match BuildNodes(front)
      case EmptyAt(i) =>
      case Built(n) =>
        if edge != [] {
          AddEdgeEffect(n, edge);
          var r := AddEdge(n, edge);
          IdsSnoc(edges);
          forall k | k in r.afters
            ensures r.afters[k] == AftersOf(edges, k)
          {
            assert r.afters[k] == AftersOr(n, k) + (if k == edge[0] then Without(edge, edge[0]) else []);
            assert AftersOf(edges, k) == AftersOf(front, k) + (if k == edge[0] then Without(edge, k) else []);
            if k !in n.afters {
              AftersOfAbsent(front, k);
            }
          }
        }
    }
  }

  /** The build fails exactly when some group is empty, and then at the first one. */
  lemma {:induction false} BuildNodesFails(edges: seq<seq<Id>>)
    ensures BuildNodes(edges).Built? <==> NoEmptyEdge(edges)
    ensures BuildNodes(edges).EmptyAt? ==>
      var i := BuildNodes(edges).index;
      i < |edges| && edges[i] == [] && forall j | 0 <= j < i :: edges[j] != []
  {
    if edges != [] {
      var front := edges[..|edges| - 1];
      var edge := edges[|edges| - 1];
      BuildNodesFails(front);
      match BuildNodes(front)
      case EmptyAt(i) =>
        assert BuildNodes(edges) == EmptyAt(i);
        assert edges[i] == front[i] && forall j | 0 <= j < i :: edges[j] == front[j];
        assert !NoEmptyEdge(edges);
      case Built(n) =>
        assert forall j | 0 <= j < |edges| - 1 :: edges[j] == front[j] && edges[j] != [];
        if edge == [] {
          assert BuildNodes(edges) == EmptyAt(|edges| - 1);
          assert !NoEmptyEdge(edges);
        } else {
          assert BuildNodes(edges) == Built(AddEdge(n, edge));
          assert NoEmptyEdge(edges);
        }
    }
  }

  /** Once a prefix of the input has failed, so has the whole input, at the same group. */
  lemma {:induction false} EmptyAtSticks(edges: seq<seq<Id>>, i: nat)
    requires i <= |edges| && BuildNodes(edges[..i]).EmptyAt?
    ensures BuildNodes(edges) == BuildNodes(edges[..i])
  {
    if i < |edges| {
      assert edges[..|edges| - 1][..i] == edges[..i];
      EmptyAtSticks(edges[..|edges| - 1], i);
    } else {
      assert edges[..i] == edges;
    }
  }

  /** The graph the constraints describe: a node per identity named, holding AftersOf. */
  ghost function ConstraintGraph(edges: seq<seq<Id>>): Graph
  {
    map k | k in Ids(edges) :: AftersOf(edges, k)
  }

  /** A successful build holds exactly the constraint graph, and its keys sorted are the graph's nodes, once each. */
  lemma BuiltGraph(edges: seq<seq<Id>>)
    requires BuildNodes(edges).Built?
    ensures var n := BuildNodes(edges).nodes;
      && n.afters == ConstraintGraph(edges)
      && WellFormed(n)
      && NoDup(SortedDesc(n.keys))
      && Elems(SortedDesc(n.keys)) == Ids(edges)
  {
    var n := BuildNodes(edges).nodes;
    assert WellFormed(n) && n.afters.Keys == Ids(edges) && forall k | k in n.afters :: n.afters[k] == AftersOf(edges, k) by {
      BuildNodesCorrect(edges);
    }
    assert n.afters == ConstraintGraph(edges);
    var r := SortedDesc(n.keys);
    assert NoDup(r) && Elems(r) == Ids(edges) by {
      assert multiset(r) == multiset(n.keys);
      forall x ensures x in r <==> x in n.keys {
        assert x in r <==> x in multiset(r);
        assert x in n.keys <==> x in multiset(n.keys);
      }
      NoDupMultiset(n.keys, r);
    }
  }

  lemma NoDupMultiset(a: seq<Id>, b: seq<Id>)
    requires NoDup(a) && multiset(a) == multiset(b)
    ensures NoDup(b)
  {
    forall x | x in multiset(a) ensures multiset(a)[x] == 1 {
      CountOne(a, x);
    }
    forall i, j | 0 <= i < j < |b| ensures b[i] != b[j] {
      RepeatCounts(b, i, j);
    }
  }

  lemma RepeatCounts(b: seq<Id>, i: nat, j: nat)
    requires i < j < |b|
    ensures b[i] == b[j] ==> multiset(b)[b[i]] >= 2
  {
    assert b == b[..i] + [b[i]] + b[i + 1..j] + [b[j]] + b[j + 1..];
  }

  lemma {:induction false} CountOne(a: seq<Id>, x: Id)
    requires NoDup(a) && x in a
    ensures multiset(a)[x] == 1
  {
    assert a == [a[0]] + a[1..];
    if a[0] == x {
      assert x !in a[1..];
    } else {
      CountOne(a[1..], x);
    }
  }

  lemma IdsSnoc(edges: seq<seq<Id>>)
    requires edges != []
    ensures Ids(edges) == Ids(edges[..|edges| - 1]) + Elems(edges[|edges| - 1])
  {
    var front := edges[..|edges| - 1];
    var edge := edges[|edges| - 1];
    forall x | x in Ids(edges) ensures x in Ids(front) + Elems(edge) {
      var i, j :| 0 <= i < |edges| && 0 <= j < |edges[i]| && edges[i][j] == x;
      if i < |front| {
        assert front[i][j] == x;
      }
    }
    forall x | x in Ids(front) ensures x in Ids(edges) {
      var i, j :| 0 <= i < |front| && 0 <= j < |front[i]| && front[i][j] == x;
      assert edges[i][j] == x;
    }
    forall x | x in Elems(edge) ensures x in Ids(edges) {
      var j :| 0 <= j < |edge| && edge[j] == x;
      assert edges[|edges| - 1][j] == x;
    }
  }

  /** An identity never named in the input leads no group. */
  lemma {:induction false} AftersOfAbsent(edges: seq<seq<Id>>, k: Id)
    requires k !in Ids(edges)
    ensures AftersOf(edges, k) == []
  {
    if edges != [] {
      var front := edges[..|edges| - 1];
      AftersOfAbsent(front, k);
      var edge := edges[|edges| - 1];
      if edge != [] {
        assert edges[|edges| - 1][0] == edge[0];
      }
    }
  }

  /** A constraint of a longer input comes from its front or from its last group. */
  lemma ConstraintSnoc(edges: seq<seq<Id>>, x: Id, y: Id)
    requires edges != []
    ensures var edge := edges[|edges| - 1];
      Constraint(edges, x, y) <==> Constraint(edges[..|edges| - 1], x, y) || (edge != [] && edge[0] == x && y in edge && y != x)
  {
    var front := edges[..|edges| - 1];
    var edge := edges[|edges| - 1];
    if Constraint(edges, x, y) {
      var i, j :| 0 <= i < |edges| && 0 <= j < |edges[i]| && edges[i][0] == x && edges[i][j] == y && y != x;
      if i < |front| {
        assert front[i][0] == x && front[i][j] == y;
      } else {
        assert edge[j] == y;
      }
    }
    if Constraint(front, x, y) {
      var i, j :| 0 <= i < |front| && 0 <= j < |front[i]| && front[i][0] == x && front[i][j] == y && y != x;
      assert edges[i][0] == x && edges[i][j] == y;
    }
    if edge != [] && edge[0] == x && y in edge && y != x {
      var j :| 0 <= j < |edge| && edge[j] == y;
      assert edges[|edges| - 1][j] == y;
    }
  }

  /** The afters of `x` name `y` exactly when some group led by `x` names `y` and `y` is not `x`. */
  lemma {:induction false} AftersOfConstraint(edges: seq<seq<Id>>, x: Id, y: Id)
    ensures y in AftersOf(edges, x) <==> Constraint(edges, x, y)
  {
    if edges != [] {
      AftersOfConstraint(edges[..|edges| - 1], x, y);
      WithoutElems(edges[|edges| - 1], x, y);
      ConstraintSnoc(edges, x, y);
    }
  }
}
