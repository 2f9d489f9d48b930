/**
 * The dependency graph as the sort sees it once it is built: every key
 * maps to its `afters`, the identities that must come after it.
 * Paths, reachability, cycles and topological orders over such a graph.
 */
module Graphs {
  import opened Order

  type Graph = map<Id, seq<Id>>

  function Elems(s: seq<Id>): set<Id>
  {
    set x | x in s
  }

  predicate NoDup(s: seq<Id>)
  {
    forall i, j | 0 <= i < j < |s| :: s[i] != s[j]
  }

  /** First position of `x` in `s`. */
  function IndexOf(s: seq<Id>, x: Id): (i: nat)
    requires x in s
    ensures i < |s| && s[i] == x
    ensures forall j | 0 <= j < i :: s[j] != x
  {
    if s[0] == x then 0 else 1 + IndexOf(s[1..], x)
  }

  lemma IndexOfNoDup(s: seq<Id>, j: nat)
    requires NoDup(s) && j < |s|
    ensures IndexOf(s, s[j]) == j
  {
  }

  /** Every `after` of every node is itself a node. */
  ghost predicate Closed(g: Graph)
  {
    forall x, i | x in g && 0 <= i < |g[x]| :: g[x][i] in g
  }

  lemma ClosedAfter(g: Graph, x: Id, y: Id)
    requires Closed(g) && x in g && y in g[x]
    ensures y in g
  {
    var j :| 0 <= j < |g[x]| && g[x][j] == y;
  }

  /** `p` follows edges of `g`: each element is an `after` of the one before it. */
  ghost predicate IsPath(g: Graph, p: seq<Id>)
  {
    && |p| > 0
    && (forall i | 0 <= i < |p| :: p[i] in g)
    && (forall i | 0 < i < |p| :: p[i] in g[p[i - 1]])
  }

  ghost predicate Reaches(g: Graph, a: Id, b: Id)
  {
    exists p :: IsPath(g, p) && p[0] == a && p[|p| - 1] == b
  }

  ghost predicate IsCycle(g: Graph, p: seq<Id>)
  {
    IsPath(g, p) && |p| > 1 && p[0] == p[|p| - 1]
  }

  ghost predicate HasCycle(g: Graph)
  {
    exists p :: IsCycle(g, p)
  }

  /** Every `after` of a node placed in `s` is placed later in `s`. */
  ghost predicate Topological(g: Graph, s: seq<Id>)
  {
    forall i, j | 0 <= i < |s| && s[i] in g && 0 <= j < |g[s[i]]| :: g[s[i]][j] in s[i + 1..]
  }

  /** Any element of a path reaches the path's last element. */
  lemma PathReachesLast(g: Graph, p: seq<Id>, a: Id)
    requires IsPath(g, p) && a in p
    ensures Reaches(g, a, p[|p| - 1])
  {
    var i := IndexOf(p, a);
    var q := p[i..];
    assert IsPath(g, q) by {
      forall k | 0 < k < |q|
        ensures q[k] in g[q[k - 1]]
      {
        assert q[k] == p[i + k] && q[k - 1] == p[i + k - 1];
      }
    }
  }

  /** An edge `x -> y` whose target reaches its source closes a cycle. */
  lemma BackEdgeCycle(g: Graph, x: Id, y: Id)
    requires x in g && y in g[x] && Reaches(g, y, x)
    ensures HasCycle(g)
  {
    var p :| IsPath(g, p) && p[0] == y && p[|p| - 1] == x;
    var c := p + [y];
    assert c[|c| - 1] == y && c[|c| - 2] == x;
    assert IsCycle(g, c);
  }

  /** Along a path, positions in a topological order strictly increase. */
  lemma {:induction false} TopologicalPathIncreases(g: Graph, s: seq<Id>, p: seq<Id>, k: nat)
    requires NoDup(s) && g.Keys <= Elems(s) && Topological(g, s)
    requires IsPath(g, p) && 0 < k < |p|
    ensures p[0] in s && p[k] in s && IndexOf(s, p[0]) < IndexOf(s, p[k])
  {
    assert p[k - 1] in Elems(s) && p[k] in Elems(s);
    var i := IndexOf(s, p[k - 1]);
    assert p[k] in s[i + 1..];
    var j :| i + 1 <= j < |s| && s[j] == p[k];
    IndexOfNoDup(s, j);
    if k > 1 {
      TopologicalPathIncreases(g, s, p, k - 1);
    }
  }

  /** A graph that has a topological order of all its nodes has no cycle. */
  lemma TopologicalAcyclic(g: Graph, s: seq<Id>)
    requires NoDup(s) && g.Keys <= Elems(s) && Topological(g, s)
    ensures !HasCycle(g)
  {
    if HasCycle(g) {
      var p :| IsCycle(g, p);
      TopologicalPathIncreases(g, s, p, |p| - 1);
      assert false;
    }
  }
}
