/** Directed graphs as adjacency lists, their cycles, and the two facts about
    acyclic graphs that the search and the recursive walk rely on. */
module Graphs {
  type Graph = seq<seq<nat>>

  ghost predicate WellFormed(g: Graph) {
    forall u, v :: 0 <= u < |g| && v in g[u] ==> v < |g|
  }

  ghost predicate Edge(g: Graph, u: nat, v: nat) {
    u < |g| && v in g[u]
  }

  /** A non-empty walk along edges. */
  ghost predicate IsPath(g: Graph, p: seq<nat>) {
    |p| > 0 && p[0] < |g| && forall i :: 0 < i < |p| ==> Edge(g, p[i - 1], p[i])
  }

  ghost predicate IsCycle(g: Graph, p: seq<nat>) {
    |p| >= 2 && IsPath(g, p) && p[0] == p[|p| - 1]
  }

  ghost predicate OnCycle(g: Graph, u: nat) {
    exists p :: IsCycle(g, p) && p[0] == u
  }

  ghost predicate Acyclic(g: Graph) {
    forall p :: !IsCycle(g, p)
  }

  /** A numbering of some nodes that is closed under successors and goes down along every edge. */
  ghost predicate Descending(g: Graph, rank: map<nat, nat>) {
    forall u, v :: u in rank && Edge(g, u, v) ==> v in rank && rank[v] < rank[u]
  }

  lemma {:induction false} DescendsAlongPath(g: Graph, rank: map<nat, nat>, p: seq<nat>, i: nat)
    requires Descending(g, rank) && IsPath(g, p) && p[0] in rank && i < |p|
    ensures p[i] in rank
    ensures i > 0 ==> rank[p[i]] < rank[p[0]]
  {
    if i > 0 {
      DescendsAlongPath(g, rank, p, i - 1);
      assert Edge(g, p[i - 1], p[i]);
    }
  }

  /** A graph all of whose edge targets are numbered downwards has no cycle. */
  lemma RankedIsAcyclic(g: Graph, rank: map<nat, nat>)
    requires Descending(g, rank)
    requires forall u, v :: Edge(g, u, v) ==> v in rank
    ensures Acyclic(g)
  {
    forall p ensures !IsCycle(g, p) {
      if IsCycle(g, p) {
        assert Edge(g, p[|p| - 2], p[|p| - 1]);
        DescendsAlongPath(g, rank, p, |p| - 1);
      }
    }
  }

  lemma JoinPaths(g: Graph, p: seq<nat>, q: seq<nat>)
    requires IsPath(g, p) && IsPath(g, q) && Edge(g, p[|p| - 1], q[0])
    ensures IsPath(g, p + q)
  {
    var r := p + q;
    forall i | 0 < i < |r| ensures Edge(g, r[i - 1], r[i]) {
      if i < |p| {
        assert Edge(g, p[i - 1], p[i]);
      } else if i > |p| {
        assert Edge(g, q[i - |p| - 1], q[i - |p|]);
      }
    }
  }

  /** An edge from the end of a path back to one of its nodes closes a cycle through that node. */
  lemma BackEdgeClosesCycle(g: Graph, p: seq<nat>, u: nat)
    requires IsPath(g, p) && u in p && Edge(g, p[|p| - 1], u)
    ensures OnCycle(g, u) && !Acyclic(g)
  {
    var i :| 0 <= i < |p| && p[i] == u;
    var c := p[i..] + [u];
    forall j | 0 < j < |c| ensures Edge(g, c[j - 1], c[j]) {
      if j < |c| - 1 {
        assert Edge(g, p[i + j - 1], p[i + j]);
      }
    }
    assert u < |g| by {
      if i > 0 && i < |p| - 1 { assert Edge(g, p[i], p[i + 1]); }
    }
    assert IsCycle(g, c) && c[0] == u;
  }

  /** Everything a node can walk to, itself included. */
  ghost function Reach(g: Graph, u: nat): (r: set<nat>)
    requires WellFormed(g)
  {
    set v | 0 <= v < |g| && Walks(g, u, v)
  }

  ghost predicate Walks(g: Graph, u: nat, v: nat) {
    exists p :: IsPath(g, p) && p[0] == u && p[|p| - 1] == v
  }

  /** In an acyclic graph a successor reaches strictly less: the measure of every recursive walk. */
  lemma SuccessorReachesLess(g: Graph, u: nat, v: nat)
    requires WellFormed(g) && Acyclic(g) && Edge(g, u, v)
    ensures Reach(g, v) < Reach(g, u)
  {
    assert IsPath(g, [u]);
    assert u in Reach(g, u);
    forall w | w in Reach(g, v) ensures w in Reach(g, u) && w != u {
      var p :| IsPath(g, p) && p[0] == v && p[|p| - 1] == w;
      JoinPaths(g, [u], p);
      var q := [u] + p;
      assert q[0] == u && q[|q| - 1] == w;
      if w == u { assert IsCycle(g, q); }
    }
  }
}
