/** Directed graphs as lists of out-neighbours, and reachability along their edges. */
module Digraph {

  type Graph = seq<seq<nat>>

  /** Every edge ends at a node of the graph. */
  ghost predicate WellFormed(g: Graph) {
    forall u: nat, v: nat :: Edge(g, u, v) ==> v < |g|
  }

  ghost predicate Edge(g: Graph, u: nat, v: nat) {
    u < |g| && v in g[u]
  }

  ghost predicate IsPath(g: Graph, p: seq<nat>, u: nat, v: nat) {
    && 0 < |p| && p[0] == u && p[|p| - 1] == v
    && u < |g|
    && forall i :: 0 <= i < |p| - 1 ==> Edge(g, p[i], p[i + 1])
  }

  ghost predicate Reach(g: Graph, u: nat, v: nat) {
    exists p :: IsPath(g, p, u, v)
  }

  /** The same strongly connected component. */
  ghost predicate Mutual(g: Graph, u: nat, v: nat) {
    Reach(g, u, v) && Reach(g, v, u)
  }

  lemma {:induction false} ReachSelf(g: Graph, u: nat)
    requires u < |g|
    ensures Reach(g, u, u)
  {
    assert IsPath(g, [u], u, u);
  }

  lemma {:induction false} ReachEdge(g: Graph, u: nat, v: nat)
    requires Edge(g, u, v)
    ensures Reach(g, u, v)
  {
    assert IsPath(g, [u, v], u, v);
  }

  lemma {:induction false} ReachTrans(g: Graph, u: nat, v: nat, w: nat)
    requires Reach(g, u, v) && Reach(g, v, w)
    ensures Reach(g, u, w)
  {
    var p :| IsPath(g, p, u, v);
    var q :| IsPath(g, q, v, w);
    var r := p + q[1..];
    forall i | 0 <= i < |r| - 1
      ensures Edge(g, r[i], r[i + 1])
    {
      if i < |p| - 1 {
        assert Edge(g, p[i], p[i + 1]);
      } else {
        assert Edge(g, q[i - |p| + 1], q[i - |p| + 2]);
      }
    }
    assert IsPath(g, r, u, w);
  }

  /** A set that no edge leaves is not left by any path either. */
  lemma {:induction false} ClosedUnderReach(g: Graph, s: set<nat>, u: nat, v: nat)
    requires u in s && Reach(g, u, v)
    requires forall x: nat, y: nat :: x in s && Edge(g, x, y) ==> y in s
    ensures v in s
  {
    var p :| IsPath(g, p, u, v);
    for i := 0 to |p| - 1
      invariant p[i] in s
    {
      assert Edge(g, p[i], p[i + 1]);
    }
  }

  /** The input class of the component search: `n` nodes, edges appended one at a time. */
  class DirectedGraph {
    var edges: Graph

    constructor (n: nat)
      ensures |edges| == n && forall u: nat, v: nat :: !Edge(edges, u, v)
      ensures WellFormed(edges)
    {
      edges := seq(n, _ => []);
    }

    method AddEdge(a: nat, b: nat)
      requires a < |edges|
      modifies this
      ensures edges == old(edges)[a := old(edges)[a] + [b]]
      ensures forall u: nat, v: nat :: Edge(edges, u, v) <==> Edge(old(edges), u, v) || (u == a && v == b)
      ensures WellFormed(old(edges)) && b < |edges| ==> WellFormed(edges)
    {
      edges := edges[a := edges[a] + [b]];
      assert forall u: nat, v: nat :: Edge(edges, u, v) <==> Edge(old(edges), u, v) || (u == a && v == b);
    }
  }
}
