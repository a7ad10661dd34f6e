/** An undirected networkx graph as the preprocessing loop sees it.

    Nodes are numbered 0..N()-1 in the graph's node-iteration order (insertion
    order for a graph read from a file), and `adj[u]` lists the neighbours of
    `u` in the graph's adjacency-iteration order. Both orders matter: the first
    breaks ties between equal-degree nodes, the second fixes the breadth-first
    discovery order. A self-loop is `u` occurring in `adj[u]`. */
module Graphs {
  import opened Seqs

  datatype Graph = Graph(adj: seq<seq<nat>>) {

    function N(): nat {
      |adj|
    }

    /** Neighbour lists name existing nodes, hold no duplicates, and the
        neighbour relation is symmetric (the graph is undirected). */
    predicate Valid() {
      && (forall u :: 0 <= u < |adj| ==> Bounded(adj[u], |adj|))
      && (forall u :: 0 <= u < |adj| ==> NoDup(adj[u]))
      && (forall u, v :: 0 <= u < |adj| && 0 <= v < |adj| ==> (v in adj[u] <==> u in adj[v]))
    }

    predicate Edge(u: nat, v: nat)
      requires u < N()
    {
      v in adj[u]
    }

    /** networkx's `degree`: the neighbour count, with a self-loop counted twice. */
    function Degree(u: nat): nat
      requires u < N()
    {
      |adj[u]| + if u in adj[u] then 1 else 0
    }

    predicate NoSelfLoops() {
      forall u :: 0 <= u < |adj| ==> u !in adj[u]
    }
  }

  /** `s` is closed under taking neighbours. */
  ghost predicate Closed(g: Graph, s: set<nat>) {
    forall u, v :: u in s && u < g.N() && v in g.adj[u] ==> v in s
  }

  /** A walk: consecutive nodes are adjacent. */
  ghost predicate Walk(g: Graph, p: seq<nat>) {
    && |p| >= 1
    && Bounded(p, g.N())
    && forall k :: 0 <= k < |p| - 1 ==> p[k + 1] in g.adj[p[k]]
  }

  /** `v` can be reached from `u` along edges: the reference notion of connectivity. */
  ghost predicate Reachable(g: Graph, u: nat, v: nat) {
    exists p :: Walk(g, p) && p[0] == u && p[|p| - 1] == v
  }

  /** In an undirected graph the nodes outside a closed set form a closed set too. */
  lemma ComplementClosed(g: Graph, s: set<nat>)
    requires g.Valid() && Closed(g, s)
    ensures Closed(g, Range(g.N()) - s)
  {
    forall u, v | u in Range(g.N()) - s && u < g.N() && v in g.adj[u] ensures v in Range(g.N()) - s {
      assert v < g.N() by {
        assert Bounded(g.adj[u], g.N());
      }
    }
  }

  /** Every node of a walk that starts inside a closed set stays inside it. */
  lemma {:induction false} WalkStaysInside(g: Graph, s: set<nat>, p: seq<nat>)
    requires Closed(g, s) && Walk(g, p) && p[0] in s
    ensures forall k :: 0 <= k < |p| ==> p[k] in s
  {
    if |p| > 1 {
      var q := p[..|p| - 1];
      assert Walk(g, q);
      WalkStaysInside(g, s, q);
      assert q[|q| - 1] == p[|p| - 2];
      assert p[|p| - 1] in g.adj[p[|p| - 2]];
      forall k | 0 <= k < |p| ensures p[k] in s {
        if k < |p| - 1 {
          assert p[k] == q[k];
        }
      }
    }
  }
}
