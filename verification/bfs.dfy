/** Breadth-first traversal as networkx performs it: the discovery order of
    `generic_bfs_edges` behind `bfs_tree`, and the node set `_plain_bfs`
    returns to `connected_components`.

    The traversal keeps the discovered nodes as a list `order`; the nodes at
    positions `head..` form the queue, so the discovery order is the list
    itself. */
module Traversal {
  import opened Seqs
  import opened Graphs

  /** Scans one neighbour list in adjacency order and appends every neighbour
      not discovered yet, as the inner loop of `generic_bfs_edges` does. */
  function Discover(order: seq<nat>, nbrs: seq<nat>): (r: seq<nat>)
    ensures order <= r
    ensures forall x :: x in r <==> x in order || x in nbrs
    ensures forall i :: |order| <= i < |r| ==> r[i] in nbrs
    ensures NoDup(order) ==> NoDup(r)
    decreases |nbrs|
  {
    if nbrs == [] then order
    else if nbrs[0] in order then Discover(order, nbrs[1..])
    else Discover(order + [nbrs[0]], nbrs[1..])
  }

  /** Every node after the first is a neighbour of some node listed before it. */
  ghost predicate Grown(g: Graph, order: seq<nat>) {
    forall i :: 0 < i < |order| ==>
      exists j :: 0 <= j < i && order[j] < g.N() && order[i] in g.adj[order[j]]
  }

  /** The nodes before position `head` have been dequeued: all their neighbours are listed. */
  ghost predicate Expanded(g: Graph, order: seq<nat>, head: nat) {
    forall i, v :: 0 <= i < head && i < |order| && order[i] < g.N() && v in g.adj[order[i]] ==> v in order
  }

  /** Dequeues nodes until the queue is empty. */
  function Explore(g: Graph, order: seq<nat>, head: nat): (r: seq<nat>)
    requires g.Valid()
    requires head <= |order| && NoDup(order) && Bounded(order, g.N())
    ensures order <= r && NoDup(r) && Bounded(r, g.N())
    decreases g.N() - |order|, |order| - head
  {
    if head == |order| then order
    else
      var next := Discover(order, g.adj[order[head]]);
      DiscoverStep(g, order, head);
      Explore(g, next, head + 1)
  }

  lemma DiscoverStep(g: Graph, order: seq<nat>, head: nat)
    requires g.Valid()
    requires head < |order| && NoDup(order) && Bounded(order, g.N())
    ensures var next := Discover(order, g.adj[order[head]]);
      NoDup(next) && Bounded(next, g.N()) && |next| <= g.N()
  {
    var nbrs := g.adj[order[head]];
    var next := Discover(order, nbrs);
    assert Bounded(nbrs, g.N());
    forall i | 0 <= i < |next| ensures next[i] < g.N() {
      assert next[i] in next;
    }
    BoundedNoDupLength(next, g.N());
  }

  lemma DiscoverGrown(g: Graph, order: seq<nat>, head: nat)
    requires g.Valid()
    requires head < |order| && NoDup(order) && Bounded(order, g.N())
    requires Grown(g, order)
    ensures Grown(g, Discover(order, g.adj[order[head]]))
  {
    var next := Discover(order, g.adj[order[head]]);
    forall i | 0 < i < |next|
      ensures exists j :: 0 <= j < i && next[j] < g.N() && next[i] in g.adj[next[j]]
    {
      if i < |order| {
        var j :| 0 <= j < i && order[j] < g.N() && order[i] in g.adj[order[j]];
        assert next[j] == order[j] && next[i] == order[i];
      } else {
        assert next[head] == order[head];
      }
    }
  }

  lemma DiscoverExpanded(g: Graph, order: seq<nat>, head: nat)
    requires g.Valid()
    requires head < |order| && NoDup(order) && Bounded(order, g.N())
    requires Expanded(g, order, head)
    ensures Expanded(g, Discover(order, g.adj[order[head]]), head + 1)
  {
    var nbrs := g.adj[order[head]];
    var next := Discover(order, nbrs);
    forall i, v | 0 <= i < head + 1 && i < |next| && next[i] < g.N() && v in g.adj[next[i]]
      ensures v in next
    {
      assert next[i] == order[i];
      if i < head {
        assert v in order;
      } else {
        assert v in nbrs;
      }
    }
  }

  lemma {:induction false} ExploreGrown(g: Graph, order: seq<nat>, head: nat)
    requires g.Valid()
    requires head <= |order| && NoDup(order) && Bounded(order, g.N())
    requires Grown(g, order)
    ensures Grown(g, Explore(g, order, head))
    decreases g.N() - |order|, |order| - head
  {
    if head < |order| {
      DiscoverGrown(g, order, head);
      DiscoverStep(g, order, head);
      ExploreGrown(g, Discover(order, g.adj[order[head]]), head + 1);
    }
  }

  lemma {:induction false} ExploreClosed(g: Graph, order: seq<nat>, head: nat)
    requires g.Valid()
    requires head <= |order| && NoDup(order) && Bounded(order, g.N())
    requires Expanded(g, order, head)
    ensures Closed(g, Elems(Explore(g, order, head)))
    decreases g.N() - |order|, |order| - head
  {
    if head < |order| {
      DiscoverExpanded(g, order, head);
      DiscoverStep(g, order, head);
      ExploreClosed(g, Discover(order, g.adj[order[head]]), head + 1);
    } else {
      ExpandedIsClosed(g, order);
    }
  }

  lemma ExpandedIsClosed(g: Graph, order: seq<nat>)
    requires Expanded(g, order, |order|)
    ensures Closed(g, Elems(order))
  {
    forall u, v | u in Elems(order) && u < g.N() && v in g.adj[u] ensures v in Elems(order) {
      var i :| 0 <= i < |order| && order[i] == u;
    }
  }

  /** `nx.bfs_tree(G, source).nodes()`: the source, then the nodes reachable
      from it in breadth-first discovery order. */
  function Bfs(g: Graph, root: nat): (r: seq<nat>)
    requires g.Valid() && root < g.N()
    ensures |r| >= 1 && r[0] == root
    ensures NoDup(r) && Bounded(r, g.N())
  {
    Explore(g, [root], 0)
  }

  /** Each node the traversal lists after the root hangs off an earlier one. */
  lemma BfsGrown(g: Graph, root: nat)
    requires g.Valid() && root < g.N()
    ensures Grown(g, Bfs(g, root))
  {
    ExploreGrown(g, [root], 0);
  }

  /** The traversal stops only when no listed node has an unlisted neighbour. */
  lemma BfsClosed(g: Graph, root: nat)
    requires g.Valid() && root < g.N()
    ensures Closed(g, Elems(Bfs(g, root)))
  {
    ExploreClosed(g, [root], 0);
  }

  /** The node set `_plain_bfs` returns to `connected_components`. */
  function ComponentOf(g: Graph, v: nat): (c: set<nat>)
    requires g.Valid() && v < g.N()
    ensures v in c && c <= Range(g.N())
  {
    var r := Bfs(g, v);
    assert forall x :: x in Elems(r) ==> x < g.N() by {
      forall x | x in Elems(r) ensures x < g.N() {
        var i :| 0 <= i < |r| && r[i] == x;
      }
    }
    Elems(r)
  }

  lemma {:induction false} GrownInside(g: Graph, order: seq<nat>, s: set<nat>, i: nat)
    requires Grown(g, order) && Closed(g, s) && |order| >= 1 && order[0] in s && i < |order|
    ensures order[i] in s
    decreases i
  {
    if i > 0 {
      var j :| 0 <= j < i && order[j] < g.N() && order[i] in g.adj[order[j]];
      GrownInside(g, order, s, j);
    }
  }

  /** A breadth-first traversal never leaves a closed set containing its root. */
  lemma BfsMinimal(g: Graph, root: nat, s: set<nat>)
    requires g.Valid() && root < g.N() && Closed(g, s) && root in s
    ensures ComponentOf(g, root) <= s
  {
    var r := Bfs(g, root);
    BfsGrown(g, root);
    forall x | x in Elems(r) ensures x in s {
      var i :| 0 <= i < |r| && r[i] == x;
      GrownInside(g, r, s, i);
    }
  }

  /** Any member of a component discovers the same component. */
  lemma SameComponent(g: Graph, u: nat, v: nat)
    requires g.Valid() && v < g.N() && u in ComponentOf(g, v)
    ensures u < g.N() && ComponentOf(g, u) == ComponentOf(g, v)
  {
    var cv := ComponentOf(g, v);
    var cu := ComponentOf(g, u);
    BfsClosed(g, u);
    BfsClosed(g, v);
    BfsMinimal(g, u, cv);
    if v !in cu {
      ComplementClosed(g, cu);
      BfsMinimal(g, v, Range(g.N()) - cu);
      assert false;
    }
    BfsMinimal(g, v, cu);
  }

  /** A component found from a node outside a closed set stays outside it. */
  lemma ComponentAvoidsClosed(g: Graph, v: nat, s: set<nat>)
    requires g.Valid() && v < g.N() && v !in s && Closed(g, s)
    ensures ComponentOf(g, v) !! s
  {
    ComplementClosed(g, s);
    BfsMinimal(g, v, Range(g.N()) - s);
  }

  lemma {:induction false} GrownWalk(g: Graph, order: seq<nat>, i: nat) returns (p: seq<nat>)
    requires Grown(g, order) && Bounded(order, g.N()) && i < |order|
    ensures Walk(g, p) && p[0] == order[0] && p[|p| - 1] == order[i]
    decreases i
  {
    if i == 0 {
      p := [order[0]];
    } else {
      var j :| 0 <= j < i && order[j] < g.N() && order[i] in g.adj[order[j]];
      var q := GrownWalk(g, order, j);
      p := q + [order[i]];
      forall k | 0 <= k < |p| - 1 ensures p[k + 1] in g.adj[p[k]] {
        if k < |q| - 1 {
          assert p[k] == q[k] && p[k + 1] == q[k + 1];
        }
      }
    }
  }

  /** The traversal discovers exactly the nodes reachable from its root. */
  lemma BfsIsReachable(g: Graph, root: nat, x: nat)
    requires g.Valid() && root < g.N()
    ensures x in Bfs(g, root) <==> Reachable(g, root, x)
  {
    var r := Bfs(g, root);
    BfsGrown(g, root);
    BfsClosed(g, root);
    if x in r {
      var i :| 0 <= i < |r| && r[i] == x;
      var p := GrownWalk(g, r, i);
    }
    if Reachable(g, root, x) {
      var p :| Walk(g, p) && p[0] == root && p[|p| - 1] == x;
      WalkStaysInside(g, Elems(r), p);
    }
  }

  /** The first position in `s` holding a node that has `x` as a neighbour,
      or `|s|` when there is none. */
  function FirstAdjacent(g: Graph, s: seq<nat>, x: nat): (j: nat)
    ensures j <= |s|
    ensures j < |s| ==> s[j] < g.N() && x in g.adj[s[j]]
    ensures forall k :: 0 <= k < j ==> !(s[k] < g.N() && x in g.adj[s[k]])
  {
    if s == [] then 0
    else if s[0] < g.N() && x in g.adj[s[0]] then 0
    else 1 + FirstAdjacent(g, s[1..], x)
  }

  /** The parent of position `i` in the breadth-first tree: the position of
      the first earlier node adjacent to `r[i]`, or `i` itself when there is
      none (the root). */
  function Parent(g: Graph, r: seq<nat>, i: nat): (p: nat)
    requires i < |r|
    ensures p <= i
    ensures p < i ==> r[p] < g.N() && r[i] in g.adj[r[p]]
    ensures forall k :: 0 <= k < p ==> !(r[k] < g.N() && r[i] in g.adj[r[k]])
  {
    assert forall k :: 0 <= k < i ==> r[..i][k] == r[k];
    FirstAdjacent(g, r[..i], r[i])
  }

  /** `r` is a breadth-first order: every node after the first has a parent
      listed before it, parents never move backwards along `r` (the queue is
      first in, first out), and the children of one parent follow its
      adjacency order. */
  ghost predicate BreadthFirst(g: Graph, r: seq<nat>) {
    && (forall i :: 0 < i < |r| ==> Parent(g, r, i) < i)
    && (forall i, k :: 0 < i < k < |r| ==> Parent(g, r, i) <= Parent(g, r, k))
    && (forall i, k :: 0 < i < k < |r| && Parent(g, r, i) == Parent(g, r, k) ==>
          r[Parent(g, r, i)] < g.N() && Precedes(g.adj[r[Parent(g, r, i)]], r[i], r[k]))
  }

  /** Every node after the first was discovered by a node before position `head`. */
  ghost predicate Settled(g: Graph, order: seq<nat>, head: nat) {
    forall i :: 0 < i < |order| ==> Parent(g, order, i) < head
  }

  /** `Discover` appends only new nodes, and in the order of the neighbour list. */
  lemma {:induction false} DiscoverInOrder(order: seq<nat>, nbrs: seq<nat>)
    requires NoDup(order)
    ensures var r := Discover(order, nbrs);
      forall i :: |order| <= i < |r| ==> r[i] !in order
    ensures var r := Discover(order, nbrs);
      forall i, k :: |order| <= i < k < |r| ==> Precedes(nbrs, r[i], r[k])
    decreases |nbrs|
  {
    if nbrs != [] {
      var r := Discover(order, nbrs);
      if nbrs[0] in order {
        DiscoverInOrder(order, nbrs[1..]);
        assert r == Discover(order, nbrs[1..]);
        forall i, k | |order| <= i < k < |r| ensures Precedes(nbrs, r[i], r[k]) {
          PrecedesCons(nbrs, r[i], r[k]);
        }
      } else {
        var grown := order + [nbrs[0]];
        assert NoDup(grown);
        DiscoverInOrder(grown, nbrs[1..]);
        assert r == Discover(grown, nbrs[1..]);
        forall i | |order| <= i < |r| ensures r[i] !in order {
          if i == |order| {
            assert r[i] == grown[i];
          }
        }
        forall i, k | |order| <= i < k < |r| ensures Precedes(nbrs, r[i], r[k]) {
          assert r[k] !in grown;
          if i == |order| {
            assert r[i] == grown[i];
            PrecedesHead(nbrs, r[k]);
          } else {
            PrecedesCons(nbrs, r[i], r[k]);
          }
        }
      }
    }
  }

  /** Extending a list keeps the parents of the nodes already in it. */
  lemma ParentOfPrefix(g: Graph, order: seq<nat>, next: seq<nat>, i: nat)
    requires order <= next && i < |order|
    ensures Parent(g, next, i) == Parent(g, order, i)
  {
    assert next[..i] == order[..i];
  }

  /** A node that `order[head]` discovers has `head` as its parent: the nodes
      dequeued before it have all their neighbours listed already. */
  lemma ParentOfDiscovered(g: Graph, order: seq<nat>, head: nat, i: nat)
    requires g.Valid() && head < |order| && Bounded(order, g.N()) && Expanded(g, order, head)
    requires |order| <= i < |Discover(order, g.adj[order[head]])|
    requires Discover(order, g.adj[order[head]])[i] !in order
    ensures Parent(g, Discover(order, g.adj[order[head]]), i) == head
  {
    var next := Discover(order, g.adj[order[head]]);
    var p := Parent(g, next, i);
    assert next[head] == order[head];
    assert next[i] in g.adj[order[head]];
    if p < head {
      assert false;
    }
  }

  /** Appending children of `order[head]`, in its adjacency order, to a
      breadth-first list whose nodes were all discovered before `head` keeps
      it breadth-first. */
  lemma AppendChildren(g: Graph, order: seq<nat>, next: seq<nat>, head: nat)
    requires order <= next && head < |order| && order[head] < g.N()
    requires BreadthFirst(g, order) && Settled(g, order, head)
    requires forall i :: |order| <= i < |next| ==> Parent(g, next, i) == head
    requires forall i, k :: |order| <= i < k < |next| ==> Precedes(g.adj[order[head]], next[i], next[k])
    ensures Settled(g, next, head + 1)
    ensures BreadthFirst(g, next)
  {
    forall i | 0 <= i < |order| ensures Parent(g, next, i) == Parent(g, order, i) && next[i] == order[i] {
      ParentOfPrefix(g, order, next, i);
    }
    forall i, k | 0 < i < k < |next| ensures Parent(g, next, i) <= Parent(g, next, k) {
      if k < |order| {
        assert Parent(g, order, i) <= Parent(g, order, k);
      }
    }
    forall i, k | 0 < i < k < |next| && Parent(g, next, i) == Parent(g, next, k)
      ensures next[Parent(g, next, i)] < g.N() && Precedes(g.adj[next[Parent(g, next, i)]], next[i], next[k])
    {
      if k < |order| {
        assert Parent(g, order, i) == Parent(g, order, k);
      } else if i < |order| {
        assert false;
      }
    }
  }

  /** Dequeuing one node keeps the order breadth-first. */
  lemma DiscoverBreadthFirst(g: Graph, order: seq<nat>, head: nat)
    requires g.Valid() && head < |order| && NoDup(order) && Bounded(order, g.N())
    requires Expanded(g, order, head) && Settled(g, order, head) && BreadthFirst(g, order)
    ensures Settled(g, Discover(order, g.adj[order[head]]), head + 1)
    ensures BreadthFirst(g, Discover(order, g.adj[order[head]]))
  {
    var next := Discover(order, g.adj[order[head]]);
    DiscoverInOrder(order, g.adj[order[head]]);
    forall i | |order| <= i < |next| ensures Parent(g, next, i) == head {
      ParentOfDiscovered(g, order, head, i);
    }
    AppendChildren(g, order, next, head);
  }

  lemma {:induction false} ExploreBreadthFirst(g: Graph, order: seq<nat>, head: nat)
    requires g.Valid()
    requires head <= |order| && NoDup(order) && Bounded(order, g.N())
    requires Expanded(g, order, head) && Settled(g, order, head) && BreadthFirst(g, order)
    ensures BreadthFirst(g, Explore(g, order, head))
    decreases g.N() - |order|, |order| - head
  {
    if head < |order| {
      DiscoverBreadthFirst(g, order, head);
      DiscoverExpanded(g, order, head);
      DiscoverStep(g, order, head);
      ExploreBreadthFirst(g, Discover(order, g.adj[order[head]]), head + 1);
    }
  }

  /** `bfs_tree(G, source).nodes()` is a breadth-first order: the queue is
      first in, first out, and each node's children come in adjacency order. */
  lemma BfsBreadthFirst(g: Graph, root: nat)
    requires g.Valid() && root < g.N()
    ensures BreadthFirst(g, Bfs(g, root))
  {
    ExploreBreadthFirst(g, [root], 0);
  }

  /** A breadth-first order is grown: each later node's parent is an earlier
      neighbour. */
  lemma BreadthFirstIsGrown(g: Graph, r: seq<nat>)
    requires BreadthFirst(g, r)
    ensures Grown(g, r)
  {
    forall i | 0 < i < |r| ensures exists j :: 0 <= j < i && r[j] < g.N() && r[i] in g.adj[r[j]] {
      var j := Parent(g, r, i);
      assert j < i && r[j] < g.N() && r[i] in g.adj[r[j]];
    }
    assert forall i :: 0 < i < |r| ==> exists j :: 0 <= j < i && r[j] < g.N() && r[i] in g.adj[r[j]];
  }

  /** Hanging off an earlier node does not make an order breadth-first: on
      the path 2 - 0 - 1 - 3 the depth-first order `0, 1, 3, 2` is grown
      but lists 3, a child of 1, before 2, a child of 0. */
  lemma DepthFirstIsNotBreadthFirst()
    ensures Grown(Graph([[1, 2], [0, 3], [0], [1]]), [0, 1, 3, 2])
    ensures !BreadthFirst(Graph([[1, 2], [0, 3], [0], [1]]), [0, 1, 3, 2])
  {
    var g, r := Graph([[1, 2], [0, 3], [0], [1]]), [0, 1, 3, 2];
    assert r[0] < g.N() && r[1] in g.adj[r[0]];
    assert r[1] < g.N() && r[2] in g.adj[r[1]];
    assert r[0] < g.N() && r[3] in g.adj[r[0]];
    assert Parent(g, r, 2) == 1 && Parent(g, r, 3) == 0;
  }
}
