/** `node_list_bfs`: the components ranked largest first, each walked
    breadth-first from its first maximum-degree node, the walks concatenated. */
module Ordering {
  import opened Seqs
  import opened Graphs
  import opened Traversal
  import opened Connectivity

  /** The components after `sorted(CGs, key=number_of_nodes, reverse=True)`. */
  function RankedComponents(g: Graph): (cs: seq<set<nat>>)
    requires g.Valid()
    ensures multiset(cs) == multiset(Components(g))
    ensures NonIncreasing(cs)
  {
    SortBySize(Components(g))
  }

  /** Ranking reorders the components and nothing else: they still
      partition the nodes. */
  lemma RankedPartition(g: Graph)
    requires g.Valid()
    ensures AllComponents(g, RankedComponents(g))
    ensures PairwiseDisjoint(RankedComponents(g))
    ensures Union(RankedComponents(g)) == Range(g.N())
  {
    var cs := Components(g);
    var rs := RankedComponents(g);
    SortKeepsDisjoint(cs);
    RankedAreComponents(g);
    UnionOfPermutation(cs, rs);
  }

  lemma RankedAreComponents(g: Graph)
    requires g.Valid()
    ensures AllComponents(g, RankedComponents(g))
  {
    var cs := Components(g);
    var rs := RankedComponents(g);
    forall i | 0 <= i < |rs| ensures IsComponent(g, rs[i]) {
      var j := IndexIn(cs, rs[i]);
    }
  }

  /** Reordering a sequence of sets keeps their union. */
  lemma UnionOfPermutation(cs: seq<set<nat>>, rs: seq<set<nat>>)
    requires multiset(cs) == multiset(rs)
    ensures Union(cs) == Union(rs)
  {
    forall x | x in Union(rs) ensures x in Union(cs) {
      var i := UnionWitness(rs, x);
      var j := IndexIn(cs, rs[i]);
      UnionMember(cs, j);
    }
    forall x | x in Union(cs) ensures x in Union(rs) {
      var j := UnionWitness(cs, x);
      var i := IndexIn(rs, cs[j]);
      UnionMember(rs, i);
    }
  }

  /** The members of a component, as `bfs_tree(CGs[ii], source=...)` lists them. */
  function BlockOf(g: Graph, c: set<nat>): (b: seq<nat>)
    requires g.Valid() && c != {} && c <= Range(g.N())
    ensures |b| >= 1 && b[0] == Root(g, c)
    ensures NoDup(b) && Bounded(b, g.N())
  {
    Bfs(g, Root(g, c))
  }

  /** Walking a component from its root lists exactly the component. */
  lemma BlockCoversComponent(g: Graph, c: set<nat>)
    requires g.Valid() && IsComponent(g, c)
    ensures c != {} && c <= Range(g.N())
    ensures Elems(BlockOf(g, c)) == c
  {
    var v: nat :| v < g.N() && c == ComponentOf(g, v);
    SameComponent(g, Root(g, c), v);
  }

  /** Every set in `cs` is a non-empty set of nodes of `g`. */
  predicate NodeSets(g: Graph, cs: seq<set<nat>>) {
    forall i :: 0 <= i < |cs| ==> cs[i] != {} && cs[i] <= Range(g.N())
  }

  /** One walk per ranked component, in rank order. */
  function Blocks(g: Graph, cs: seq<set<nat>>): (bs: seq<seq<nat>>)
    requires g.Valid() && NodeSets(g, cs)
    ensures |bs| == |cs|
    ensures forall i :: 0 <= i < |cs| ==> bs[i] == BlockOf(g, cs[i])
  {
    seq(|cs|, i requires 0 <= i < |cs| => BlockOf(g, cs[i]))
  }

  lemma RankedAreNodeSets(g: Graph)
    requires g.Valid()
    ensures NodeSets(g, RankedComponents(g))
  {
    RankedPartition(g);
    var cs := RankedComponents(g);
    forall i | 0 <= i < |cs| ensures cs[i] != {} && cs[i] <= Range(g.N()) {
      BlockCoversComponent(g, cs[i]);
    }
  }

  /** The blocks of `node_list_bfs`. */
  function CanonicalBlocks(g: Graph): (bs: seq<seq<nat>>)
    requires g.Valid()
    ensures |bs| == |RankedComponents(g)|
  {
    RankedAreNodeSets(g);
    Blocks(g, RankedComponents(g))
  }

  /** `node_list_bfs`: the blocks concatenated. Every node of the graph occurs
      exactly once, so `to_numpy_matrix` accepts it as a node list. */
  function CanonicalOrder(g: Graph): (order: seq<nat>)
    requires g.Valid()
    ensures IsPermutation(order, g.N())
  {
    CanonicalOrderIsPermutation(g);
    Concat(CanonicalBlocks(g))
  }

  lemma BlockElems(g: Graph)
    requires g.Valid()
    ensures forall i :: 0 <= i < |CanonicalBlocks(g)| ==>
      Elems(CanonicalBlocks(g)[i]) == RankedComponents(g)[i]
  {
    RankedPartition(g);
    RankedAreNodeSets(g);
    var cs := RankedComponents(g);
    var bs := CanonicalBlocks(g);
    forall i | 0 <= i < |bs| ensures Elems(bs[i]) == cs[i] {
      BlockCoversComponent(g, cs[i]);
    }
  }

  lemma BlocksNoDupDisjoint(g: Graph)
    requires g.Valid()
    ensures var bs := CanonicalBlocks(g);
      && (forall i :: 0 <= i < |bs| ==> NoDup(bs[i]))
      && (forall i, j :: 0 <= i < j < |bs| ==> Elems(bs[i]) !! Elems(bs[j]))
  {
    RankedPartition(g);
    RankedAreNodeSets(g);
    BlockElems(g);
  }

  lemma CanonicalOrderIsPermutation(g: Graph)
    requires g.Valid()
    ensures IsPermutation(Concat(CanonicalBlocks(g)), g.N())
  {
    RankedPartition(g);
    BlockElems(g);
    BlocksNoDupDisjoint(g);
    var bs := CanonicalBlocks(g);
    ConcatNoDup(bs);
    ConcatCovers(bs, RankedComponents(g));
    CoveringIsPermutation(Concat(bs), g.N());
  }

  /** Concatenating blocks whose element sets are `cs` lists exactly `Union(cs)`. */
  lemma {:induction false} ConcatCovers(bs: seq<seq<nat>>, cs: seq<set<nat>>)
    requires |bs| == |cs| && forall i :: 0 <= i < |bs| ==> Elems(bs[i]) == cs[i]
    ensures Elems(Concat(bs)) == Union(cs)
  {
    if bs != [] {
      ConcatCovers(bs[1..], cs[1..]);
      assert Elems(bs[0]) == cs[0];
      assert Elems(Concat(bs)) == Elems(bs[0]) + Elems(Concat(bs[1..]));
    }
  }

  /** Block `i` of the ordering lists exactly the nodes of the `i`-th ranked
      component. */
  lemma BlocksAreComponents(g: Graph)
    requires g.Valid()
    ensures forall i :: 0 <= i < |CanonicalBlocks(g)| ==>
      IsComponent(g, RankedComponents(g)[i]) && Elems(CanonicalBlocks(g)[i]) == RankedComponents(g)[i]
  {
    RankedPartition(g);
    RankedAreNodeSets(g);
    var cs, bs := RankedComponents(g), CanonicalBlocks(g);
    forall i | 0 <= i < |bs| ensures IsComponent(g, cs[i]) && Elems(bs[i]) == cs[i] {
      BlockCoversComponent(g, cs[i]);
    }
  }

  /** `b` is a breadth-first walk of the node set `c` from its first node of
      maximum degree: every later node is adjacent to an earlier one, the
      nodes come grouped by the position of their first earlier neighbour,
      and siblings keep that neighbour's adjacency order. */
  ghost predicate WalkFromFirstMax(g: Graph, c: set<nat>, b: seq<nat>)
    requires g.Valid()
  {
    && c <= Range(g.N())
    && |b| >= 1 && b[0] in c
    && (forall u :: u in c ==> g.Degree(u) <= g.Degree(b[0]))
    && (forall u :: u in c && u < b[0] ==> g.Degree(u) < g.Degree(b[0]))
    && BreadthFirst(g, b)
  }

  /** Every block is a breadth-first walk of its component from the
      component's first node of maximum degree. */
  lemma BlocksAreBreadthFirst(g: Graph)
    requires g.Valid()
    ensures forall i :: 0 <= i < |CanonicalBlocks(g)| ==>
      WalkFromFirstMax(g, RankedComponents(g)[i], CanonicalBlocks(g)[i])
  {
    RankedPartition(g);
    RankedAreNodeSets(g);
    var cs, bs := RankedComponents(g), CanonicalBlocks(g);
    forall i | 0 <= i < |bs| ensures WalkFromFirstMax(g, cs[i], bs[i]) {
      BlockCoversComponent(g, cs[i]);
      BfsBreadthFirst(g, Root(g, cs[i]));
    }
  }

  /** Blocks come largest first. */
  lemma BlocksLargestFirst(g: Graph, i: nat, j: nat)
    requires g.Valid() && i < j < |CanonicalBlocks(g)|
    ensures |CanonicalBlocks(g)[i]| >= |CanonicalBlocks(g)[j]|
  {
    var bs := CanonicalBlocks(g);
    BlocksAreComponents(g);
    NoDupCard(bs[i]);
    NoDupCard(bs[j]);
  }

  /** Components of equal size keep the order in which
      `connected_components` found them. */
  lemma RankingIsStable(g: Graph, k: nat)
    requires g.Valid()
    ensures OfSize(RankedComponents(g), k) == OfSize(Components(g), k)
  {
    SortIsStable(Components(g), k);
  }
}
