/** The tensors the preprocessing builds from one graph once its nodes are
    ordered: the reordered adjacency matrix (`to_numpy_matrix`), the edge list
    read off it, and the node feature matrix `x`. */
module Tensors {
  import opened Seqs
  import opened Graphs
  import opened Matrices
  import opened Reals

  /** One row of `to_numpy_matrix`: column `j` is 1 when the `j`-th listed node
      is in `nbrs`. */
  function Indicator(order: seq<nat>, nbrs: seq<nat>): (row: seq<int>)
    ensures |row| == |order|
  {
    seq(|order|, j requires 0 <= j < |order| => if order[j] in nbrs then 1 else 0)
  }

  /** `nx.to_numpy_matrix(G, nodelist=order)` for an unweighted graph: row and
      column `i` belong to the node `order[i]`. */
  function Reordered(g: Graph, order: seq<nat>): (m: Matrix)
    requires Bounded(order, g.N())
    ensures Square(m, |order|)
    ensures forall i, j :: 0 <= i < |order| && 0 <= j < |order| ==>
      (m[i][j] == 1 <==> g.Edge(order[i], order[j])) && (m[i][j] == 0 <==> !g.Edge(order[i], order[j]))
  {
    seq(|order|, i requires 0 <= i < |order| => Indicator(order, g.adj[order[i]]))
  }

  /** An undirected graph gives a symmetric matrix. */
  lemma ReorderedSymmetric(g: Graph, order: seq<nat>)
    requires g.Valid() && Bounded(order, g.N())
    ensures forall i, j :: 0 <= i < |order| && 0 <= j < |order| ==>
      Reordered(g, order)[i][j] == Reordered(g, order)[j][i]
  {
    var m := Reordered(g, order);
    forall i, j | 0 <= i < |order| && 0 <= j < |order| ensures m[i][j] == m[j][i] {
      assert order[j] in g.adj[order[i]] <==> order[i] in g.adj[order[j]];
    }
  }

  /** The diagonal is zero exactly when the graph has no self-loop. */
  lemma ReorderedDiagonal(g: Graph, order: seq<nat>)
    requires IsPermutation(order, g.N())
    ensures (forall i :: 0 <= i < |order| ==> Reordered(g, order)[i][i] == 0) <==> g.NoSelfLoops()
  {
    var m := Reordered(g, order);
    if forall i :: 0 <= i < |order| ==> m[i][i] == 0 {
      PermutationElems(order, g.N());
      forall u | 0 <= u < g.N() ensures u !in g.adj[u] {
        assert u in Elems(order);
        var i := IndexOf(order, u);
        assert m[i][i] == 0;
      }
    }
  }

  /** Relabelling by the ordering is a graph isomorphism: the nodes `u` and `v`
      are adjacent exactly when the matrix has a 1 at their positions. */
  lemma ReorderedIsomorphic(g: Graph, order: seq<nat>, u: nat, v: nat)
    requires IsPermutation(order, g.N()) && u < g.N() && v < g.N()
    ensures u in order && v in order
    ensures Reordered(g, order)[IndexOf(order, u)][IndexOf(order, v)] == 1 <==> g.Edge(u, v)
  {
    PermutationElems(order, g.N());
    assert u in Elems(order) && v in Elems(order);
  }

  /** Each edge is listed in both directions. */
  lemma EdgeListSymmetric(g: Graph, order: seq<nat>, i: nat, j: nat)
    requires g.Valid() && Bounded(order, g.N())
    ensures (i, j) in NonZero(Reordered(g, order)) <==> (j, i) in NonZero(Reordered(g, order))
  {
    var m := Reordered(g, order);
    ReorderedSymmetric(g, order);
    if (i, j) in NonZero(m) {
      assert NonZeroAt(m, j, i);
    }
    if (j, i) in NonZero(m) {
      assert NonZeroAt(m, i, j);
    }
  }

  /** The edge list names positions, not nodes: `(i, j)` is listed exactly
      when the nodes at those positions are adjacent. */
  lemma EdgeListIsEdges(g: Graph, order: seq<nat>, i: nat, j: nat)
    requires Bounded(order, g.N())
    ensures (i, j) in NonZero(Reordered(g, order)) <==>
      i < |order| && j < |order| && g.Edge(order[i], order[j])
  {
    var m := Reordered(g, order);
    if i < |order| && j < |order| && g.Edge(order[i], order[j]) {
      assert NonZeroAt(m, i, j);
    }
  }

  /** After padding to `size >= n`, entry `(i, j)` is 1 exactly when both
      positions hold nodes and those nodes are adjacent; everything else is 0. */
  lemma PaddedIsAdjacency(g: Graph, order: seq<nat>, size: nat)
    requires Bounded(order, g.N()) && |order| <= size
    ensures forall i, j :: 0 <= i < size && 0 <= j < size ==>
      && (Pad(Reordered(g, order), size)[i][j] == 1 <==> i < |order| && j < |order| && g.Edge(order[i], order[j]))
      && (Pad(Reordered(g, order), size)[i][j] == 0 <==> !(i < |order| && j < |order| && g.Edge(order[i], order[j])))
  {
    PadCropRoundTrip(Reordered(g, order), size);
  }

  /** Column `k` of `edge_index` joins two adjacent nodes, and every pair of
      adjacent nodes appears as a column. */
  lemma EdgeIndexIsEdges(g: Graph, order: seq<nat>)
    requires Bounded(order, g.N())
    ensures var ei := EdgeIndex(Reordered(g, order));
      && (forall k :: 0 <= k < |ei[0]| ==>
            ei[0][k] < |order| && ei[1][k] < |order| && g.Edge(order[ei[0][k]], order[ei[1][k]]))
      && (forall i, j :: 0 <= i < |order| && 0 <= j < |order| && g.Edge(order[i], order[j]) ==>
            exists k :: 0 <= k < |ei[0]| && ei[0][k] == i && ei[1][k] == j)
  {
    var m := Reordered(g, order);
    var ei := EdgeIndex(m);
    forall i, j | 0 <= i < |order| && 0 <= j < |order| && g.Edge(order[i], order[j])
      ensures exists k :: 0 <= k < |ei[0]| && ei[0][k] == i && ei[1][k] == j
    {
      assert NonZeroAt(m, i, j);
    }
  }

  lemma IndicatorPrefix(order: seq<nat>, nbrs: seq<nat>, k: nat)
    requires k <= |order|
    ensures Indicator(order, nbrs)[..k] == Indicator(order[..k], nbrs)
  {
  }

  lemma {:induction false} IndicatorSum(order: seq<nat>, nbrs: seq<nat>)
    requires NoDup(order)
    ensures RowSum(Indicator(order, nbrs)) == |Elems(order) * Elems(nbrs)|
  {
    if order != [] {
      var k := |order| - 1;
      var front, last := order[..k], order[k];
      var row := Indicator(order, nbrs);
      NoDupPrefix(order, k);
      IndicatorSum(front, nbrs);
      IndicatorPrefix(order, nbrs, k);
      assert RowSum(row) == RowSum(Indicator(front, nbrs)) + row[k];
      var before := Elems(front) * Elems(nbrs);
      var after := Elems(order) * Elems(nbrs);
      ElemsSnoc(order);
      assert last !in before;
      if last in nbrs {
        assert row[k] == 1;
        assert after == before + {last};
      } else {
        assert row[k] == 0;
        assert after == before;
      }
    }
  }

  /** `torch.mm(adj, ones)` counts the neighbours of the node in each row. A
      self-loop adds 1 here, while networkx's degree counts it twice. */
  lemma RowSumCountsNeighbours(g: Graph, order: seq<nat>, i: nat)
    requires g.Valid() && IsPermutation(order, g.N()) && i < |order|
    ensures RowSum(Reordered(g, order)[i]) == |g.adj[order[i]]|
  {
    var nbrs := g.adj[order[i]];
    IndicatorSum(order, nbrs);
    PermutationElems(order, g.N());
    assert Elems(nbrs) <= Range(g.N()) by {
      assert Bounded(nbrs, g.N());
      forall x | x in Elems(nbrs) ensures x < g.N() {
        var k :| 0 <= k < |nbrs| && nbrs[k] == x;
      }
    }
    assert Elems(order) * Elems(nbrs) == Elems(nbrs);
    assert NoDup(nbrs);
    NoDupCard(nbrs);
  }

  /** Without a self-loop a node has at most `N - 1` neighbours. */
  lemma NeighbourBound(g: Graph, u: nat)
    requires g.Valid() && u < g.N() && u !in g.adj[u]
    ensures |g.adj[u]| <= g.N() - 1
  {
    var nbrs := g.adj[u];
    assert NoDup(nbrs) && Bounded(nbrs, g.N());
    NoDupCard(nbrs);
    RangeCard(g.N());
    assert Elems(nbrs) <= Range(g.N()) - {u} by {
      forall x | x in Elems(nbrs) ensures x < g.N() && x != u {
        var k :| 0 <= k < |nbrs| && nbrs[k] == x;
      }
    }
    SubsetCard(Elems(nbrs), Range(g.N()) - {u});
  }

  function Min(a: nat, b: nat): nat {
    if a <= b then a else b
  }

  /** `x`: one row of `spectral_emb_dim + 1` features per node. Column 0 is the
      row sum of `adj` over `n_max - 1`; columns `1..min(n, spectral_emb_dim)`
      take the leading eigenvector columns; the remaining columns keep the zero
      of `torch.zeros`. */
  function Features(m: Matrix, eig: seq<seq<real>>, specDim: nat, nMax: nat): (x: seq<seq<real>>)
    requires Square(m, |m|)
    requires |eig| == |m| && forall i :: 0 <= i < |eig| ==> |eig[i]| == |m|
    requires nMax != 1
    ensures |x| == |m|
    ensures forall i :: 0 <= i < |x| ==> |x[i]| == specDim + 1
    ensures forall i :: 0 <= i < |x| ==> ScaledBy(x[i][0], RowSum(m[i]), nMax)
    ensures forall i, c :: 0 <= i < |x| && 1 <= c <= Min(|m|, specDim) ==> x[i][c] == eig[i][c - 1]
    ensures forall i, c :: 0 <= i < |x| && Min(|m|, specDim) < c <= specDim ==> x[i][c] == 0.0
  {
    var mn := Min(|m|, specDim);
    seq(|m|, i requires 0 <= i < |m| => FeatureRow(RowSum(m[i]), eig[i], mn, specDim, nMax))
  }

  /** `f` is `sum` divided by `n_max - 1`, stated without the division. */
  predicate ScaledBy(f: real, sum: int, nMax: nat) {
    f * (nMax - 1) as real == sum as real
  }

  /** One row of `x`: the row sum over `n_max - 1`, the first `mn` entries of
      the eigenvector row, then zeros up to `spectral_emb_dim + 1` columns. */
  function FeatureRow(rowSum: int, eigRow: seq<real>, mn: nat, specDim: nat, nMax: nat): (r: seq<real>)
    requires mn <= specDim && mn <= |eigRow| && nMax != 1
    ensures |r| == specDim + 1
    ensures ScaledBy(r[0], rowSum, nMax)
    ensures forall c :: 1 <= c <= mn ==> r[c] == eigRow[c - 1]
    ensures forall c :: mn < c <= specDim ==> r[c] == 0.0
  {
    var n, d := rowSum as real, (nMax - 1) as real;
    Quotient(n / d, n, d);
    [n / d] + eigRow[..mn] + seq(specDim - mn, _ => 0.0)
  }

  /** The degree feature of the node at position `i` is its neighbour count
      scaled by `n_max - 1`. */
  lemma DegreeFeature(g: Graph, order: seq<nat>, eig: seq<seq<real>>, specDim: nat, nMax: nat, i: nat)
    requires g.Valid() && IsPermutation(order, g.N()) && i < |order|
    requires |eig| == |order| && forall k :: 0 <= k < |eig| ==> |eig[k]| == |order|
    requires nMax != 1
    ensures Features(Reordered(g, order), eig, specDim, nMax)[i][0]
      == |g.adj[order[i]]| as real / (nMax - 1) as real
  {
    var m := Reordered(g, order);
    FeatureColumnZero(m, eig, specDim, nMax, i);
    RowSumCountsNeighbours(g, order, i);
  }

  lemma FeatureColumnZero(m: Matrix, eig: seq<seq<real>>, specDim: nat, nMax: nat, i: nat)
    requires Square(m, |m|) && i < |m|
    requires |eig| == |m| && forall k :: 0 <= k < |eig| ==> |eig[k]| == |m|
    requires nMax != 1
    ensures Features(m, eig, specDim, nMax)[i][0] == RowSum(m[i]) as real / (nMax - 1) as real
  {
    var q := Features(m, eig, specDim, nMax)[i][0];
    Quotient(q, RowSum(m[i]) as real, (nMax - 1) as real);
  }

  /** Without self-loops and with `n <= n_max`, every degree feature lies in
      `[0, 1]`. */
  lemma DegreeFeatureInUnit(g: Graph, order: seq<nat>, eig: seq<seq<real>>, specDim: nat, nMax: nat, i: nat)
    requires g.Valid() && IsPermutation(order, g.N()) && i < |order|
    requires |eig| == |order| && forall k :: 0 <= k < |eig| ==> |eig[k]| == |order|
    requires nMax != 1 && g.NoSelfLoops() && g.N() <= nMax
    ensures 0.0 <= Features(Reordered(g, order), eig, specDim, nMax)[i][0] <= 1.0
  {
    DegreeFeature(g, order, eig, specDim, nMax, i);
    NeighbourBound(g, order[i]);
    UnitQuotient(|g.adj[order[i]]| as real, (nMax - 1) as real);
  }

  lemma UnitQuotient(k: real, d: real)
    requires 0.0 <= k <= d && d > 0.0
    ensures 0.0 <= k / d <= 1.0
  {
  }
}
