/** The body of the preprocessing loop: one graph file in, at most one
    training sample out, plus the list of statistics files that stays aligned
    with the samples; or the whole loop stops on a one-node graph. */
module Dataset {
  import opened Wrappers
  import opened Seqs
  import opened Graphs
  import opened Ordering
  import opened Matrices
  import opened Tensors

  /** The skip rule compares with this literal, not with `n_max_nodes`. */
  const MaxGraphNodes: nat := 20

  /** A `Data(x=..., edge_index=..., A=..., stats=...)` record. */
  datatype Sample = Sample(x: seq<seq<real>>, edgeIndex: seq<seq<nat>>, a: Matrix, stats: seq<real>)

  /** What one iteration does with a file: `continue` past it, append its
      sample, or raise. A one-node graph raises: the column sums of its
      `1 × 1` matrix squeeze to a 0-d array, whose `len()` `sparse.diags`
      asks for. Nothing catches the exception, so the loop stops. */
  datatype Step = Skip | Emit(sample: Sample) | Abort

  /** The two lists the loop fills, `data_lst` and `stats_lst`. */
  datatype Collected = Collected(samples: seq<Sample>, statsPaths: seq<string>)

  /** What the loop obtains for one file: the parsed graph, the path of its
      statistics file, the statistics read from it, and the eigenvectors
      `eigh` returns (one column per eigenvalue) for `D(D - A)D`, where `A`
      is the adjacency matrix in canonical order and `D` the diagonal of its
      column sums; so row `i` belongs to the node at canonical position `i`.
      The decomposition itself is not modelled. */
  datatype GraphFile = GraphFile(graph: Graph, statsPath: string, stats: seq<real>, eigvecs: seq<seq<real>>)

  predicate Small(f: GraphFile) {
    f.graph.N() <= MaxGraphNodes
  }

  /** The parsed graph is a simple undirected graph, and for a graph the loop
      keeps the eigenvector matrix is `n × n`. */
  predicate Readable(f: GraphFile) {
    && f.graph.Valid()
    && (Small(f) ==> |f.eigvecs| == f.graph.N() && forall i :: 0 <= i < |f.eigvecs| ==> |f.eigvecs[i]| == f.graph.N())
  }

  /** One iteration of the loop over the graph files. */
  function Canonicalize(f: GraphFile, specDim: nat, nMax: nat): (r: Step)
    requires Readable(f) && nMax != 1
    ensures r.Skip? <==> f.graph.N() > MaxGraphNodes
    ensures r.Abort? <==> f.graph.N() == 1
    ensures r.Emit? ==>
      && |r.sample.x| == f.graph.N()
      && (forall i :: 0 <= i < |r.sample.x| ==> |r.sample.x[i]| == specDim + 1)
      && Square(r.sample.a, nMax)
      && |r.sample.edgeIndex| == 2 && |r.sample.edgeIndex[0]| == |r.sample.edgeIndex[1]|
      && (forall k :: 0 <= k < |r.sample.edgeIndex[0]| ==>
            r.sample.edgeIndex[0][k] < f.graph.N() && r.sample.edgeIndex[1][k] < f.graph.N())
      && r.sample.stats == f.stats
  {
    if f.graph.N() > MaxGraphNodes then Skip
    else if f.graph.N() == 1 then Abort
    else
      var g := f.graph;
      var adj := Reordered(g, CanonicalOrder(g));
      Emit(Sample(Features(adj, f.eigvecs, specDim, nMax), EdgeIndex(adj), Pad(adj, nMax), f.stats))
  }

  /** `A` of an emitted sample: a 1 exactly at the positions of adjacent
      nodes of `CanonicalOrder(g)`, and 0 everywhere else, the padding
      included. */
  lemma SampleMatrix(f: GraphFile, specDim: nat, nMax: nat)
    requires Readable(f) && nMax != 1 && Small(f) && f.graph.N() <= nMax
    ensures Canonicalize(f, specDim, nMax).Emit? ==>
      var g, order, a := f.graph, CanonicalOrder(f.graph), Canonicalize(f, specDim, nMax).sample.a;
        forall i, j :: 0 <= i < nMax && 0 <= j < nMax ==>
          && (a[i][j] == 1 <==> i < g.N() && j < g.N() && g.Edge(order[i], order[j]))
          && (a[i][j] == 0 <==> !(i < g.N() && j < g.N() && g.Edge(order[i], order[j])))
  {
    if Canonicalize(f, specDim, nMax).Emit? {
      EmittedMatrix(f, specDim, nMax);
      MatrixOfOrder(f.graph, CanonicalOrder(f.graph), Canonicalize(f, specDim, nMax).sample.a, nMax);
    }
  }

  lemma EmittedMatrix(f: GraphFile, specDim: nat, nMax: nat)
    requires Readable(f) && nMax != 1
    ensures Canonicalize(f, specDim, nMax).Emit? ==>
      Canonicalize(f, specDim, nMax).sample.a == Pad(Reordered(f.graph, CanonicalOrder(f.graph)), nMax)
  {
  }

  lemma MatrixOfOrder(g: Graph, order: seq<nat>, a: Matrix, nMax: nat)
    requires Bounded(order, g.N()) && |order| == g.N() <= nMax
    requires a == Pad(Reordered(g, order), nMax)
    ensures forall i, j :: 0 <= i < nMax && 0 <= j < nMax ==>
      && (a[i][j] == 1 <==> i < g.N() && j < g.N() && g.Edge(order[i], order[j]))
      && (a[i][j] == 0 <==> !(i < g.N() && j < g.N() && g.Edge(order[i], order[j])))
  {
    PaddedIsAdjacency(g, order, nMax);
  }

  /** `edge_index` of an emitted sample: each column joins the positions of
      two adjacent nodes, and every pair of adjacent nodes is a column. */
  lemma SampleEdges(f: GraphFile, specDim: nat, nMax: nat)
    requires Readable(f) && nMax != 1 && Small(f)
    ensures Canonicalize(f, specDim, nMax).Emit? ==>
      var g, order, ei := f.graph, CanonicalOrder(f.graph), Canonicalize(f, specDim, nMax).sample.edgeIndex;
        && (forall k :: 0 <= k < |ei[0]| ==> g.Edge(order[ei[0][k]], order[ei[1][k]]))
        && (forall i, j :: 0 <= i < g.N() && 0 <= j < g.N() && g.Edge(order[i], order[j]) ==>
              exists k :: 0 <= k < |ei[0]| && ei[0][k] == i && ei[1][k] == j)
  {
    if Canonicalize(f, specDim, nMax).Emit? {
      var g, order := f.graph, CanonicalOrder(f.graph);
      assert Canonicalize(f, specDim, nMax).sample.edgeIndex == EdgeIndex(Reordered(g, order));
      EdgeIndexIsEdges(g, order);
    }
  }

  /** Feature column 0 of an emitted sample: the neighbour count of the node
      at each position, over `n_max - 1`. */
  lemma SampleDegrees(f: GraphFile, specDim: nat, nMax: nat)
    requires Readable(f) && nMax != 1 && Small(f)
    ensures Canonicalize(f, specDim, nMax).Emit? ==>
      var g, order, x := f.graph, CanonicalOrder(f.graph), Canonicalize(f, specDim, nMax).sample.x;
        forall i :: 0 <= i < g.N() ==> x[i][0] == |g.adj[order[i]]| as real / (nMax - 1) as real
  {
    if Canonicalize(f, specDim, nMax).Emit? {
      var g, order := f.graph, CanonicalOrder(f.graph);
      var x := Canonicalize(f, specDim, nMax).sample.x;
      assert x == Features(Reordered(g, order), f.eigvecs, specDim, nMax);
      forall i | 0 <= i < g.N() ensures x[i][0] == |g.adj[order[i]]| as real / (nMax - 1) as real {
        DegreeFeature(g, order, f.eigvecs, specDim, nMax, i);
      }
    }
  }

  /** The sample determines the graph up to renaming its nodes: `u` and `v`
      are adjacent exactly when `A` has a 1 at their positions in the order. */
  lemma SampleIsomorphic(f: GraphFile, specDim: nat, nMax: nat, u: nat, v: nat)
    requires Readable(f) && nMax != 1 && Small(f) && f.graph.N() <= nMax
    requires u < f.graph.N() && v < f.graph.N()
    ensures var order := CanonicalOrder(f.graph);
      u in order && v in order &&
      (Canonicalize(f, specDim, nMax).Emit? ==>
        (Canonicalize(f, specDim, nMax).sample.a[IndexOf(order, u)][IndexOf(order, v)] == 1 <==> f.graph.Edge(u, v)))
  {
    var g, order := f.graph, CanonicalOrder(f.graph);
    ReorderedIsomorphic(g, order, u, v);
    SampleMatrix(f, specDim, nMax);
  }

  /** For an emitted sample, `A` is symmetric; without self-loops its
      diagonal is zero and every degree feature lies in `[0, 1]`. */
  lemma SampleShape(f: GraphFile, specDim: nat, nMax: nat)
    requires Readable(f) && nMax != 1 && Small(f) && f.graph.N() <= nMax
    ensures Canonicalize(f, specDim, nMax).Emit? ==>
      var s := Canonicalize(f, specDim, nMax).sample;
        && (forall i, j :: 0 <= i < nMax && 0 <= j < nMax ==> s.a[i][j] == s.a[j][i])
        && (f.graph.NoSelfLoops() ==> forall i :: 0 <= i < nMax ==> s.a[i][i] == 0)
        && (f.graph.NoSelfLoops() ==> forall i :: 0 <= i < f.graph.N() ==> 0.0 <= s.x[i][0] <= 1.0)
  {
    SampleSymmetric(f, specDim, nMax);
    if f.graph.NoSelfLoops() {
      SampleNoSelfLoops(f, specDim, nMax);
    }
  }

  lemma SampleSymmetric(f: GraphFile, specDim: nat, nMax: nat)
    requires Readable(f) && nMax != 1 && Small(f) && f.graph.N() <= nMax
    ensures Canonicalize(f, specDim, nMax).Emit? ==>
      var a := Canonicalize(f, specDim, nMax).sample.a;
        forall i, j :: 0 <= i < nMax && 0 <= j < nMax ==> a[i][j] == a[j][i]
  {
    if Canonicalize(f, specDim, nMax).Emit? {
      var g, order := f.graph, CanonicalOrder(f.graph);
      var a := Canonicalize(f, specDim, nMax).sample.a;
      SampleMatrix(f, specDim, nMax);
      forall i, j | 0 <= i < nMax && 0 <= j < nMax ensures a[i][j] == a[j][i] {
        if i < g.N() && j < g.N() {
          assert g.Edge(order[i], order[j]) <==> g.Edge(order[j], order[i]);
        }
      }
    }
  }

  lemma SampleNoSelfLoops(f: GraphFile, specDim: nat, nMax: nat)
    requires Readable(f) && nMax != 1 && Small(f) && f.graph.N() <= nMax && f.graph.NoSelfLoops()
    ensures Canonicalize(f, specDim, nMax).Emit? ==>
      var s := Canonicalize(f, specDim, nMax).sample;
        && (forall i :: 0 <= i < nMax ==> s.a[i][i] == 0)
        && (forall i :: 0 <= i < f.graph.N() ==> 0.0 <= s.x[i][0] <= 1.0)
  {
    if Canonicalize(f, specDim, nMax).Emit? {
      var g, order := f.graph, CanonicalOrder(f.graph);
      var s := Canonicalize(f, specDim, nMax).sample;
      SampleMatrix(f, specDim, nMax);
      forall i | 0 <= i < nMax ensures s.a[i][i] == 0 {
        if i < g.N() {
          assert !g.Edge(order[i], order[i]);
        }
      }
      assert s.x == Features(Reordered(g, order), f.eigvecs, specDim, nMax);
      forall i | 0 <= i < g.N() ensures 0.0 <= s.x[i][0] <= 1.0 {
        DegreeFeatureInUnit(g, order, f.eigvecs, specDim, nMax, i);
      }
    }
  }

  /** The positions of the files the loop keeps: exactly the small ones, in
      increasing order. */
  function KeptIndices(files: seq<GraphFile>): (idx: seq<nat>)
    ensures forall m :: 0 <= m < |idx| ==> idx[m] < |files|
    ensures forall m, n :: 0 <= m < n < |idx| ==> idx[m] < idx[n]
    ensures forall i: nat :: i in idx <==> i < |files| && Small(files[i])
  {
    if files == [] then []
    else
      var prefix := files[..|files| - 1];
      assert forall i :: 0 <= i < |prefix| ==> prefix[i] == files[i];
      KeptIndices(prefix) + (if Small(files[|files| - 1]) then [|files| - 1] else [])
  }

  /** The files the loop keeps, in their original order. */
  function Kept(files: seq<GraphFile>): (k: seq<GraphFile>)
    ensures |k| <= |files|
    ensures forall f :: f in k <==> f in files && Small(f)
  {
    if files == [] then []
    else
      var last := files[|files| - 1];
      assert files == files[..|files| - 1] + [last];
      Kept(files[..|files| - 1]) + (if Small(last) then [last] else [])
  }

  /** `k` lists the elements of `s` at the positions `idx`, in that order. */
  ghost predicate SelectedAt<T>(k: seq<T>, idx: seq<nat>, s: seq<T>) {
    |k| == |idx| && forall m :: 0 <= m < |k| ==> idx[m] < |s| && k[m] == s[idx[m]]
  }

  /** Appending an element keeps a selection, whether or not it is selected. */
  lemma SelectedExtend<T>(k: seq<T>, idx: seq<nat>, s: seq<T>, x: T)
    requires SelectedAt(k, idx, s)
    ensures SelectedAt(k, idx, s + [x])
    ensures SelectedAt(k + [x], idx + [|s|], s + [x])
  {
  }

  /** The kept files are the files at the kept positions, one per position
      and in the same order. */
  lemma {:induction false} KeptAtIndices(files: seq<GraphFile>)
    ensures SelectedAt(Kept(files), KeptIndices(files), files)
  {
    if files != [] {
      var n := |files| - 1;
      var prefix := files[..n];
      KeptAtIndices(prefix);
      assert files == prefix + [files[n]];
      SelectedExtend(Kept(prefix), KeptIndices(prefix), prefix, files[n]);
      if Small(files[n]) {
        assert Kept(files) == Kept(prefix) + [files[n]];
        assert KeptIndices(files) == KeptIndices(prefix) + [n];
      } else {
        assert Kept(files) == Kept(prefix);
        assert KeptIndices(files) == KeptIndices(prefix);
      }
    }
  }

  lemma KeptStep(files: seq<GraphFile>, i: nat)
    requires i < |files|
    ensures Kept(files[..i + 1]) == Kept(files[..i]) + (if Small(files[i]) then [files[i]] else [])
  {
    assert files[..i + 1][..i] == files[..i];
  }

  /** `s` is the sample of file `f` and `path` its statistics path. */
  predicate Produces(f: GraphFile, s: Sample, path: string, specDim: nat, nMax: nat) {
    && Readable(f) && nMax != 1
    && path == f.statsPath
    && Canonicalize(f, specDim, nMax) == Emit(s)
  }

  /** `samples` and `statsPaths` hold, position by position, the sample and
      the statistics path of the files in `kept`. */
  predicate Aligned(kept: seq<GraphFile>, samples: seq<Sample>, statsPaths: seq<string>, specDim: nat, nMax: nat) {
    && |samples| == |statsPaths| == |kept|
    && forall k :: 0 <= k < |kept| ==> Produces(kept[k], samples[k], statsPaths[k], specDim, nMax)
  }

  lemma AlignedStep(kept: seq<GraphFile>, samples: seq<Sample>, statsPaths: seq<string>,
                    specDim: nat, nMax: nat, f: GraphFile, s: Sample)
    requires Aligned(kept, samples, statsPaths, specDim, nMax)
    ensures Produces(f, s, f.statsPath, specDim, nMax) ==>
      Aligned(kept + [f], samples + [s], statsPaths + [f.statsPath], specDim, nMax)
  {
    if Produces(f, s, f.statsPath, specDim, nMax) {
      var kept', samples', statsPaths' := kept + [f], samples + [s], statsPaths + [f.statsPath];
      forall k | 0 <= k < |kept'| ensures Produces(kept'[k], samples'[k], statsPaths'[k], specDim, nMax) {
        if k < |kept| {
          assert kept'[k] == kept[k] && samples'[k] == samples[k] && statsPaths'[k] == statsPaths[k];
        }
      }
    }
  }

  /** One iteration of the loop that does not raise keeps the lists aligned
      with the files kept so far. */
  lemma LoopStep(files: seq<GraphFile>, i: nat, samples: seq<Sample>, statsPaths: seq<string>,
                 specDim: nat, nMax: nat)
    requires i < |files| && Readable(files[i]) && nMax != 1
    requires Aligned(Kept(files[..i]), samples, statsPaths, specDim, nMax)
    ensures Canonicalize(files[i], specDim, nMax).Emit? ==>
      Aligned(Kept(files[..i + 1]), samples + [Canonicalize(files[i], specDim, nMax).sample],
              statsPaths + [files[i].statsPath], specDim, nMax)
    ensures Canonicalize(files[i], specDim, nMax).Skip? ==>
      Aligned(Kept(files[..i + 1]), samples, statsPaths, specDim, nMax)
  {
    var f := files[i];
    KeptStep(files, i);
    var r := Canonicalize(f, specDim, nMax);
    if r.Emit? {
      assert Produces(f, r.sample, f.statsPath, specDim, nMax);
      AlignedStep(Kept(files[..i]), samples, statsPaths, specDim, nMax, f, r.sample);
    }
  }

  /** One iteration of the loop on `files[i]`: it raises exactly on a
      one-node graph, and otherwise leaves the lists aligned with the files
      kept so far. */
  method Iterate(files: seq<GraphFile>, i: nat, samples: seq<Sample>, statsPaths: seq<string>,
                 specDim: nat, nMax: nat)
    returns (raised: bool, samples': seq<Sample>, statsPaths': seq<string>)
    requires i < |files| && Readable(files[i]) && nMax != 1
    requires Aligned(Kept(files[..i]), samples, statsPaths, specDim, nMax)
    ensures raised <==> files[i].graph.N() == 1
    ensures !raised ==> Aligned(Kept(files[..i + 1]), samples', statsPaths', specDim, nMax)
  {
    LoopStep(files, i, samples, statsPaths, specDim, nMax);
    var step := Canonicalize(files[i], specDim, nMax);
    raised, samples', statsPaths' := step.Abort?, samples, statsPaths;
    if step.Emit? {
      samples', statsPaths' := samples + [step.sample], statsPaths + [files[i].statsPath];
    }
  }

  /** The loop over all graph files. A graph with more than 20 nodes
      contributes neither a sample nor a statistics path, so the two lists
      stay aligned; a one-node graph anywhere in the list stops the loop, and
      nothing is collected. */
  method BuildDataset(files: seq<GraphFile>, specDim: nat, nMax: nat) returns (r: Option<Collected>)
    requires forall f :: f in files ==> Readable(f)
    requires nMax != 1
    ensures r.None? <==> exists i :: 0 <= i < |files| && files[i].graph.N() == 1
    ensures r.Some? ==> |r.value.samples| == |r.value.statsPaths| == |Kept(files)|
    ensures r.Some? ==> forall k :: 0 <= k < |r.value.samples| ==>
      && r.value.statsPaths[k] == Kept(files)[k].statsPath
      && Canonicalize(Kept(files)[k], specDim, nMax) == Emit(r.value.samples[k])
  {
    var samples, statsPaths := [], [];
    var i := 0;
    while i < |files|
      invariant i <= |files|
      invariant forall j :: 0 <= j < i ==> files[j].graph.N() != 1
      invariant Aligned(Kept(files[..i]), samples, statsPaths, specDim, nMax)
    {
      var raised;
      raised, samples, statsPaths := Iterate(files, i, samples, statsPaths, specDim, nMax);
      if raised {
        return None;
      }
      i := i + 1;
    }
    assert files[..i] == files;
    r := Some(Collected(samples, statsPaths));
  }
}
