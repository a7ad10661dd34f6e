# Neural Graph Generator: canonical graph encoding and noise schedule

This project models two pieces of the training script `main.py` of the
Neural Graph Generator:

1. **The preprocessing loop.** It turns each graph file into one training
   sample `Data(x, edge_index, A, stats)`:
   - a graph with more than 20 nodes is skipped and contributes neither a
     sample nor a statistics path;
   - a graph with exactly one node makes the loop raise at `sparse.diags`
     (main.py:117-119), so nothing is collected;
   - the connected components are ranked largest first, with a stable sort;
   - each component is walked breadth-first from its first node of maximum
     degree;
   - the walks are concatenated into the canonical node order
     `node_list_bfs`;
   - the adjacency matrix is rebuilt in that order;
   - the edge list is read off it with `torch.nonzero(adj).t()`;
   - column 0 of the node features is the neighbour count over
     `n_max_nodes - 1`, and the next columns come from the Laplacian
     eigenvectors;
   - the matrix is zero-padded to `n_max_nodes × n_max_nodes`.
2. **The diffusion noise schedule.** It derives from `betas`:
   - `alphas`;
   - their cumulative product;
   - its right-shifted copy;
   - the posterior variance of `q(x_{t-1} | x_t, x_0)`.

The modules:

| module | file | what it holds |
|---|---|---|
| `Graphs` | graph.dfy | A graph as neighbour lists over nodes `0..n-1`, in networkx's insertion order. Also closed sets, walks and reachability. |
| `Traversal` | bfs.dfy | `bfs_tree(G, source).nodes()` as a queue-driven discovery list, and the component found from a node. |
| `Connectivity` | components.dfy | `connected_components`, the stable size sort, and the choice of the breadth-first root. |
| `Ordering` | ordering.dfy | `node_list_bfs`. |
| `Matrices` | matrix.dfy | `torch.nonzero`/`.t()`, `F.pad` (which also crops when the amount is negative) and row sums. |
| `Tensors` | tensors.dfy | `to_numpy_matrix` with a node list, and the feature matrix `x`. |
| `Dataset` | dataset.dfy | One loop iteration (`Canonicalize`: skip, emit a sample, or raise) and the whole loop (`BuildDataset`). |
| `Schedule` | schedule.dfy | The schedule tensors over exact reals. |
| `Seqs`, `Wrappers`, `Reals` | seqs.dfy, wrappers.dfy, reals.dfy | Sequence facts, `Option`, and the one fact about real division that the features and the schedule share. |

## Model

| member | source | states |
|---|---|---|
| Traversal.Bfs | main.py:107 | The breadth-first listing starts at the source, lists no node twice and names only nodes of the graph. |
| Traversal.BfsGrown | main.py:107-110 | Every node after the source is adjacent to a node listed earlier. |
| Traversal.BfsBreadthFirst | main.py:107-110 | The listing is in breadth-first order. Take each later node's parent to be its first earlier-listed neighbour. Then parents come before their children, parent positions never decrease along the listing, and children of one parent follow that parent's adjacency order. |
| Traversal.BreadthFirstIsGrown | main.py:107-110 | A breadth-first order is grown: each later node's parent is an earlier neighbour. |
| Traversal.DepthFirstIsNotBreadthFirst | main.py:107-110 | On the path 2 - 0 - 1 - 3 the depth-first order `0, 1, 3, 2` hangs every node off an earlier one, yet it is not breadth-first. So the breadth-first condition is strictly stronger. |
| Traversal.BfsClosed | main.py:107-110 | The listed nodes are closed under taking neighbours: the walk does not stop before the whole component is listed. |
| Traversal.BfsIsReachable | main.py:107-110 | A node is listed exactly when a walk along edges leads to it from the source. |
| Traversal.ComponentOf | main.py:95 | The node set found from `v` contains `v` and only nodes of the graph. `Traversal.BfsIsReachable` shows it is exactly the nodes reachable from `v`. |
| Traversal.SameComponent | main.py:95 | Any member of a component discovers the same component. |
| Connectivity.Components | main.py:95 | The components are connected components, are pairwise disjoint, and together cover every node exactly. They are non-empty and come in discovery order: the least node of each component is smaller than the least node of every later one. |
| Connectivity.ScanOrdered | main.py:95 | Once every node below `v` is seen, the scan from `v` reports non-empty components whose least nodes are at least `v` and strictly increase. |
| Connectivity.ScanFindsComponents | main.py:95 | Every set the node scan reports is the connected component of some node. |
| Connectivity.ScanFindsDisjoint | main.py:95 | A newly reported component is disjoint from all those reported after it. |
| Connectivity.ScanCovers | main.py:95 | Every node from `v` on is either already seen or in a component the scan from `v` reports. |
| Connectivity.SortBySize | main.py:98 | The ranked components are a rearrangement of the input (equal multisets), in non-increasing size. |
| Connectivity.SortIsStable | main.py:98 | For every size `k`, the components of size `k` appear in the same relative order before and after ranking, as Python's stable `sorted` keeps them. |
| Connectivity.SortKeepsDisjoint | main.py:98 | Ranking keeps the components pairwise disjoint. |
| Connectivity.FirstMaxDegree | main.py:103-105 | Returns nothing exactly when the set has no node at or after `v`. Otherwise returns a member of maximum degree that no earlier member ties. |
| Connectivity.Root | main.py:103-107 | The breadth-first source is a node of the component with maximum degree, and every member before it has strictly smaller degree (stable sort by degree, descending). |
| Ordering.RankedComponents | main.py:98 | The ranked components are a rearrangement of `Components(g)` (equal multisets), in non-increasing size. `Ordering.RankedPartition` shows they still partition the nodes. |
| Ordering.RankedPartition | main.py:95-98 | After ranking, the components still partition the nodes. |
| Ordering.BlockOf | main.py:103-110 | The walk of a component is non-empty, starts at the component's root, lists no node twice and names only nodes of the graph. `Ordering.BlocksAreComponents` and `Ordering.BlocksAreBreadthFirst` carry what it lists and in which order. |
| Ordering.CanonicalBlocks | main.py:100-110 | There is one block per ranked component. `Ordering.BlocksAreComponents` shows block `i` lists the `i`-th ranked component. |
| Ordering.CanonicalOrder | main.py:100-110 | `node_list_bfs` lists every node of the graph exactly once. |
| Ordering.BlocksAreComponents | main.py:100-110 | For every `i`, block `i` of the order lists exactly the nodes of the `i`-th ranked component, which is a connected component. |
| Ordering.BlocksAreBreadthFirst | main.py:103-110 | Every block starts at its component's first maximum-degree node. The block is in breadth-first order as `Traversal.BfsBreadthFirst` defines it, so by `Traversal.BreadthFirstIsGrown` each later node hangs off an earlier node of the same block. |
| Ordering.BlocksLargestFirst | main.py:98-110 | Earlier blocks are at least as long as later ones. |
| Ordering.RankingIsStable | main.py:95-98 | Components of equal size keep the order `connected_components` produced them in. |
| Tensors.Reordered | main.py:113 | Entry `(i, j)` is 1 if the `i`-th and `j`-th listed nodes are adjacent and 0 otherwise. |
| Tensors.ReorderedSymmetric | main.py:113 | The reordered adjacency matrix of an undirected graph is symmetric. |
| Tensors.ReorderedDiagonal | main.py:113 | The diagonal is all zero exactly when the graph has no self-loop. |
| Tensors.ReorderedIsomorphic | main.py:113 | `u` and `v` are adjacent exactly when the matrix has a 1 at their positions in the order, so the matrix is the graph up to renaming. |
| Matrices.NonZero | main.py:129 | `torch.nonzero` lists only non-zero positions and all of them, in strictly increasing row-major order. |
| Matrices.RowMajorUnique | main.py:129 | Two row-major listings of the same positions are equal, so the edge list is the only row-major listing of the non-zero positions. |
| Matrices.EdgeIndex | main.py:129 | The transposed edge list has two rows of equal length. Each column is a non-zero position, every non-zero position is a column, and columns come in row-major order. |
| Tensors.EdgeListSymmetric | main.py:113-129 | `(i, j)` is listed exactly when `(j, i)` is: each undirected edge appears in both directions. |
| Tensors.EdgeListIsEdges | main.py:113-129 | `(i, j)` is listed exactly when the nodes at positions `i` and `j` are adjacent. |
| Tensors.EdgeIndexIsEdges | main.py:113-129 | Every column of `edge_index` joins two adjacent nodes, and every adjacent pair is a column. |
| Matrices.RowSum | main.py:133 | A row of zeros and ones sums to a value between 0 and its length. `Tensors.RowSumCountsNeighbours` shows the sum of an adjacency row is the neighbour count. |
| Tensors.IndicatorSum | main.py:133 | The sum of an indicator row counts the listed nodes that are neighbours. |
| Tensors.RowSumCountsNeighbours | main.py:133 | `torch.mm(adj, ones)` in row `i` is the neighbour count of the `i`-th listed node, with a self-loop counted once. |
| Tensors.Features | main.py:132-136 | `x` has one row of `spectral_emb_dim + 1` entries per node. Column 0 times `n_max_nodes - 1` is the row sum. Columns `1..min(n, spectral_emb_dim)` copy the eigenvector entries and the rest stay 0. |
| Tensors.DegreeFeature | main.py:132-133 | Feature 0 of position `i` is the neighbour count of the node there, divided by `n_max_nodes - 1`. |
| Tensors.DegreeFeatureInUnit | main.py:133 | Without self-loops and with at most `n_max_nodes` nodes, the degree feature lies in `[0, 1]`. |
| Matrices.Pad | main.py:131-137 | Padding yields an `n_max × n_max` matrix whatever the sign of `size_diff`. |
| Matrices.PadCropRoundTrip | main.py:131-137 | Cropping the padded matrix back to `n × n` gives the original, and every added row and column is zero. |
| Matrices.PadBelowSizeCrops | main.py:131-137 | A negative `size_diff` crops to the top-left `n_max × n_max` block. |
| Matrices.PadKeepsNonZero | main.py:129-137 | Padding adds no non-zero position, so the edge list of the padded matrix is the original edge list. |
| Tensors.PaddedIsAdjacency | main.py:113-137 | After padding, entry `(i, j)` is 1 exactly when both positions hold adjacent nodes, and 0 otherwise. |
| Dataset.Canonicalize | main.py:90-140 | Skips the file exactly when the graph has more than 20 nodes. Raises exactly when it has one node, because `sparse.diags` takes `len()` of the 0-d array that the column sums of a `1 × 1` matrix squeeze to. Otherwise it emits a sample. A sample has one feature row per node, `A` of size `n_max × n_max`, a `2 × E` edge index over node positions, and the file's statistics. |
| Dataset.SampleMatrix | main.py:113-137 | An emitted sample's `A` holds a 1 exactly where two adjacent nodes meet in the canonical order, and 0 elsewhere, the padding included. |
| Dataset.SampleEdges | main.py:129 | Each column of the sample's `edge_index` joins adjacent nodes, and every adjacent pair is a column. |
| Dataset.SampleDegrees | main.py:133 | The sample's feature 0 is each node's neighbour count over `n_max_nodes - 1`. |
| Dataset.SampleIsomorphic | main.py:100-137 | The sample's `A` determines the graph up to renaming its nodes. |
| Dataset.SampleShape | main.py:113-137 | `A` is symmetric. Without self-loops its diagonal is zero and every degree feature lies in `[0, 1]`. |
| Dataset.KeptIndices | main.py:90-91 | The kept positions are exactly the positions of files with at most 20 nodes, in strictly increasing order. |
| Dataset.Kept | main.py:90-91 | A file survives the skip rule exactly when it is among the inputs and has at most 20 nodes. |
| Dataset.KeptAtIndices | main.py:90-91 | The kept files are the input files at the kept positions, one per position and in input order. |
| Dataset.Iterate | main.py:90-140 | One pass of the loop body raises exactly on a one-node graph. Otherwise the lists stay aligned with the files kept so far, the current one included. |
| Dataset.BuildDataset | main.py:76-140 | The loop collects nothing exactly when some file has a one-node graph. Otherwise `data_lst` and `stats_lst` have one entry per kept file, in order. Entry `k` is the `k`-th kept file's sample and statistics path, so the two lists stay aligned. |
| Schedule.Alphas | main.py:242 | `alphas[t] + betas[t] = 1`. For betas in `(0, 1)` every alpha is in `(0, 1)`. |
| Schedule.CumProd | main.py:243 | The cumulative product has one entry per alpha. `Schedule.CumProdIsProduct` shows what each entry is. |
| Schedule.CumProdIsProduct | main.py:243 | Entry `t` of the cumulative product is the product of `alphas[0..t]`. |
| Schedule.CumProdStep | main.py:243 | `c[0] = alphas[0]` and `c[t+1] = c[t] * alphas[t+1]`. |
| Schedule.CumProdBounds | main.py:243 | Every cumulative product lies in `(0, 1)`, and the sequence strictly decreases. |
| Schedule.ShiftRight | main.py:244 | The shifted copy starts with 1.0, and entry `t >= 1` is the previous cumulative product. |
| Schedule.ShiftedProductStep | main.py:243-244 | `alphas_cumprod[t] = alphas_cumprod_prev[t] * alphas[t]` at every step. |
| Schedule.PosteriorAt | main.py:252 | The posterior variance times `1 - alphas_cumprod[t]` equals `betas[t] * (1 - alphas_cumprod_prev[t])`. |
| Schedule.PosteriorVariance | main.py:252 | One entry per beta, entry `t` being `Schedule.PosteriorAt(betas, t)`, whose contract states the line-252 quotient in multiplied-out form. |
| Schedule.PosteriorVarianceBounds | main.py:252 | The posterior variance is 0 at the first step, and strictly between 0 and `betas[t]` at every later step. |
| Schedule.Derive | main.py:242-252 | Alphas, cumulative products and posterior variance have the length of `betas`. The shifted copy has that length too, or length 1 when `betas` is empty. Alphas and cumulative products lie in `(0, 1)`. The shifted copy starts at 1 and steps to the cumulative product by one alpha. The posterior variance lies in `[0, betas[t]]`. |

## Left out

- Reading the graph and statistics files (`read_gml`, `read_gexf`, `read_stats`, `os.listdir`) and `torch.save`/`torch.load`: I/O. Each file is a `GraphFile` value holding the parsed graph, the statistics path, the statistics and the eigenvectors.
- The Laplacian and `torch.linalg.eigh` (main.py:116-127): floating-point linear algebra. The eigenvector matrix is an opaque `n × n` input. The scaling matrix `DH` is built from `diags`, not from `diags_sqrt`, so the matrix is `D(D - A)D` rather than the normalised Laplacian. The one place the model depends on this code is the one-node crash at main.py:117-119, which `Dataset.Canonicalize` models as `Abort`.
- The square-root schedule tensors (main.py:245-249): no square roots over exact reals.
- `linear_beta_schedule`: its result enters only through `Schedule.ValidBetas`, the precondition that every beta lies strictly between 0 and 1.
- Floating point: features and the schedule are exact reals, not `float32`, so rounding is not modelled.
- Networks, training, the data split and the generation loop (which is broken as written): outside the preprocessing and the schedule.
- Connectivity.Root: it picks the first maximum-degree node in the graph's node order. For a component smaller than half the graph, networkx's subgraph view iterates the component's own set order, which may break ties differently.
- Graph shape: edge weights, multigraphs and directed graphs are not modelled. `Graph.Valid` requires duplicate-free, symmetric neighbour lists.
- Tensors.Features, Dataset.Canonicalize, Dataset.Iterate and Dataset.BuildDataset: all require `n_max_nodes != 1`. The script divides the row sums by `n_max_nodes - 1` (main.py:133). With `n_max_nodes = 1` it does not raise but fills feature 0 with `inf`/`nan`, which exact reals cannot express.
- Tensors.DegreeFeatureInUnit: the bound is proved only for graphs without self-loops and with at most `n_max_nodes` nodes. A self-loop makes the row sum count the node itself.
- Properties of the padded matrix are stated for `n <= n_max_nodes`. `Matrices.Pad` itself also covers cropping.
- `bfs_tree`'s `depth_limit` and `sort_neighbors` options are not used by the script, so they are not modelled.
