# quagmire mesh topology and surface-process post-processing in Dafny

This project models the core of quagmire's triangulated-mesh layer on one
rank:

- `TriMesh` (`mesh/trimesh.py`) derives, from a triangulation, these quantities:
  - per-node valence and area;
  - the undirected edge set and the edge lengths;
  - the CSR neighbour graph (`indptr`, `col`, aligned distances) and the neighbour and closed-neighbour lists;
  - the boundary mask;
  - the local smoothing operator and its iteration with a centre weight.
- `SurfMesh` (`surfmesh/surfmesh.py`) keeps the surface-process state on top of that mesh:
  - the size check of `update_surface_processes`;
  - classification of nodes as low, outflow, high or flat;
  - the filling of low points in `handle_low_points`;
  - the elementwise steps of `stream_power_erosion_deposition_rate`: capacity clipping, excess, deposition clipping and rescaling, zeroing at low points, and the flat-spot write-back.

Coordinates, areas and fields are exact `real`s. The following are inputs:

- the triangulation: points, simplices and convex hull;
- the boundary label of the mesh description and its vertex range `[pStart, pEnd)`;
- the steepest-descent table and the ordered-neighbourhood table;
- the flow operators: the downhill matrix and its transpose, `cumulative_flow`, `uphill_smoothing` and `streamwise_smoothing`.

Each operator is an arbitrary length-preserving function (`Flow.FlowOperators`).

Files and modules:

- `wrappers.dfy` (`Wrappers`): `Option`, `Outcome`.
- `numeric.dfy` (`Numeric`): NumPy array operations on fields.
- `geometry.dfy` (`Geometry`): points, simplices, cross products.
- `area_weights.dfy` (`AreaWeights`): `calculate_area_weights`.
- `edges.dfy` (`Edges`): `get_edge_lengths`.
- `neighbours.dfy` (`Neighbours`): `construct_neighbours` and `node_neighbours`.
- `boundary.dfy` (`Boundary`): `get_boundary`.
- `smoothing.dfy` (`Smoothing`): `_build_smoothing_matrix` and `local_area_smoothing`.
- `trimesh.dfy` (`Mesh`): the `TriMesh` record and its construction.
- `point_classification.dfy` (`Classification`): the `identify_*` routines.
- `flow_operators.dfy` (`Flow`): the abstract flow operators.
- `low_points.dfy` (`LowPoints`): `handle_low_points`.
- `erosion_deposition.dfy` (`Erosion`): `stream_power_erosion_deposition_rate`.
- `surfmesh.dfy` (`Surface`): the `SurfaceProcessMesh` class and its in-place state.

### Where the model follows the code against the documented intent

- The smoothing operator is described as a local average that leaves a constant field unchanged. As built, row `i` holds `1/weight[i]` on the diagonal and `1/weight[j]` for each neighbour `j`, so a row does not in general sum to one.
  - `Smoothing.ConstantFieldStep` proves that one round keeps a constant `c != 0` at node `i` (centre weight not 1) exactly when row `i` sums to one.
  - `Smoothing.OneTriangleDoublesConstant` shows a single triangle on which one round with centre weight 0.5 turns the constant field 1 into the constant field 2.
- The low-point test is described as "height exceeds base plus 0.5 %". The code rejects only when `height - base < 0.005 * (max - base)`, so a point exactly at the threshold is accepted. The model follows the code.
- A rejected low point is described as "left untouched". Its height change is zero. However, with no propagation rounds (`its = 0`), the final `np.maximum(height, delta)` also lifts any node below zero to zero whenever at least one low point exists; `LowPoints.FillWithoutPropagation` states this. With propagation rounds the change at a node is whatever the transposed downhill operator carries there, so no such statement is made.

## Model

| member | source | states |
|---|---|---|
| AreaWeights.CalculateAreaWeights | mesh/trimesh.py:97-117 | `weight[i]` is the number of simplices containing node `i`; `area` is one sixth of the summed `\|v1 x v3\|` of the incident simplices and is non-negative; `triangle_area[t]` is half the cross product of the first two encircling vectors. |
| AreaWeights.ScatterCount | mesh/trimesh.py:113 | the buffered `weight[triangle] += 1` adds one to each distinct vertex of the simplex and leaves every other node unchanged |
| AreaWeights.ScatterAdd | mesh/trimesh.py:114 | the buffered `ntriw[triangle] += c` adds `c` to each distinct vertex of the simplex and leaves every other node unchanged |
| AreaWeights.ContributionIsTwiceArea | mesh/trimesh.py:103-114 | the per-triangle contribution `\|v1 x v3\|` is twice the unsigned triangle area |
| AreaWeights.DegenerateContributesNothing | mesh/trimesh.py:103-114 | a simplex that repeats a vertex contributes zero area |
| AreaWeights.IncidentContributionNonNegative | mesh/trimesh.py:112-114 | the accumulated contribution at every node is non-negative |
| AreaWeights.NodeAreasNonNegative | mesh/trimesh.py:117 | every node area is non-negative |
| AreaWeights.CountIncidentDistinct | mesh/trimesh.py:113 | a simplex with three distinct vertices is incident to exactly three nodes, so the buffered `weight[triangle] += 1` adds three in total |
| AreaWeights.SumIndicator | mesh/trimesh.py:114 | scattering `c` to a simplex's vertices adds `c` times the number of its distinct vertices to the total |
| AreaWeights.NodeAreasSumToTotalArea | mesh/trimesh.py:103-117 | the node areas sum to the total unsigned triangulated area `sum_t \|triangle_area[t]\|` |
| AreaWeights.PositiveValenceIncident | mesh/trimesh.py:113 | a node whose valence is positive is a vertex of some simplex |
| AreaWeights.ShareOfSimplex | mesh/trimesh.py:103-117 | one sixth of `\|v1 x v3\|` added to each vertex of a simplex hands out exactly its unsigned area in total |
| AreaWeights.PrefixStep | mesh/trimesh.py:112-114 | one loop step adds the simplex's incidence to the valence and its contribution to the accumulated area of each of its vertices |
| Edges.Canon | mesh/trimesh.py:184-186 | the sorted index pair: `lo <= hi` and `{lo, hi}` is the input pair |
| Edges.Unique | mesh/trimesh.py:190-193 | row deduplication keeps exactly the input rows, each once |
| Edges.SidesOfSimplices | mesh/trimesh.py:184-188 | the stacked rows are exactly the sides of the simplices |
| Edges.EdgeSet | mesh/trimesh.py:184-193 | an edge is in the set iff it is a side of some simplex, and no edge appears twice |
| Edges.EdgeSetBounds | mesh/trimesh.py:184-193 | every edge satisfies `0 <= lo <= hi < npoints`, and `lo < hi` when no simplex repeats a vertex |
| Edges.EdgeLengths | mesh/trimesh.py:195 | one length per edge, aligned with `edges`: entry k is the norm of the difference of edge k's two end points |
| Neighbours.BucketMembers | mesh/trimesh.py:212-215 | a row bucket holds exactly the entries of that row |
| Neighbours.RowCount | mesh/trimesh.py:218 | the `bincount` length exceeds every row index, its last row is used, and it is zero with no entries |
| Neighbours.ConstructCsr | mesh/trimesh.py:209-222 | `indptr[0] = 0`; `indptr` is non-decreasing; `indptr[i+1] - indptr[i] = vertex_neighbours[i] >= 0`; `indptr[last] = \|col\| = \|dist\| = 2 \|edges\|` |
| Neighbours.CsrShape | mesh/trimesh.py:212-219 | the same shape for any entry list with non-negative rows |
| Neighbours.OffsetsAreSortedPrefixes | mesh/trimesh.py:218-219 | `indptr[i]` is the number of entries in rows below `i` |
| Neighbours.SortedHoldsAllEntries | mesh/trimesh.py:212-215 | the sort by row is a permutation of the entries: same length and same multiset |
| Neighbours.SortedMembers | mesh/trimesh.py:212-215 | every sorted entry is one of the input entries |
| Neighbours.SortedPrefix | mesh/trimesh.py:212-215 | the sorted rows below `m1` are a prefix of the sorted rows below `m2 >= m1` |
| Neighbours.RowSlice | mesh/trimesh.py:212-219 | row `i` of the sorted entries lies between the offsets of rows `i` and `i+1` |
| Neighbours.RowOfCsr | mesh/trimesh.py:212-219 | the slice `indptr[i]..indptr[i+1]` of the sorted entries is exactly row `i` |
| Neighbours.RowPerNode | mesh/trimesh.py:209-219 | when every node is an endpoint of an edge, the `bincount` reaches the last node and `indptr` has one entry per node plus one |
| Neighbours.CsrWithin | mesh/trimesh.py:209-219 | the graph has at most `npoints` rows and every column names a node |
| Neighbours.EntriesCarryLengths | mesh/trimesh.py:209-211 | every directed entry carries the length of the canonical edge it came from |
| Neighbours.EntriesAreJoins | mesh/trimesh.py:209-210 | an entry `(i, j)` exists iff an edge joins `i` and `j` |
| Neighbours.NeighbourRow | mesh/trimesh.py:209-222 | `j` is in `node_neighbours(i)` iff an edge joins `i` and `j`; the distance beside each neighbour `j` is the length of edge `{i, j}` |
| Neighbours.NeighbourSymmetry | mesh/trimesh.py:120-125 | `j` is in `node_neighbours(i)` iff `i` is in `node_neighbours(j)`, and no node is its own neighbour when every edge has `lo < hi` |
| Neighbours.NeighbourLists | mesh/trimesh.py:224-236 | for each graph row, `neighbours[i]` is the row's column slice and `closed_neighbours[i]` is `i` followed by exactly that slice; later nodes keep empty lists |
| Boundary.GetBoundary | mesh/trimesh.py:286-311 | `bmask[i]` is false iff a point of the boundary stratum within `[pStart, pEnd)` names node `i` |
| Boundary.HullIsBoundary | mesh/trimesh.py:298-303 | without a boundary label, the boundary nodes are exactly the convex-hull nodes |
| Smoothing.BuildSmoothingMatrix | mesh/trimesh.py:239-266 | the matrix shares the graph's layout; its diagonal is `1/weight[i] > 0` and each off-diagonal entry is `1/weight[col[k]] > 0` |
| Smoothing.SelfLoopKeepsDiagonal | mesh/trimesh.py:259-263 | both writes insert, and the diagonal is written last: on an edge joining node 0 to itself, the product of the constant 1 is the diagonal value 1 alone, not 1 plus the two overwritten CSR entries |
| Smoothing.LocalAreaSmoothing | mesh/trimesh.py:271-283 | the result is `its` rounds of `cw * x + (1 - cw) * S x`; with `its = 0` or `cw = 1` the data come back unchanged |
| Smoothing.SmoothStepScale | mesh/trimesh.py:277-279 | a smoothing round is linear: on `c * x` it gives `c` times the round on `x` |
| Smoothing.CentreWeightOneIsIdentity | mesh/trimesh.py:277-279 | with centre weight 1, any number of rounds returns the data |
| Smoothing.RowDotNonNegative | mesh/trimesh.py:278 | a row product of non-negative entries and a non-negative field is non-negative |
| Smoothing.SmoothingPreservesNonNegativity | mesh/trimesh.py:277-279 | with non-negative entries and `0 <= cw <= 1`, a non-negative field stays non-negative |
| Smoothing.RowDotConstant | mesh/trimesh.py:278 | the off-diagonal product with a constant field is the constant times the off-diagonal row sum |
| Smoothing.ConstantFieldStep | mesh/trimesh.py:277-279 | one round maps a constant `c` at node `i` to `c * (cw + (1 - cw) * rowSum(i))`, so it keeps `c != 0` (with `cw != 1`) iff row `i` sums to one |
| Smoothing.OneTriangleDoublesConstant | mesh/trimesh.py:209-279 | on a single triangle, the graph has `indptr = [0, 2, 4, 6]` and `col = [1, 2, 2, 0, 0, 1]`, and one round with `cw = 0.5` turns the constant field 1 into 2, so constants are not preserved |
| Mesh.NewTriMesh | mesh/trimesh.py:19-94 | the built mesh is the result of each step in constructor order: area weights, edges and lengths, a CSR graph with exactly one row per node and columns in the node range, the neighbour lists of every node, the boundary mask, the smoothing operator |
| Mesh.CoveredNodesOnEdges | mesh/trimesh.py:184-193 | every node of some simplex is an endpoint of one of the mesh's edges |
| Mesh.MeshSmoothingNonNegative | mesh/trimesh.py:239-283 | smoothing a non-negative field on a built mesh with `0 <= cw <= 1` keeps it non-negative |
| Numeric.Max | surfmesh/surfmesh.py:51 | `max()` of a non-empty array bounds every entry and is attained |
| Numeric.MeanBounds | surfmesh/surfmesh.py:57 | the neighbourhood mean lies between bounds of its members |
| Numeric.SumBounds | surfmesh/surfmesh.py:57 | a sum of `n` values within `[lo, hi]` lies within `[n lo, n hi]` |
| Numeric.Maximum | surfmesh/surfmesh.py:76 | `np.maximum` is at least both inputs and equal to one of them |
| Numeric.Minimum | surfmesh/surfmesh.py:183 | `np.minimum` is at most both inputs and equal to one of them: transport-limited material is at most the eroded material and at most the capacity load |
| Classification.IndicesExact | surfmesh/surfmesh.py:93-95 | the set positions of a mask, in increasing order, each once |
| Classification.CompressSelf | surfmesh/surfmesh.py:93-95 | boolean indexing of a self-indexed array gives the set positions |
| Classification.SelfTargetsExact | surfmesh/surfmesh.py:91-119 | the self-targeting nodes with a given mask value, increasing and exact |
| Classification.LowPointsExact | surfmesh/surfmesh.py:86-95 | the low points are exactly the interior nodes `i` with `neighbour_array_2_low[i][0] == i`, in increasing order |
| Classification.OutflowPointsExact | surfmesh/surfmesh.py:110-119 | the outflow points are exactly the self-targeting boundary nodes, in increasing order |
| Classification.LowAndOutflowPartitionSinks | surfmesh/surfmesh.py:91-119 | low and outflow points are disjoint and together are exactly the self-targeting nodes |
| Classification.IdentifyHighPoints | surfmesh/surfmesh.py:97-107 | the high points are exactly the interior nodes whose last `neighbour_array_lo_hi` entry is the node itself, in increasing order |
| Classification.FlatSpotsScaleFree | surfmesh/surfmesh.py:122-126 | scaling every slope by the same positive factor marks the same flat spots, since the threshold is a tenth of the steepest smoothed slope and smoothing is linear |
| Classification.FlatSpotsSpareSteepest | surfmesh/surfmesh.py:122-128 | with a node flat (by definition) when its once-smoothed slope is under a tenth of the largest, a non-negative slope always leaves its steepest node not flat |
| LowPoints.FillLowPoints | surfmesh/surfmesh.py:39-82 | the filled heights are the elementwise max of the heights and the propagated changes, never below the heights, and unchanged with no low points; an accepted low point gets its neighbourhood mean and a rejected one gets no change; `fixed` counts the accepted points and `fixed + rejected` is the number of low points |
| LowPoints.FillWithoutPropagationBounded | surfmesh/surfmesh.py:50-76 | with no propagation rounds, no filled height exceeds the highest point, if that point is not below zero |
| LowPoints.FillWithoutPropagation | surfmesh/surfmesh.py:50-76 | with no propagation rounds, an accepted low point ends at the larger of its height and its neighbourhood mean, and every other node below zero is lifted to zero |
| Erosion.Excess | surfmesh/surfmesh.py:183-193 | the excess is the eroded material beyond the capacity load (`max(0, eroded - load)`), never negative |
| Erosion.Clip | surfmesh/surfmesh.py:203 | clipped values lie in `[lo, hi]`, values already there are kept, and others go to the nearer bound |
| Erosion.RescaleFactorRange | surfmesh/surfmesh.py:197-204 | the factor `s / (s + 1e-12)` lies in `(0, 1)` for `s > 0`, is 0 at `s = 0`, is negative for `-1e-12 < s < 0`, and exceeds 1 below `-1e-12` |
| Erosion.ZeroLowPoints | surfmesh/surfmesh.py:216-217 | every low point ends at zero and no other node changes |
| Erosion.KeepFlatSpots | surfmesh/surfmesh.py:224-225 | the copy keeps the flat-spot values and is zero elsewhere |
| Erosion.CopyAtFlatSpots | surfmesh/surfmesh.py:227 | values change only at flat spots, where they take the smoothed values |
| Erosion.WriteBackFlatSpots | surfmesh/surfmesh.py:223-227 | flat spots receive two rounds (centre weight 0.5) of smoothing of the flat-only deposition; other nodes keep theirs |
| Erosion.StreamPowerErosionDepositionRate | surfmesh/surfmesh.py:131-231 | stream power, erosion rate and deposition rate are the values of their stages, with the deposition smoother defaulting to streamwise smoothing |
| Erosion.LowPointsReceiveNoDeposition | surfmesh/surfmesh.py:216-227 | a low point that is not a flat spot receives zero deposition |
| Erosion.DepositionNonNegative | surfmesh/surfmesh.py:197-227 | with a non-negative rescale factor and non-negative operator entries, the deposition is non-negative everywhere |
| Surface.SurfaceProcessMesh.constructor | surfmesh/surfmesh.py:12-13 | the state starts with the given mesh, tables, operators and heights, and with empty surface fields |
| Surface.SurfaceProcessMesh.UpdateSurfaceProcesses | surfmesh/surfmesh.py:15-36 | on a rainfall or sediment size other than `npoints`, fails with `IndexError(npoints)` and changes nothing; otherwise stores both arrays, the cumulative flow of the areas, and the low and outflow points |
| Surface.SurfaceProcessMesh.HandleLowPoints | surfmesh/surfmesh.py:39-82 | recomputes the low points and returns the filled heights, none below the stored heights; every other field (heights, slope, rainfall, sediment, upstream area, outflow points) is unchanged |
| Surface.SurfaceProcessMesh.StreamPowerRates | surfmesh/surfmesh.py:131-231 | the rates computed from the stored rainfall, areas, slope and low points |

## Left out

- MPI/PETSc distribution: one rank is assumed. This covers `localToGlobal`/`globalToLocal`, the local-to-global maps, `_local_global_local`, `_gather_root` and `gather_data`. Matrices are CSR arrays and vectors are fields.
- The preallocation count `nnz` and the local-global mask in `_build_smoothing_matrix` only size PETSc storage and are not modelled.
- Graph rows past the last `bincount` row are treated as holding only their diagonal. On a built mesh there are none (`Mesh.NewTriMesh`).
- Smoothing.Mult: repeated CSR entries at one off-diagonal position are summed, where the matrix would keep the last one. Such repeats never come out of `Neighbours.ConstructCsr`, because the edges are distinct; only the diagonal position can repeat, and that overwrite is modelled.
- LowPoints.FillLowPoints: `delta_height` comes from `lvec.duplicate()`, which is taken to be zero-filled. The same holds for the `excess` and `deposition` vectors of `stream_power_erosion_deposition_rate`.
- Classification.IdentifyFlatSpots: requires a non-empty slope field. On an empty one, NumPy's `.max()` raises `ValueError`; that error path is not modelled.
- The Delaunay triangulation and convex hull (`stripy.Triangulation`, `convex_hull`) are foreign library calls. The points, simplices and hull are inputs.
- Mutation of the mesh description's label store in `get_boundary` (`markBoundaryFaces`, `setLabelValue`) is not modelled. Only the stratum read back is.
- `derivative_grad`, `derivative_div` and `landscape_diffusion_critical_slope` rely on a foreign gradient solver and floating-point numerics.
- `save_mesh_to_file`, `save_field_to_file`, timings, logging and verbose prints are I/O only.
- Edges.Length: the Euclidean norm is a parameter function `norm`, since its square root is not modelled.
- Edges.Unique: the row order of `np.unique` over a raw-byte view is not modelled. The model keeps first occurrences, and no property depends on the order.
- Neighbours.ConstructCsr: the order of entries within a row after `argsort` is unspecified. The model uses a stable sort, and row contents are stated as sets.
- AreaWeights.CalculateAreaWeights: the fixed-width integer type of `weight` is unbounded here.
- Mesh.NewTriMesh: requires every node to lie in some simplex. On an uncovered node the source divides by a zero valence and stores an infinite smoothing weight.
- Erosion.StreamPowerErosionDepositionRate: requires positive node areas. With a zero area the source divides by zero, giving inf or nan.
- Erosion.RescaleFactor: at `depo_sum = -1e-12` the source divides by zero; the model uses 0 there.
- Erosion.StreamPowerErosionDepositionRate: the factors 1.001 and `depo_sum / (depo_sum + 1e-12)` are plain real multiplications. No mass-balance property is claimed.
- Erosion.StreamPowerErosionDepositionRate: `smooth_low_points`, the flat-spot field and `transport_limited_erosion_rate` are computed or accepted but never used by the source, and are not modelled.
- LowPoints.FillLowPoints: the first `np.maximum` before propagation at surfmesh/surfmesh.py:63 is overwritten unused and is not modelled.
- Classification.IdentifyHighPoints: requires each `neighbour_array_lo_hi` row to be non-empty; it holds the node itself.
- Construction of `neighbour_array_2_low`, `neighbour_array_lo_hi`, `slope`, `height` and the downhill matrix is not part of this model. These are inputs.
- `cumulative_flow`, `uphill_smoothing` and `streamwise_smoothing` are not part of this model. They are length-preserving parameters.
