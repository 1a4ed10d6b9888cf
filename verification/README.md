# CSR builder — a Dafny model

This project models the Compressed Sparse Row (CSR) builder of the graph
package. The builder turns a list of directed edges into two arrays:

- `RowPtr` holds `numNodes + 1` offsets.
- `ColIdx` holds one neighbour id per edge.

The neighbours of node `k` are `ColIdx[RowPtr[k] : RowPtr[k+1]]`. A `reverse`
flag groups the edges by target instead of by source. In that case each
node's run lists the sources of its incoming edges.

## Modules

- `Wrappers` (`wrappers.dfy`) defines `Option`, `Result` and `Outcome`.
  - A Go `nil` slice is `None`.
  - `(*CSR, error)` is a `Result`.
  - A bare `error` is an `Outcome`.
- `Graph` (`graph.dfy`) holds the data model and the simple operations.
  - Data model: `int32` as a newtype, `Edge`, `Csr`, and the four errors as the closed datatype `CsrError`.
  - Validation: `CheckEdge`, `ScanFrom` and `ValidateEdges`.
  - `WellFormed` is the structural invariant of a CSR.
  - `Neighbors` is the neighbour slice of one node.
- `Grouping` (`grouping.dfy`) is the reference definition of what the counting sort computes.
  - `Key`/`Value` pick the grouping and the stored endpoint of an edge for either orientation.
  - `Run(es, k)` is the stored endpoints of the edges keyed `k`, in input order.
  - `Offsets` is the expected `RowPtr`.
  - `Represents(c, es, n, reverse)` says that `c` is exactly the CSR of `es`.
- `Build` (`build.dfy`) holds the construction itself.
  - The three passes of `NewCSR` are separate methods here: `CountPass`, `PrefixSum` and `PlacePass`. Each carries its own loop invariants.
  - `NewCSR` runs its checks in the source's order, then the three passes.
- `CsrProperties` (`properties.dfy`) proves facts about any CSR that `Represents` its input.
  - Neighbour lists are exactly the runs.
  - Every edge is found again.
  - Degrees are key counts.
  - The multiset of (row, column) pairs equals the multiset of edge pairs.
- `Scenarios` (`scenarios.dfy`) states the repository's test cases against the model.

## Decisions

- **Run order.** Runs are in input order: the placement pass is stable. The
  model proves this exact order. The tests compare `ColIdx` and neighbour
  lists as multisets, which is weaker.
- **Integer types.** `RowPtr` and `ColIdx` entries are unbounded `int`s.
  `NewCSR` ensures that the result is `WellFormed`, so every offset lies in
  `[0, nEdges]` and every column in `[0, nNodes)`. Both ranges fit in an
  `int32`.
- **Sequences for arrays.** `PlacePass` keeps its column array and cursor
  slice as sequence values, updated at one index per edge. This is the same
  update as the source's in-place writes.

## Model

| member | source | states |
|---|---|---|
| Graph.CheckEdge | internal/graph/csr.go:102-108 | an edge passes iff both endpoints lie in `[0, numNodes)`; a negative endpoint gives `NegativeNodeID` even when the other endpoint is too large; any failure carries the offending edge |
| Graph.ScanFrom | internal/graph/csr.go:102-110 | scanning from index `i` passes iff every later edge is in range, and when `es[j]` is the first out-of-range edge from `i` on, the result is that edge's own error, whatever follows it |
| Graph.ValidateEdges | internal/graph/csr.go:97-111 | a nil list gives `NilEdges`; otherwise validation passes iff all edges are in range, and the first out-of-range edge alone decides the error |
| Graph.Neighbors | internal/graph/csr.go:91-95 | whenever the two offset reads and the slice are in bounds, the neighbour slice has length `RowPtr[node+1] - RowPtr[node]` and holds only entries of `ColIdx`; on a well-formed CSR every entry is a valid node id |
| Grouping.Offsets | internal/graph/csr.go:57-72 | the expected row offsets have length `n + 1`, start at 0, end at the edge count, never decrease, and each gap equals the length of that node's run |
| Grouping.RunComplete | internal/graph/csr.go:77-87 | the stored endpoint of every edge appears in the run of its grouping endpoint |
| Grouping.RunSound | internal/graph/csr.go:77-87 | every element of a node's run is the stored endpoint of some edge with that grouping endpoint |
| Grouping.ColIdxIsRuns | internal/graph/csr.go:74-87 | the whole column array is the runs of nodes `0 .. n-1` laid end to end |
| Grouping.RepresentsWellFormed | internal/graph/csr.go:50-87 | a CSR that represents a validated edge list satisfies every structural invariant: sizes, `RowPtr[0] = 0`, `RowPtr[n] = E`, monotone offsets, columns in range |
| Build.CountPass | internal/graph/csr.go:57-67 | after the counting pass, slot 0 is 0 and slot `k+1` holds the number of edges whose grouping endpoint is `k` |
| Build.PrefixSum | internal/graph/csr.go:69-72 | the in-place prefix sum leaves at each index the sum of all counts up to and including it |
| Build.PrefixOfCounts | internal/graph/csr.go:69-72 | summing the counting pass's output up to slot `m` gives the reference offset of node `m` |
| Build.PlacePass | internal/graph/csr.go:74-87 | the placement pass writes each node's run, in input order, into exactly the slice between its offsets, and each cursor ends at the next node's offset |
| Build.NewCSR | internal/graph/csr.go:41-89 | a negative node count gives `InvalidNumNodes`; otherwise the build succeeds iff validation passes and otherwise returns validation's error; a success represents the input exactly and is well formed |
| CsrProperties.NeighborsAreRun | internal/graph/csr.go:91-95 | the neighbours of a node are the stored endpoints of the edges grouped under it, in input order |
| CsrProperties.NeighborsExactly | internal/graph/csr.go:91-95 | `x` is a neighbour of `node` iff some input edge has grouping endpoint `node` and stored endpoint `x` |
| CsrProperties.EdgeFound | internal/graph/csr.go:77-87 | forward, each edge's target is among its source's neighbours; reverse, its source is among its target's neighbours |
| CsrProperties.RunLengthIsKeyCount | internal/graph/csr.go:57-67 | a node's run is as long as the number of edges grouped under it |
| CsrProperties.Degree | internal/graph/csr.go:57-72 | the gap between consecutive row offsets is the out-degree (forward) or in-degree (reverse) of the node |
| CsrProperties.PairsPreserved | internal/graph/csr.go:74-87 | the multiset of (row, column) pairs of the CSR equals the multiset of (source, target) pairs of the edges, or (target, source) pairs in reverse |
| Scenarios.ForwardScenario | internal/graph/csr_test.go:24-47 | the forward CSR of 0->1, 0->2, 2->3 over four nodes has offsets `[0,2,2,3,3]`, columns `[1,2,3]`, and node 0's neighbours `[1,2]` |
| Scenarios.ReverseScenario | internal/graph/csr_test.go:49-72 | the reverse CSR of the same edges has offsets `[0,0,1,2,3]`, columns `[0,0,2]`, and node 3's neighbours `[2]` |
| Scenarios.BuildForward | internal/graph/csr_test.go:24-47 | calling the builder on the sample edges forward succeeds with the expected offsets, columns and neighbours |
| Scenarios.BuildReverse | internal/graph/csr_test.go:49-72 | calling the builder on the sample edges in reverse succeeds with the expected offsets, columns and neighbours |
| Scenarios.BuildNegativeCount | internal/graph/csr_test.go:117-130 | a node count of -1 is refused with `InvalidNumNodes` |
| Scenarios.BuildInvalid | internal/graph/csr_test.go:74-115 | the builder returns the validation failure unchanged: `NegativeNodeID` for a negative target, `NodeOutOfBounds` for an edge beyond the node count, `NilEdges` for a nil list |
| Scenarios.ValidateSamples | internal/graph/csr_test.go:74-115 | validating the tests' failing inputs gives `NegativeNodeID`, `NodeOutOfBounds` and `NilEdges` for the first bad edge; an edge both negative and too large is reported as negative |
| Scenarios.BuildEmpty | internal/graph/csr.go:42-55 | an empty but present edge list over zero nodes builds, in either orientation, offsets `[0]` and no columns |

## Left out

- Build.NewCSR: `int32` overflow of `numNodes + 1` (line 51) and of `int32(len(edges))` (line 54) is not modelled. The method requires `numNodes < 2^31 - 1` and fewer than `2^31` edges, so neither conversion wraps.
- Graph.Neighbors: the panic is not modelled. The source panics only when `RowPtr[node]`, `RowPtr[node+1]` or `ColIdx[start:end]` is out of bounds, and the model requires exactly those bounds instead: `0 <= node`, `node + 1 < len(RowPtr)` and `0 <= RowPtr[node] <= RowPtr[node+1] <= len(ColIdx)`. Go allows a slice bound up to the capacity, but `ColIdx` is allocated with capacity equal to its length. Every CSR that `NewCSR` returns is `WellFormed` and meets these bounds for every node in `[0, NNodes)`.
- Error message text (the `fmt.Errorf` wrapping with the edge's endpoints and `numNodes - 1`) is not modelled. An error is identified by its kind and the offending edge, which is what `errors.Is` and the message carry.
- Aliasing: the slice returned by `Neighbors` shares storage with `ColIdx` in Go. The model returns a value, so later writes through that slice are not represented.
- Allocation and complexity (O(V + E) time and space) are not stated.
- The web front end and the rest of the repository are not part of this model.
