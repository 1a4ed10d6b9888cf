/** The data model of the CSR builder: edges, the CSR structure, the four
    error kinds, the edge validator and the neighbour accessor. */
module Graph {
  import opened Wrappers

  /** Go's int32, the type of every node id and of the node count. */
  newtype int32 = x: int | -0x8000_0000 <= x < 0x8000_0000

  /** A directed edge. Self-loops and parallel edges are allowed. */
  datatype Edge = Edge(source: int32, target: int32)

  /** The closed set of errors. The two edge errors carry the offending edge,
      which the source attaches to the sentinel as message text. */
  datatype CsrError =
    | InvalidNumNodes
    | NilEdges
    | NegativeNodeID(edge: Edge)
    | NodeOutOfBounds(edge: Edge)

  /** The built structure: run `n` of `colIdx` is `colIdx[rowPtr[n]..rowPtr[n+1]]`.
      The int32 entries of the source are modelled as `int`; every entry the
      builder writes lies in `[0, nEdges]`, so none of them overflows. */
  datatype Csr = Csr(rowPtr: seq<int>, colIdx: seq<int>, nNodes: int32, nEdges: int32)

  /** Both endpoints are node ids of a graph with `numNodes` nodes. */
  predicate EdgeInRange(e: Edge, numNodes: int)
  {
    0 <= e.source as int < numNodes && 0 <= e.target as int < numNodes
  }

  predicate AllInRange(es: seq<Edge>, numNodes: int)
  {
    forall i :: 0 <= i < |es| ==> EdgeInRange(es[i], numNodes)
  }

  /** The check applied to one edge: the sign test comes before the bound test,
      so an edge with one negative and one too-large endpoint is reported as
      negative. */
  function CheckEdge(e: Edge, numNodes: int32): (r: Outcome<CsrError>)
    ensures r.Pass? <==> EdgeInRange(e, numNodes as int)
    ensures r.Fail? ==> (r.error.NegativeNodeID? || r.error.NodeOutOfBounds?) && r.error.edge == e
    ensures r.Fail? ==> (r.error.NegativeNodeID? <==> e.source < 0 || e.target < 0)
  {
    if e.source < 0 || e.target < 0 then Fail(NegativeNodeID(e))
    else if e.source >= numNodes || e.target >= numNodes then Fail(NodeOutOfBounds(e))
    else Pass
  }

  /** `es[j]` is the first edge at or after `from` that is out of range. */
  predicate FirstOutOfRange(es: seq<Edge>, numNodes: int, from: nat, j: int)
  {
    && from <= j < |es|
    && !EdgeInRange(es[j], numNodes)
    && forall k :: from <= k < j ==> EdgeInRange(es[k], numNodes)
  }

  /** The first bad edge from `i` on is `es[i]` itself when that edge is bad,
      and otherwise the first bad edge from `i + 1` on. */
  lemma FirstOutOfRangeStep(es: seq<Edge>, numNodes: int, i: nat)
    requires i < |es|
    ensures !EdgeInRange(es[i], numNodes) ==> forall j :: FirstOutOfRange(es, numNodes, i, j) ==> j == i
    ensures EdgeInRange(es[i], numNodes) ==>
      forall j :: FirstOutOfRange(es, numNodes, i, j) ==> FirstOutOfRange(es, numNodes, i + 1, j)
  {
  }

  /** The left-to-right scan of `es[i..]`: the error of the first bad edge. */
  function ScanFrom(es: seq<Edge>, numNodes: int32, i: nat): (r: Outcome<CsrError>)
    requires i <= |es|
    decreases |es| - i
    ensures r.Pass? <==> forall j :: i <= j < |es| ==> EdgeInRange(es[j], numNodes as int)
    ensures forall j :: FirstOutOfRange(es, numNodes as int, i, j) ==> r == CheckEdge(es[j], numNodes)
  {
    if i == |es| then Pass
    else
      FirstOutOfRangeStep(es, numNodes as int, i);
      var check := CheckEdge(es[i], numNodes);
      if check.Fail? then check else ScanFrom(es, numNodes, i + 1)
  }

  /** Validation of an edge list against a node count. A nil list is an error,
      an empty one is not; otherwise the first bad edge decides the error. */
  function ValidateEdges(edges: Option<seq<Edge>>, numNodes: int32): (r: Outcome<CsrError>)
    ensures edges.None? ==> r == Fail(NilEdges)
    ensures edges.Some? ==> (r.Pass? <==> AllInRange(edges.value, numNodes as int))
    ensures edges.Some? ==> forall j :: FirstOutOfRange(edges.value, numNodes as int, 0, j) ==>
      r == CheckEdge(edges.value[j], numNodes)
  {
    match edges
    case None => Fail(NilEdges)
    case Some(es) => ScanFrom(es, numNodes, 0)
  }

  /** The invariants every built CSR satisfies: `nNodes + 1` row offsets
      starting at 0, non-decreasing, ending at the edge count, and every column
      entry a node id. */
  predicate WellFormed(c: Csr)
  {
    && 0 <= c.nNodes
    && |c.rowPtr| == c.nNodes as int + 1
    && |c.colIdx| == c.nEdges as int
    && c.rowPtr[0] == 0
    && c.rowPtr[c.nNodes as int] == |c.colIdx|
    && (forall i, j :: 0 <= i <= j <= c.nNodes as int ==> c.rowPtr[i] <= c.rowPtr[j])
    && (forall j :: 0 <= j < |c.colIdx| ==> 0 <= c.colIdx[j] < c.nNodes as int)
  }

  /** The adjacency run of `node`: the columns between its two row offsets.
      The requires are the conditions under which the source's two index
      reads and its slice expression do not panic; nothing else about `c` is
      needed. On a well-formed CSR every entry is a node id. */
  function Neighbors(c: Csr, node: int32): (r: seq<int>)
    requires 0 <= node as int && node as int + 1 < |c.rowPtr|
    requires 0 <= c.rowPtr[node as int] <= c.rowPtr[node as int + 1] <= |c.colIdx|
    ensures |r| == c.rowPtr[node as int + 1] - c.rowPtr[node as int]
    ensures forall x :: x in r ==> x in c.colIdx
    ensures WellFormed(c) ==> forall x :: x in r ==> 0 <= x < c.nNodes as int
  {
    c.colIdx[c.rowPtr[node as int]..c.rowPtr[node as int + 1]]
  }
}
