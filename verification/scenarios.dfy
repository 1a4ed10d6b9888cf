/** The concrete scenarios of the repository's tests, stated against the model. */
module Scenarios {
  import opened Wrappers
  import opened Graph
  import opened Grouping
  import opened Build
  import opened CsrProperties

  /** The three-edge graph the tests build: 0->1, 0->2, 2->3. */
  function SampleEdges(): seq<Edge>
  {
    [Edge(0, 1), Edge(0, 2), Edge(2, 3)]
  }

  /** The run of `k` over the sample, one edge at a time. */
  lemma SampleRun(k: int, reverse: bool)
    ensures Run(SampleEdges(), k, reverse)
      == (if Key(Edge(0, 1), reverse) == k then [Value(Edge(0, 1), reverse)] else [])
       + (if Key(Edge(0, 2), reverse) == k then [Value(Edge(0, 2), reverse)] else [])
       + (if Key(Edge(2, 3), reverse) == k then [Value(Edge(2, 3), reverse)] else [])
  {
    var es := SampleEdges();
    assert es[..0] == [];
    RunExtend(es, 0, k, reverse);
    RunExtend(es, 1, k, reverse);
    RunExtend(es, 2, k, reverse);
    assert es[..3] == es;
  }

  /** Forward orientation over four nodes: node 0 owns 1 and 2, node 2 owns 3. */
  lemma ForwardScenario(c: Csr)
    requires Represents(c, SampleEdges(), 4, false)
    ensures c.rowPtr == [0, 2, 2, 3, 3]
    ensures c.colIdx == [1, 2, 3]
    ensures WellFormed(c) && Neighbors(c, 0) == [1, 2]
  {
    var es := SampleEdges();
    SampleRun(0, false);
    SampleRun(1, false);
    SampleRun(2, false);
    SampleRun(3, false);
    var r := c.rowPtr;
    assert r[1] - r[0] == 2 && r[2] - r[1] == 0 && r[3] - r[2] == 1 && r[4] - r[3] == 0;
    assert c.colIdx == c.colIdx[r[0]..r[1]] + c.colIdx[r[2]..r[3]];
    NeighborsAreRun(c, es, 4, false, 0);
  }

  /** Reverse orientation over four nodes: nodes 1, 2, 3 are reached from 0, 0, 2. */
  lemma ReverseScenario(c: Csr)
    requires Represents(c, SampleEdges(), 4, true)
    ensures c.rowPtr == [0, 0, 1, 2, 3]
    ensures c.colIdx == [0, 0, 2]
    ensures WellFormed(c) && Neighbors(c, 3) == [2]
  {
    var es := SampleEdges();
    SampleRun(0, true);
    SampleRun(1, true);
    SampleRun(2, true);
    SampleRun(3, true);
    var r := c.rowPtr;
    assert r[1] - r[0] == 0 && r[2] - r[1] == 1 && r[3] - r[2] == 1 && r[4] - r[3] == 1;
    assert c.colIdx == c.colIdx[r[1]..r[2]] + c.colIdx[r[2]..r[3]] + c.colIdx[r[3]..r[4]];
    NeighborsAreRun(c, es, 4, true, 3);
  }

  /** Building the sample forward graph succeeds with the offsets, columns and
      neighbour list the forward test expects. */
  method BuildForward() returns (r: Result<Csr, CsrError>)
    ensures r.Success? && r.value.rowPtr == [0, 2, 2, 3, 3] && r.value.colIdx == [1, 2, 3]
    ensures r.Success? && WellFormed(r.value) && Neighbors(r.value, 0) == [1, 2]
  {
    r := NewCSR(Some(SampleEdges()), 4, false);
    ForwardScenario(r.value);
  }

  /** Building the sample reverse graph succeeds with the offsets, columns and
      neighbour list the reverse test expects. */
  method BuildReverse() returns (r: Result<Csr, CsrError>)
    ensures r.Success? && r.value.rowPtr == [0, 0, 1, 2, 3] && r.value.colIdx == [0, 0, 2]
    ensures r.Success? && WellFormed(r.value) && Neighbors(r.value, 3) == [2]
  {
    r := NewCSR(Some(SampleEdges()), 4, true);
    ReverseScenario(r.value);
  }

  /** A negative node count is refused before the edges are looked at. */
  method BuildNegativeCount() returns (r: Result<Csr, CsrError>)
    ensures r == Failure(InvalidNumNodes)
  {
    r := NewCSR(Some([Edge(0, 1)]), -1, false);
  }

  /** The validation failures of the tests, plus an edge with a negative
      target and an out-of-range source, for which the sign check wins. */
  method ValidateSamples() returns (neg: Outcome<CsrError>, out: Outcome<CsrError>, absent: Outcome<CsrError>, both: Outcome<CsrError>)
    ensures neg == Fail(NegativeNodeID(Edge(0, -1)))
    ensures out == Fail(NodeOutOfBounds(Edge(0, 2)))
    ensures absent == Fail(NilEdges)
    ensures both == Fail(NegativeNodeID(Edge(5, -1)))
  {
    neg := ValidateEdges(Some([Edge(0, -1)]), 1);
    out := ValidateEdges(Some(SampleEdges()), 2);
    absent := ValidateEdges(None, 0);
    both := ValidateEdges(Some([Edge(5, -1)]), 2);
  }

  /** The validation failures of the tests surface unchanged from the builder. */
  method BuildInvalid() returns (neg: Result<Csr, CsrError>, out: Result<Csr, CsrError>, absent: Result<Csr, CsrError>)
    ensures neg == Failure(NegativeNodeID(Edge(0, -1)))
    ensures out == Failure(NodeOutOfBounds(Edge(0, 2)))
    ensures absent == Failure(NilEdges)
  {
    neg := NewCSR(Some([Edge(0, -1)]), 1, false);
    out := NewCSR(Some(SampleEdges()), 2, false);
    absent := NewCSR(None, 0, false);
  }

  /** An empty but present edge list over zero nodes builds, in either
      orientation, one zero offset and no columns. */
  method BuildEmpty(reverse: bool) returns (r: Result<Csr, CsrError>)
    ensures r.Success? && r.value.rowPtr == [0] && r.value.colIdx == [] && r.value.nEdges == 0
  {
    r := NewCSR(Some([]), 0, reverse);
  }
}
