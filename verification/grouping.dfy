/** The functional reading of the counting sort: which endpoint groups an
    edge, the run of values each node receives, and the offset at which each
    run starts. */
module Grouping {
  import opened Graph

  /** The grouping endpoint: the source in forward orientation, the target in
      reverse orientation. */
  function Key(e: Edge, reverse: bool): int
  {
    if reverse then e.target as int else e.source as int
  }

  /** The endpoint stored in the column array: the other one. */
  function Value(e: Edge, reverse: bool): int
  {
    if reverse then e.source as int else e.target as int
  }

  /** The values of the edges keyed `k`, in input order. */
  function Run(es: seq<Edge>, k: int, reverse: bool): seq<int>
  {
    if |es| == 0 then []
    else
      var last := es[|es| - 1];
      Run(es[..|es| - 1], k, reverse) + (if Key(last, reverse) == k then [Value(last, reverse)] else [])
  }

  /** The number of edges whose key is below `k`. */
  function Below(es: seq<Edge>, k: int, reverse: bool): nat
  {
    if |es| == 0 then 0
    else Below(es[..|es| - 1], k, reverse) + (if Key(es[|es| - 1], reverse) < k then 1 else 0)
  }

  /** The reference row-offset array of a validated edge list. */
  function Offsets(es: seq<Edge>, n: nat, reverse: bool): (r: seq<int>)
    requires AllInRange(es, n)
    ensures |r| == n + 1
    ensures r[0] == 0 && r[n] == |es|
    ensures forall i, j :: 0 <= i <= j <= n ==> r[i] <= r[j]
    ensures forall k :: 0 <= k < n ==> r[k + 1] - r[k] == |Run(es, k, reverse)|
  {
    BelowEnds(es, n, reverse);
    BelowMonotone(es, reverse);
    BelowStep(es, reverse);
    seq(n + 1, k requires 0 <= k <= n => Below(es, k, reverse))
  }

  /** The runs of nodes `0 .. m-1`, one after the other. */
  function RunsUpTo(es: seq<Edge>, m: nat, reverse: bool): seq<int>
  {
    if m == 0 then [] else RunsUpTo(es, m - 1, reverse) + Run(es, m - 1, reverse)
  }

  lemma {:induction false} BelowStepAt(es: seq<Edge>, k: int, reverse: bool)
    ensures Below(es, k + 1, reverse) == Below(es, k, reverse) + |Run(es, k, reverse)|
    decreases |es|
  {
    if |es| > 0 {
      BelowStepAt(es[..|es| - 1], k, reverse);
    }
  }

  /** The run of `k` fills exactly the slots between the offsets of `k` and `k+1`. */
  lemma BelowStep(es: seq<Edge>, reverse: bool)
    ensures forall k :: Below(es, k + 1, reverse) == Below(es, k, reverse) + |Run(es, k, reverse)|
  {
    forall k {
      BelowStepAt(es, k, reverse);
    }
  }

  lemma {:induction false} BelowMonotoneAt(es: seq<Edge>, i: int, j: int, reverse: bool)
    requires i <= j
    ensures Below(es, i, reverse) <= Below(es, j, reverse)
    decreases |es|
  {
    if |es| > 0 {
      BelowMonotoneAt(es[..|es| - 1], i, j, reverse);
    }
  }

  lemma BelowMonotone(es: seq<Edge>, reverse: bool)
    ensures forall i, j :: i <= j ==> Below(es, i, reverse) <= Below(es, j, reverse)
  {
    forall i, j | i <= j {
      BelowMonotoneAt(es, i, j, reverse);
    }
  }

  /** With every key in `[0, n)`, no edge lies below 0 and every edge lies below `n`. */
  lemma {:induction false} BelowEnds(es: seq<Edge>, n: nat, reverse: bool)
    requires AllInRange(es, n)
    ensures Below(es, 0, reverse) == 0
    ensures Below(es, n, reverse) == |es|
    decreases |es|
  {
    if |es| > 0 {
      var init := es[..|es| - 1];
      assert AllInRange(init, n) by {
        forall i | 0 <= i < |init| ensures EdgeInRange(init[i], n) {
          assert init[i] == es[i];
        }
      }
      assert EdgeInRange(es[|es| - 1], n);
      BelowEnds(init, n, reverse);
    }
  }

  /** The run of `k` over a prefix of the input is a prefix of the full run. */
  lemma {:induction false} RunPrefix(es: seq<Edge>, i: nat, k: int, reverse: bool)
    requires i <= |es|
    ensures Run(es[..i], k, reverse) <= Run(es, k, reverse)
    decreases |es|
  {
    if i < |es| {
      var init := es[..|es| - 1];
      assert es[..i] == init[..i];
      RunPrefix(init, i, k, reverse);
    } else {
      assert es[..i] == es;
    }
  }

  /** Extending the input by one edge extends the run of its key by its value. */
  lemma RunExtend(es: seq<Edge>, i: nat, k: int, reverse: bool)
    requires i < |es|
    ensures Run(es[..i + 1], k, reverse)
      == Run(es[..i], k, reverse) + (if Key(es[i], reverse) == k then [Value(es[i], reverse)] else [])
  {
    assert es[..i + 1][..i] == es[..i];
  }

  /** Every edge's value appears in the run of its key. */
  lemma {:induction false} RunComplete(es: seq<Edge>, i: nat, reverse: bool)
    requires i < |es|
    ensures Value(es[i], reverse) in Run(es, Key(es[i], reverse), reverse)
    decreases |es|
  {
    if i < |es| - 1 {
      RunComplete(es[..|es| - 1], i, reverse);
    }
  }

  /** Every value in the run of `k` comes from an edge keyed `k`. */
  lemma {:induction false} RunSound(es: seq<Edge>, k: int, x: int, reverse: bool)
    requires x in Run(es, k, reverse)
    ensures exists i :: 0 <= i < |es| && Key(es[i], reverse) == k && Value(es[i], reverse) == x
    decreases |es|
  {
    var init := es[..|es| - 1];
    if x in Run(init, k, reverse) {
      RunSound(init, k, x, reverse);
      var i :| 0 <= i < |init| && Key(init[i], reverse) == k && Value(init[i], reverse) == x;
      assert es[i] == init[i];
    } else {
      assert Key(es[|es| - 1], reverse) == k && Value(es[|es| - 1], reverse) == x;
    }
  }

  /** What a successful build produces from `es`: the reference offsets, and
      in run `k` the values of the edges keyed `k` in input order. */
  predicate Represents(c: Csr, es: seq<Edge>, numNodes: nat, reverse: bool)
  {
    && AllInRange(es, numNodes)
    && c.nNodes as int == numNodes
    && c.nEdges as int == |es|
    && c.rowPtr == Offsets(es, numNodes, reverse)
    && |c.colIdx| == |es|
    && forall k :: 0 <= k < numNodes ==> c.colIdx[c.rowPtr[k]..c.rowPtr[k + 1]] == Run(es, k, reverse)
  }

  /** Every value in a run is a node id when every edge is in range. */
  lemma {:induction false} RunInRange(es: seq<Edge>, n: nat, k: int, reverse: bool)
    requires AllInRange(es, n)
    ensures forall x :: x in Run(es, k, reverse) ==> 0 <= x < n
    decreases |es|
  {
    if |es| > 0 {
      var init := es[..|es| - 1];
      assert AllInRange(init, n) by {
        forall i | 0 <= i < |init| ensures EdgeInRange(init[i], n) {
          assert init[i] == es[i];
        }
      }
      assert EdgeInRange(es[|es| - 1], n);
      RunInRange(init, n, k, reverse);
    }
  }

  /** The column array up to the offset of node `m` is the runs of nodes
      `0 .. m-1`, one after the other. */
  lemma {:induction false} ColIdxPrefix(c: Csr, es: seq<Edge>, n: nat, reverse: bool, m: nat)
    requires Represents(c, es, n, reverse)
    requires m <= n
    ensures c.colIdx[..c.rowPtr[m]] == RunsUpTo(es, m, reverse)
  {
    if m > 0 {
      ColIdxPrefix(c, es, n, reverse, m - 1);
      var lo, hi := c.rowPtr[m - 1], c.rowPtr[m];
      assert 0 <= lo <= hi <= |c.colIdx|;
      var before, run := c.colIdx[..lo], c.colIdx[lo..hi];
      assert before == RunsUpTo(es, m - 1, reverse);
      assert run == Run(es, m - 1, reverse);
      assert c.colIdx[..hi] == before + run;
    }
  }

  /** The column array is exactly the runs of all nodes laid end to end: a
      successful build leaves no slot unwritten. */
  lemma ColIdxIsRuns(c: Csr, es: seq<Edge>, n: nat, reverse: bool)
    requires Represents(c, es, n, reverse)
    ensures c.colIdx == RunsUpTo(es, n, reverse)
  {
    ColIdxPrefix(c, es, n, reverse, n);
    assert c.colIdx[..c.rowPtr[n]] == c.colIdx;
  }

  lemma {:induction false} RunsUpToInRange(es: seq<Edge>, n: nat, m: nat, reverse: bool)
    requires AllInRange(es, n)
    ensures forall x :: x in RunsUpTo(es, m, reverse) ==> 0 <= x < n
  {
    if m > 0 {
      RunsUpToInRange(es, n, m - 1, reverse);
      RunInRange(es, n, m - 1, reverse);
    }
  }

  /** A built CSR satisfies every invariant of a valid instance. */
  lemma RepresentsWellFormed(c: Csr, es: seq<Edge>, n: nat, reverse: bool)
    requires Represents(c, es, n, reverse)
    ensures WellFormed(c)
  {
    ColIdxIsRuns(c, es, n, reverse);
    RunsUpToInRange(es, n, n, reverse);
    assert forall j :: 0 <= j < |c.colIdx| ==> c.colIdx[j] in RunsUpTo(es, n, reverse);
  }
}
