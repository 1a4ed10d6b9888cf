/** NewCSR: validation, then the three passes of the counting sort. The passes
    are separate methods here so that each carries its own loop invariants; in
    the source they are consecutive blocks of one function. */
module Build {
  import opened Wrappers
  import opened Graph
  import opened Grouping

  /** Sum of a sequence, accumulated from the left. */
  function Sum(s: seq<int>): int
  {
    if |s| == 0 then 0 else Sum(s[..|s| - 1]) + s[|s| - 1]
  }

  /** Count pass: the number of edges keyed `k` lands in slot `k + 1`;
      slot 0 stays 0. */
  method CountPass(es: seq<Edge>, numNodes: nat, reverse: bool) returns (counts: seq<int>)
    requires AllInRange(es, numNodes)
    ensures |counts| == numNodes + 1
    ensures counts[0] == 0
    ensures forall k :: 0 <= k < numNodes ==> counts[k + 1] == |Run(es, k, reverse)|
  {
    var a := new int[numNodes + 1](_ => 0);
    var i := 0;
    while i < |es|
      invariant 0 <= i <= |es|
      invariant a[0] == 0
      invariant forall k :: 0 <= k < numNodes ==> a[k + 1] == |Run(es[..i], k, reverse)|
    {
      var key := Key(es[i], reverse);
      assert EdgeInRange(es[i], numNodes);
      ghost var done, next := es[..i], es[..i + 1];
      forall k | 0 <= k < numNodes
        ensures Run(next, k, reverse)
          == Run(done, k, reverse) + (if key == k then [Value(es[i], reverse)] else [])
      {
        RunExtend(es, i, k, reverse);
      }
      a[key + 1] := a[key + 1] + 1;
      assert forall k :: 0 <= k < numNodes ==> a[k + 1] == |Run(next, k, reverse)|;
      i := i + 1;
    }
    assert es[..i] == es;
    counts := a[..];
  }

  /** Prefix-sum pass, in place and left to right: slot `k` ends up holding
      the sum of the original slots `0..k`. */
  method PrefixSum(counts: seq<int>) returns (offsets: seq<int>)
    ensures |offsets| == |counts|
    ensures forall k :: 0 <= k < |counts| ==> offsets[k] == Sum(counts[..k + 1])
  {
    var a := new int[|counts|](k requires 0 <= k < |counts| => counts[k]);
    if |counts| > 0 {
      assert counts[..1][..0] == [];
    }
    var i := 0;
    while i < |counts| - 1
      invariant 0 <= i <= |counts|
      invariant forall k :: 0 <= k <= i && k < |counts| ==> a[k] == Sum(counts[..k + 1])
      invariant forall k :: i < k < |counts| ==> a[k] == counts[k]
    {
      assert counts[..i + 2][..i + 1] == counts[..i + 1];
      a[i + 1] := a[i + 1] + a[i];
      i := i + 1;
    }
    offsets := a[..];
  }

  /** Slots `rowPtr[k] .. rowPtr[k] + |run|` of `col` hold the run of `k`
      over the edges placed so far. */
  ghost predicate Filled(col: seq<int>, rowPtr: seq<int>, done: seq<Edge>, numNodes: nat, reverse: bool)
  {
    && |rowPtr| == numNodes + 1
    && forall k, j :: 0 <= k < numNodes && 0 <= j < |Run(done, k, reverse)| ==>
         SlotHolds(col, rowPtr, done, k, j, reverse)
  }

  /** Slot `j` of the run of `k` is inside `col` and holds the `j`-th value of that run. */
  ghost predicate SlotHolds(col: seq<int>, rowPtr: seq<int>, done: seq<Edge>, k: int, j: int, reverse: bool)
  {
    && 0 <= k < |rowPtr|
    && 0 <= j < |Run(done, k, reverse)|
    && 0 <= rowPtr[k] + j < |col|
    && col[rowPtr[k] + j] == Run(done, k, reverse)[j]
  }

  /** The cursor of `k` sits just past the values of `k` placed so far. */
  ghost predicate Cursors(pos: seq<int>, rowPtr: seq<int>, done: seq<Edge>, numNodes: nat, reverse: bool)
  {
    && |pos| == numNodes
    && |rowPtr| == numNodes + 1
    && forall k :: 0 <= k < numNodes ==> pos[k] == rowPtr[k] + |Run(done, k, reverse)|
  }

  /** One iteration of the placement loop keeps both invariants and writes
      inside the column array. */
  lemma PlaceStep(es: seq<Edge>, numNodes: nat, reverse: bool, rowPtr: seq<int>, i: nat, col: seq<int>, pos: seq<int>)
    requires AllInRange(es, numNodes)
    requires rowPtr == Offsets(es, numNodes, reverse)
    requires i < |es| && |col| == |es|
    requires Filled(col, rowPtr, es[..i], numNodes, reverse)
    requires Cursors(pos, rowPtr, es[..i], numNodes, reverse)
    ensures 0 <= Key(es[i], reverse) < numNodes
    ensures 0 <= pos[Key(es[i], reverse)] < |col|
    ensures Filled(col[pos[Key(es[i], reverse)] := Value(es[i], reverse)], rowPtr, es[..i + 1], numNodes, reverse)
    ensures Cursors(pos[Key(es[i], reverse) := pos[Key(es[i], reverse)] + 1], rowPtr, es[..i + 1], numNodes, reverse)
  {
    var key, v := Key(es[i], reverse), Value(es[i], reverse);
    WriteInsideRun(es, numNodes, reverse, rowPtr, i, pos);
    var p := pos[key];
    var next := es[..i + 1];
    var pos' := pos[key := p + 1];
    forall k | 0 <= k < numNodes
      ensures pos'[k] == rowPtr[k] + |Run(next, k, reverse)|
    {
      RunExtend(es, i, k, reverse);
    }
    var col' := col[p := v];
    forall k, j | 0 <= k < numNodes && 0 <= j < |Run(next, k, reverse)|
      ensures SlotHolds(col', rowPtr, next, k, j, reverse)
    {
      SlotAfterWrite(es, numNodes, reverse, rowPtr, i, col, pos, k, j);
    }
    assert Filled(col', rowPtr, next, numNodes, reverse);
  }

  /** The cursor of the current edge's key points inside that key's run. */
  lemma WriteInsideRun(es: seq<Edge>, numNodes: nat, reverse: bool, rowPtr: seq<int>, i: nat, pos: seq<int>)
    requires AllInRange(es, numNodes)
    requires rowPtr == Offsets(es, numNodes, reverse)
    requires i < |es|
    requires Cursors(pos, rowPtr, es[..i], numNodes, reverse)
    ensures 0 <= Key(es[i], reverse) < numNodes
    ensures rowPtr[Key(es[i], reverse)] <= pos[Key(es[i], reverse)] < rowPtr[Key(es[i], reverse) + 1] <= |es|
  {
    var key := Key(es[i], reverse);
    assert EdgeInRange(es[i], numNodes);
    RunExtend(es, i, key, reverse);
    RunPrefix(es, i + 1, key, reverse);
    assert rowPtr[key + 1] - rowPtr[key] == |Run(es, key, reverse)|;
  }

  /** After the write, slot `j` of the run of `k` holds the right value: the
      new slot when it is the one just written, the old content otherwise. */
  lemma SlotAfterWrite(es: seq<Edge>, numNodes: nat, reverse: bool, rowPtr: seq<int>, i: nat,
                       col: seq<int>, pos: seq<int>, k: int, j: int)
    requires AllInRange(es, numNodes)
    requires rowPtr == Offsets(es, numNodes, reverse)
    requires i < |es| && |col| == |es|
    requires Filled(col, rowPtr, es[..i], numNodes, reverse)
    requires Cursors(pos, rowPtr, es[..i], numNodes, reverse)
    requires 0 <= k < numNodes && 0 <= j < |Run(es[..i + 1], k, reverse)|
    ensures 0 <= Key(es[i], reverse) < numNodes
    ensures 0 <= pos[Key(es[i], reverse)] < |col|
    ensures SlotHolds(col[pos[Key(es[i], reverse)] := Value(es[i], reverse)], rowPtr, es[..i + 1], k, j, reverse)
  {
    var key, v := Key(es[i], reverse), Value(es[i], reverse);
    WriteInsideRun(es, numNodes, reverse, rowPtr, i, pos);
    var p := pos[key];
    var run, run' := Run(es[..i], k, reverse), Run(es[..i + 1], k, reverse);
    RunExtend(es, i, k, reverse);
    RunPrefix(es, i, k, reverse);
    if k != key {
      assert run' == run;
      SlotOutsideRun(rowPtr, numNodes, key, k, p, j);
      assert SlotHolds(col, rowPtr, es[..i], k, j, reverse);
    } else if j < |run| {
      assert run'[j] == run[j];
      assert SlotHolds(col, rowPtr, es[..i], k, j, reverse);
    } else {
      assert rowPtr[k] + j == p;
    }
  }

  /** Placement pass: each edge's value goes to the cursor of its key, which
      then advances. Runs come out in input order and each cursor stops at the
      start of the next run. The column slice and the cursor slice are
      sequence values here, each write an update at one index. */
  method PlacePass(es: seq<Edge>, numNodes: nat, reverse: bool, rowPtr: seq<int>)
    returns (colIdx: seq<int>, cursor: seq<int>)
    requires AllInRange(es, numNodes)
    requires rowPtr == Offsets(es, numNodes, reverse)
    ensures |colIdx| == |es|
    ensures forall k :: 0 <= k < numNodes ==> colIdx[rowPtr[k]..rowPtr[k + 1]] == Run(es, k, reverse)
    ensures |cursor| == numNodes
    ensures forall k :: 0 <= k < numNodes ==> cursor[k] == rowPtr[k + 1]
  {
    var col := seq(|es|, _ => 0);
    var pos := rowPtr[..numNodes];
    var i := 0;
    assert forall k :: 0 <= k < numNodes ==> Run(es[..0], k, reverse) == [];
    while i < |es|
      invariant 0 <= i <= |es| && |col| == |es|
      invariant Filled(col, rowPtr, es[..i], numNodes, reverse)
      invariant Cursors(pos, rowPtr, es[..i], numNodes, reverse)
    {
      PlaceStep(es, numNodes, reverse, rowPtr, i, col, pos);
      var key := Key(es[i], reverse);
      col := col[pos[key] := Value(es[i], reverse)];
      pos := pos[key := pos[key] + 1];
      i := i + 1;
    }
    assert es[..i] == es;
    colIdx := col;
    cursor := pos;
    FilledRuns(es, numNodes, reverse, rowPtr, colIdx);
  }

  /** Once every edge is placed, the slices between consecutive offsets are
      exactly the runs. */
  lemma FilledRuns(es: seq<Edge>, numNodes: nat, reverse: bool, rowPtr: seq<int>, col: seq<int>)
    requires AllInRange(es, numNodes)
    requires rowPtr == Offsets(es, numNodes, reverse)
    requires |col| == |es|
    requires Filled(col, rowPtr, es, numNodes, reverse)
    ensures forall k :: 0 <= k < numNodes ==> col[rowPtr[k]..rowPtr[k + 1]] == Run(es, k, reverse)
  {
    forall k | 0 <= k < numNodes
      ensures col[rowPtr[k]..rowPtr[k + 1]] == Run(es, k, reverse)
    {
      assert rowPtr[k + 1] - rowPtr[k] == |Run(es, k, reverse)|;
      forall j | 0 <= j < |Run(es, k, reverse)|
        ensures col[rowPtr[k] + j] == Run(es, k, reverse)[j]
      {
        assert SlotHolds(col, rowPtr, es, k, j, reverse);
      }
    }
  }

  /** A slot inside the run of `key` lies outside the run of every other node. */
  lemma SlotOutsideRun(rowPtr: seq<int>, numNodes: nat, key: int, k: int, p: int, j: int)
    requires |rowPtr| == numNodes + 1
    requires forall a, b :: 0 <= a <= b <= numNodes ==> rowPtr[a] <= rowPtr[b]
    requires 0 <= key < numNodes && 0 <= k < numNodes && k != key
    requires rowPtr[key] <= p < rowPtr[key + 1]
    requires 0 <= j && rowPtr[k] + j < rowPtr[k + 1]
    ensures rowPtr[k] + j != p
  {
  }


  /** Counts turned into prefix sums are the reference offsets. */
  lemma {:induction false} PrefixOfCounts(es: seq<Edge>, numNodes: nat, reverse: bool, counts: seq<int>, m: nat)
    requires AllInRange(es, numNodes)
    requires |counts| == numNodes + 1 && counts[0] == 0
    requires forall k :: 0 <= k < numNodes ==> counts[k + 1] == |Run(es, k, reverse)|
    requires m <= numNodes
    ensures Sum(counts[..m + 1]) == Offsets(es, numNodes, reverse)[m]
  {
    if m == 0 {
      assert counts[..1][..0] == [];
    } else {
      PrefixOfCounts(es, numNodes, reverse, counts, m - 1);
      assert counts[..m + 1][..m] == counts[..m];
      var off := Offsets(es, numNodes, reverse);
      assert off[m] - off[m - 1] == |Run(es, m - 1, reverse)|;
    }
  }

  /** The builder. The node-count check comes first, then validation, whose
      error is returned unchanged; only then are the arrays built. */
  method NewCSR(edges: Option<seq<Edge>>, numNodes: int32, reverse: bool) returns (r: Result<Csr, CsrError>)
    requires numNodes as int < 0x7fff_ffff
    requires edges.Some? ==> |edges.value| < 0x8000_0000
    ensures numNodes < 0 ==> r == Failure(InvalidNumNodes)
    ensures numNodes >= 0 ==> (r.Success? <==> ValidateEdges(edges, numNodes).Pass?)
    ensures numNodes >= 0 && r.Failure? ==> r.error == ValidateEdges(edges, numNodes).error
    ensures r.Success? ==> edges.Some? && Represents(r.value, edges.value, numNodes as int, reverse)
    ensures r.Success? ==> WellFormed(r.value)
  {
    if numNodes < 0 {
      return Failure(InvalidNumNodes);
    }
    var v := ValidateEdges(edges, numNodes);
    if v.Fail? {
      return Failure(v.error);
    }
    var es := edges.value;
    var n := numNodes as int;
    var counts := CountPass(es, n, reverse);
    var rowPtr := PrefixSum(counts);
    forall m | 0 <= m <= n ensures rowPtr[m] == Offsets(es, n, reverse)[m] {
      PrefixOfCounts(es, n, reverse, counts, m);
    }
    assert rowPtr == Offsets(es, n, reverse);
    var colIdx, cursor := PlacePass(es, n, reverse, rowPtr);
    r := Success(Csr(rowPtr, colIdx, numNodes, |es| as int32));
    RepresentsWellFormed(r.value, es, n, reverse);
  }
}
