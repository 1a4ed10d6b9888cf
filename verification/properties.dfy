/** What a built CSR promises its readers: the invariants of a valid
    instance, the neighbour runs, degrees, and the (row, value) pairs, each
    stated against the input edge list. */
module CsrProperties {
  import opened Graph
  import opened Grouping

  /** The grouping endpoints of the input, in input order. */
  function Keys(es: seq<Edge>, reverse: bool): seq<int>
  {
    seq(|es|, i requires 0 <= i < |es| => Key(es[i], reverse))
  }

  /** The (key, value) pair of every input edge, in input order. */
  function EdgePairs(es: seq<Edge>, reverse: bool): seq<(int, int)>
  {
    seq(|es|, i requires 0 <= i < |es| => (Key(es[i], reverse), Value(es[i], reverse)))
  }

  /** Each value of `s` paired with the row `k` that owns it. */
  function Tag(k: int, s: seq<int>): seq<(int, int)>
  {
    seq(|s|, j requires 0 <= j < |s| => (k, s[j]))
  }

  /** The (row, value) pairs recoverable from the first `m` rows of a CSR. */
  function RowPairs(c: Csr, m: nat): seq<(int, int)>
    requires WellFormed(c) && m <= c.nNodes as int
  {
    if m == 0 then [] else RowPairs(c, m - 1) + Tag(m - 1, Neighbors(c, (m - 1) as int32))
  }

  /** The (key, value) pairs of the runs of nodes `0 .. m-1`. */
  function GroupedPairs(es: seq<Edge>, m: nat, reverse: bool): seq<(int, int)>
  {
    if m == 0 then [] else GroupedPairs(es, m - 1, reverse) + Tag(m - 1, Run(es, m - 1, reverse))
  }

  /** The neighbours of `node` are the value endpoints of the edges keyed
      `node`, in input order. */
  lemma NeighborsAreRun(c: Csr, es: seq<Edge>, n: nat, reverse: bool, node: int32)
    requires Represents(c, es, n, reverse)
    requires 0 <= node as int < n
    ensures WellFormed(c)
    ensures Neighbors(c, node) == Run(es, node as int, reverse)
  {
    RepresentsWellFormed(c, es, n, reverse);
  }

  /** `x` is a neighbour of `node` exactly when some input edge is keyed
      `node` and has value `x`. */
  lemma NeighborsExactly(c: Csr, es: seq<Edge>, n: nat, reverse: bool, node: int32, x: int)
    requires Represents(c, es, n, reverse)
    requires 0 <= node as int < n
    ensures WellFormed(c)
    ensures x in Neighbors(c, node) <==>
      exists i :: 0 <= i < |es| && Key(es[i], reverse) == node as int && Value(es[i], reverse) == x
  {
    NeighborsAreRun(c, es, n, reverse, node);
    if x in Neighbors(c, node) {
      RunSound(es, node as int, x, reverse);
    }
    if exists i :: 0 <= i < |es| && Key(es[i], reverse) == node as int && Value(es[i], reverse) == x {
      var i :| 0 <= i < |es| && Key(es[i], reverse) == node as int && Value(es[i], reverse) == x;
      RunComplete(es, i, reverse);
    }
  }

  /** Every input edge is found again: forward, its target among the
      neighbours of its source; reverse, its source among those of its target. */
  lemma EdgeFound(c: Csr, es: seq<Edge>, n: nat, reverse: bool, i: nat)
    requires Represents(c, es, n, reverse)
    requires i < |es|
    ensures WellFormed(c)
    ensures !reverse ==> es[i].target as int in Neighbors(c, es[i].source)
    ensures reverse ==> es[i].source as int in Neighbors(c, es[i].target)
  {
    assert EdgeInRange(es[i], n);
    var node := if reverse then es[i].target else es[i].source;
    NeighborsAreRun(c, es, n, reverse, node);
    RunComplete(es, i, reverse);
  }

  /** The run of `k` is as long as `k` occurs among the keys. */
  lemma {:induction false} RunLengthIsKeyCount(es: seq<Edge>, k: int, reverse: bool)
    ensures |Run(es, k, reverse)| == multiset(Keys(es, reverse))[k]
    decreases |es|
  {
    if |es| > 0 {
      var init := es[..|es| - 1];
      RunLengthIsKeyCount(init, k, reverse);
      assert Keys(es, reverse) == Keys(init, reverse) + [Key(es[|es| - 1], reverse)];
    }
  }

  /** Degree: the gap between consecutive row offsets is the number of edges
      whose grouping endpoint is that node. */
  lemma Degree(c: Csr, es: seq<Edge>, n: nat, reverse: bool, k: nat)
    requires Represents(c, es, n, reverse)
    requires k < n
    ensures c.rowPtr[k + 1] - c.rowPtr[k] == multiset(Keys(es, reverse))[k]
  {
    RunLengthIsKeyCount(es, k, reverse);
  }

  /** A pair occurs in the tagged sequence as often as its value occurs in
      `s`, if it carries the tag, and never otherwise. */
  lemma {:induction false} TagCount(k: int, s: seq<int>, p: (int, int))
    ensures multiset(Tag(k, s))[p] == if p.0 == k then multiset(s)[p.1] else 0
    decreases |s|
  {
    if |s| > 0 {
      var init := s[..|s| - 1];
      TagCount(k, init, p);
      assert Tag(k, s) == Tag(k, init) + [(k, s[|s| - 1])];
      assert s == init + [s[|s| - 1]];
    }
  }

  /** A pair `(k, v)` occurs in the grouped pairs of nodes `0 .. m-1` as often
      as `v` occurs in the run of `k`, if `k` is one of those nodes. */
  lemma {:induction false} GroupedCount(es: seq<Edge>, m: nat, reverse: bool, p: (int, int))
    ensures multiset(GroupedPairs(es, m, reverse))[p]
      == if 0 <= p.0 < m then multiset(Run(es, p.0, reverse))[p.1] else 0
  {
    if m > 0 {
      var run := Run(es, m - 1, reverse);
      GroupedCount(es, m - 1, reverse, p);
      TagCount(m - 1, run, p);
      var before := GroupedPairs(es, m - 1, reverse);
      assert GroupedPairs(es, m, reverse) == before + Tag(m - 1, run);
      assert multiset(before + Tag(m - 1, run))[p] == multiset(before)[p] + multiset(Tag(m - 1, run))[p];
    }
  }

  /** A pair `(k, v)` occurs among the input's pairs as often as `v` occurs in
      the run of `k`. */
  lemma {:induction false} EdgePairsCount(es: seq<Edge>, reverse: bool, p: (int, int))
    ensures multiset(EdgePairs(es, reverse))[p] == multiset(Run(es, p.0, reverse))[p.1]
    decreases |es|
  {
    if |es| > 0 {
      var init, last := es[..|es| - 1], es[|es| - 1];
      EdgePairsCount(init, reverse, p);
      EdgePairsSnoc(es, reverse);
      var pair := (Key(last, reverse), Value(last, reverse));
      var extra := if pair.0 == p.0 then [pair.1] else [];
      assert Run(es, p.0, reverse) == Run(init, p.0, reverse) + extra;
    }
  }

  /** The pairs of a list are the pairs of all but its last edge, then that edge's pair. */
  lemma EdgePairsSnoc(es: seq<Edge>, reverse: bool)
    requires |es| > 0
    ensures EdgePairs(es, reverse)
      == EdgePairs(es[..|es| - 1], reverse) + [(Key(es[|es| - 1], reverse), Value(es[|es| - 1], reverse))]
  {
  }

  /** No edge is keyed outside `[0, n)`, so those runs are empty. */
  lemma {:induction false} RunOutside(es: seq<Edge>, n: nat, k: int, reverse: bool)
    requires AllInRange(es, n)
    requires k < 0 || n <= k
    ensures Run(es, k, reverse) == []
    decreases |es|
  {
    if |es| > 0 {
      var init := es[..|es| - 1];
      assert AllInRange(init, n) by {
        forall i | 0 <= i < |init| ensures EdgeInRange(init[i], n) {
          assert init[i] == es[i];
        }
      }
      assert EdgeInRange(es[|es| - 1], n);
      RunOutside(init, n, k, reverse);
    }
  }

  /** Grouping the pairs by key loses and invents none of them. */
  lemma GroupedIsPermutation(es: seq<Edge>, n: nat, reverse: bool)
    requires AllInRange(es, n)
    ensures multiset(GroupedPairs(es, n, reverse)) == multiset(EdgePairs(es, reverse))
  {
    forall p: (int, int)
      ensures multiset(GroupedPairs(es, n, reverse))[p] == multiset(EdgePairs(es, reverse))[p]
    {
      GroupedCount(es, n, reverse, p);
      EdgePairsCount(es, reverse, p);
      if p.0 < 0 || n <= p.0 {
        RunOutside(es, n, p.0, reverse);
      }
    }
  }

  lemma {:induction false} RowPairsAreGrouped(c: Csr, es: seq<Edge>, n: nat, reverse: bool, m: nat)
    requires Represents(c, es, n, reverse)
    requires m <= n
    ensures WellFormed(c)
    ensures RowPairs(c, m) == GroupedPairs(es, m, reverse)
  {
    RepresentsWellFormed(c, es, n, reverse);
    if m > 0 {
      RowPairsAreGrouped(c, es, n, reverse, m - 1);
      NeighborsAreRun(c, es, n, reverse, (m - 1) as int32);
    }
  }

  /** The multiset of (row, value) pairs of a built CSR equals the multiset of
      (source, target) pairs of the input forward, (target, source) reverse. */
  lemma PairsPreserved(c: Csr, es: seq<Edge>, n: nat, reverse: bool)
    requires Represents(c, es, n, reverse)
    ensures WellFormed(c)
    ensures multiset(RowPairs(c, n)) == multiset(EdgePairs(es, reverse))
  {
    RowPairsAreGrouped(c, es, n, reverse, n);
    GroupedIsPermutation(es, n, reverse);
  }
}
