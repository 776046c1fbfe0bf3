/**
 * `sortChunkArray` (src/ChunkModel.cpp): repeated bubble passes over the
 * record vector that put the data nodes into non-increasing version order
 * while every other record keeps its slot.
 */
module ChunkOrder {
  import opened ChunkModel
  import Arith

  /** Slot q holds the data node that follows the one in slot p. */
  ghost predicate NextData(s: seq<Chunk>, p: int, q: int)
  {
    && 0 <= p < q < |s|
    && s[p].DataNode? && s[q].DataNode?
    && forall m :: p < m < q ==> !s[m].DataNode?
  }

  /** Every data node has a version at least that of every later data node. */
  ghost predicate DataSorted(s: seq<Chunk>)
  {
    forall p, q :: 0 <= p < q < |s| && s[p].DataNode? && s[q].DataNode? ==>
      s[p].version >= s[q].version
  }

  /** The same, required only of neighbouring data nodes. */
  ghost predicate AdjacentDataSorted(s: seq<Chunk>)
  {
    forall p, q :: NextData(s, p, q) ==> s[p].version >= s[q].version
  }

  /** The data nodes of s that carry version v, in their order in s. */
  function DataWithVersion(s: seq<Chunk>, v: nat): seq<Chunk>
  {
    if |s| == 0 then []
    else DataWithVersion(s[..|s| - 1], v) +
         (if s[|s| - 1].DataNode? && s[|s| - 1].version == v then [s[|s| - 1]] else [])
  }

  /**
   * t is s with its data nodes reordered stably: every slot keeps its kind,
   * every other record keeps its slot, nothing is added or lost, and the data
   * nodes of any one version keep their relative order.
   */
  ghost predicate StableReorder(s: seq<Chunk>, t: seq<Chunk>)
  {
    && |s| == |t|
    && (forall k :: 0 <= k < |s| ==> t[k].Type() == s[k].Type())
    && (forall k :: 0 <= k < |s| && !s[k].DataNode? ==> t[k] == s[k])
    && multiset(t) == multiset(s)
    && forall v :: DataWithVersion(t, v) == DataWithVersion(s, v)
  }

  /** The termination measure: the sum of slot times version over data nodes. */
  function Weight(s: seq<Chunk>): nat
  {
    if |s| == 0 then 0 else Weight(s[..|s| - 1]) + Term(|s| - 1, s[|s| - 1])
  }

  function Term(k: nat, c: Chunk): nat
  {
    if c.DataNode? then k * c.version else 0
  }

  lemma {:induction false} DataWithVersionAppend(a: seq<Chunk>, b: seq<Chunk>, v: nat)
    ensures DataWithVersion(a + b, v) == DataWithVersion(a, v) + DataWithVersion(b, v)
    decreases |b|
  {
    if |b| == 0 {
      assert a + b == a;
    } else {
      var b' := b[..|b| - 1];
      assert (a + b)[..|a + b| - 1] == a + b';
      DataWithVersionAppend(a, b', v);
    }
  }

  lemma {:induction false} DataWithVersionNoData(s: seq<Chunk>, v: nat)
    requires forall m :: 0 <= m < |s| ==> !s[m].DataNode?
    ensures DataWithVersion(s, v) == []
    decreases |s|
  {
    if |s| > 0 {
      DataWithVersionNoData(s[..|s| - 1], v);
    }
  }

  /** Replacing one slot changes the weight by the difference of its terms. */
  lemma {:induction false} WeightUpdate(s: seq<Chunk>, k: nat, c: Chunk)
    requires k < |s|
    ensures Weight(s[k := c]) + Term(k, s[k]) == Weight(s) + Term(k, c)
    decreases |s|
  {
    var n := |s| - 1;
    if k < n {
      WeightUpdate(s[..n], k, c);
      assert s[k := c][..n] == s[..n][k := c];
    } else {
      assert s[k := c][..n] == s[..n];
    }
  }

  /**
   * Swapping a data node with the next data node when the latter has the
   * higher version is a stable reorder that lowers the weight.
   */
  lemma SwapStep(s: seq<Chunk>, i: nat, j: nat)
    requires NextData(s, i, j) && s[i].version < s[j].version
    ensures StableReorder(s, s[i := s[j]][j := s[i]])
    ensures Weight(s[i := s[j]][j := s[i]]) < Weight(s)
  {
    var t := s[i := s[j]][j := s[i]];
    forall v ensures DataWithVersion(t, v) == DataWithVersion(s, v)
    {
      SwapKeepsVersionOrder(s, i, j, v);
    }
    SwapLowersWeight(s, i, j);
  }

  lemma SwapKeepsVersionOrder(s: seq<Chunk>, i: nat, j: nat, v: nat)
    requires NextData(s, i, j) && s[i].version != s[j].version
    ensures DataWithVersion(s[i := s[j]][j := s[i]], v) == DataWithVersion(s, v)
  {
    var pre, mid, post := s[..i], s[i + 1..j], s[j + 1..];
    SwapShape(s, i, j);
    DataWithVersionSplit(pre, s[i], mid, s[j], post, v);
    DataWithVersionSplit(pre, s[j], mid, s[i], post, v);
    DataWithVersionNoData(mid, v);
    assert DataWithVersion([s[i]], v) == [] || DataWithVersion([s[j]], v) == [];
  }

  /** s and s with slots i and j swapped, cut at those slots. */
  lemma SwapShape(s: seq<Chunk>, i: nat, j: nat)
    requires i < j < |s|
    ensures s == s[..i] + [s[i]] + s[i + 1..j] + [s[j]] + s[j + 1..]
    ensures s[i := s[j]][j := s[i]] == s[..i] + [s[j]] + s[i + 1..j] + [s[i]] + s[j + 1..]
  {
  }

  /** The version-v data nodes of a five-part sequence, part by part. */
  lemma DataWithVersionSplit(a: seq<Chunk>, x: Chunk, m: seq<Chunk>, y: Chunk, p: seq<Chunk>, v: nat)
    ensures DataWithVersion(a + [x] + m + [y] + p, v) ==
            DataWithVersion(a, v) + DataWithVersion([x], v) + DataWithVersion(m, v) +
            DataWithVersion([y], v) + DataWithVersion(p, v)
  {
    DataWithVersionAppend(a + [x] + m + [y], p, v);
    DataWithVersionAppend(a + [x] + m, [y], v);
    DataWithVersionAppend(a + [x], m, v);
    DataWithVersionAppend(a, [x], v);
  }

  lemma SwapLowersWeight(s: seq<Chunk>, i: nat, j: nat)
    requires i < j < |s| && s[i].DataNode? && s[j].DataNode?
    requires s[i].version < s[j].version
    ensures Weight(s[i := s[j]][j := s[i]]) < Weight(s)
  {
    var u := s[i := s[j]];
    WeightUpdate(s, i, s[j]);
    WeightUpdate(u, j, s[i]);
    assert Term(i, s[i]) == i * s[i].version && Term(i, s[j]) == i * s[j].version;
    assert Term(j, s[i]) == j * s[i].version && Term(j, s[j]) == j * s[j].version;
    RearrangementLowers(i, j, s[i].version, s[j].version);
  }

  /** Pairing the larger factor with the smaller slot lowers the sum. */
  lemma RearrangementLowers(i: nat, j: nat, vi: nat, vj: nat)
    requires i < j && vi < vj
    ensures i * vj + j * vi < i * vi + j * vj
  {
    var d, e := j - i, vj - vi;
    assert d * e > 0 by {
      Arith.MulMonotone(1, e, d);
    }
    assert i * vi + j * vj - (i * vj + j * vi) == d * e;
  }

  lemma NextDataUnique(s: seq<Chunk>, p: int, q1: int, q2: int)
    requires NextData(s, p, q1) && NextData(s, p, q2)
    ensures q1 == q2
  {
  }

  lemma StableReorderTrans(a: seq<Chunk>, b: seq<Chunk>, c: seq<Chunk>)
    requires StableReorder(a, b) && StableReorder(b, c)
    ensures StableReorder(a, c)
  {
  }

  /** Order between neighbouring data nodes gives order between all of them. */
  lemma {:induction false} AdjacentSortedIsSorted(s: seq<Chunk>)
    requires AdjacentDataSorted(s)
    ensures DataSorted(s)
  {
    forall p, q | 0 <= p < q < |s| && s[p].DataNode? && s[q].DataNode?
      ensures s[p].version >= s[q].version
    {
      ChainSorted(s, p, q);
    }
  }

  lemma {:induction false} ChainSorted(s: seq<Chunk>, p: nat, q: nat)
    requires AdjacentDataSorted(s)
    requires p < q < |s| && s[p].DataNode? && s[q].DataNode?
    ensures s[p].version >= s[q].version
    decreases q - p
  {
    if exists m :: p < m < q && s[m].DataNode? {
      var m :| p < m < q && s[m].DataNode?;
      ChainSorted(s, p, m);
      ChainSorted(s, m, q);
    } else {
      assert NextData(s, p, q);
    }
  }

  /** Neighbouring data nodes ordered before slot i, and at slot i, are ordered before slot i + 1. */
  lemma SortedUpToNext(s: seq<Chunk>, i: nat, j: nat)
    requires NextData(s, i, j) && s[i].version >= s[j].version
    requires forall p, q :: p < i && NextData(s, p, q) ==> s[p].version >= s[q].version
    ensures forall p, q :: p < i + 1 && NextData(s, p, q) ==> s[p].version >= s[q].version
  {
    forall p, q | p < i + 1 && NextData(s, p, q)
      ensures s[p].version >= s[q].version
    {
      if p == i {
        NextDataUnique(s, i, j, q);
      }
    }
  }

  /**
   * One pass of the do-while body: for every data node, find the next data
   * node and swap the two when the first has the lower version.
   */
  method BubblePass(a: array<Chunk>) returns (swapDone: bool)
    modifies a
    ensures StableReorder(old(a[..]), a[..])
    ensures swapDone ==> Weight(a[..]) < Weight(old(a[..]))
    ensures !swapDone ==> a[..] == old(a[..]) && AdjacentDataSorted(a[..])
  {
    swapDone := false;
    var i := 0;
    while i < a.Length - 1
      invariant 0 <= i <= a.Length
      invariant StableReorder(old(a[..]), a[..])
      invariant swapDone ==> Weight(a[..]) < Weight(old(a[..]))
      invariant !swapDone ==> a[..] == old(a[..])
      invariant !swapDone ==> forall p, q :: p < i && NextData(a[..], p, q) ==>
                                a[p].version >= a[q].version
    {
      if a[i].DataNode? {
        var j := i + 1;
        while j < a.Length && !a[j].DataNode?
          invariant i < j <= a.Length
          invariant forall m :: i < m < j ==> !a[m].DataNode?
        {
          j := j + 1;
        }
        if j < a.Length {
          if a[i].version < a[j].version {
            ghost var before := a[..];
            assert NextData(before, i, j);
            SwapStep(before, i, j);
            a[i], a[j] := a[j], a[i];
            assert a[..] == before[i := before[j]][j := before[i]];
            StableReorderTrans(old(a[..]), before, a[..]);
            swapDone := true;
          } else if !swapDone {
            assert NextData(a[..], i, j);
            SortedUpToNext(a[..], i, j);
          }
        }
      }
      i := i + 1;
    }
  }

  /**
   * `sortChunkArray`: passes are repeated until one makes no swap. The data
   * nodes end in non-increasing version order; the reorder is stable and
   * leaves every other record in its slot.
   */
  method SortChunkArray(a: array<Chunk>)
    modifies a
    ensures StableReorder(old(a[..]), a[..])
    ensures DataSorted(a[..])
  {
    var swapDone := true;
    while swapDone
      invariant StableReorder(old(a[..]), a[..])
      invariant !swapDone ==> AdjacentDataSorted(a[..])
      decreases Weight(a[..]), swapDone
    {
      ghost var before := a[..];
      swapDone := BubblePass(a);
      StableReorderTrans(old(a[..]), before, a[..]);
    }
    AdjacentSortedIsSorted(a[..]);
  }
}
