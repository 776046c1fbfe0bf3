/**
 * The integer parts of the locality metrics of src/File.cpp, as functions:
 * ceiling divisions behind the page counts, the page walk a sequential read
 * performs, its non-sequential jumps and the per-Linux-page read cost.
 */
module Locality {
  import opened Wrappers
  import opened ChunkModel
  import FlashAddr
  import opened Resolution
  import opened PageLists

  const MaxDataNodeDataSize: nat := 4096
  const DataNodeMetadataSize: nat := 68
  const MaxDataNodeSize: nat := MaxDataNodeDataSize + DataNodeMetadataSize
  const LinuxPageSize: nat := 4096

  /** `a / b`, plus one when the division leaves a remainder. */
  function CeilDiv(a: nat, b: nat): (r: nat)
    requires b > 0
    ensures a <= r * b
    ensures r > 0 ==> (r - 1) * b < a
    ensures r == 0 <==> a == 0
  {
    var q, m := a / b, a % b;
    assert a == q * b + m;
    assert (q + 1) * b == q * b + b;
    q + (if m != 0 then 1 else 0)
  }

  /**
   * `getTheoriticalPageNum`: the flash pages needed when the file is cut
   * into as few maximal data nodes (4096 data bytes + 68 bytes of header) as
   * possible, laid out back to back.
   */
  function TheoreticalPageNum(size: nat, pageSize: nat): (r: nat)
    requires pageSize > 0
    ensures CeilDiv(size, MaxDataNodeSize) * MaxDataNodeSize <= r * pageSize
    ensures r > 0 ==> (r - 1) * pageSize < CeilDiv(size, MaxDataNodeSize) * MaxDataNodeSize
    ensures size <= r * pageSize
    ensures r == 0 <==> size == 0
  {
    var nodes := CeilDiv(size, MaxDataNodeSize);
    CeilDiv(nodes * MaxDataNodeSize, pageSize)
  }

  /** A 100-byte file needs one maximal node, i.e. three 2048-byte pages. */
  lemma TheoreticalPageNumExample()
    ensures TheoreticalPageNum(100, 2048) == 3
  {
    assert CeilDiv(100, MaxDataNodeSize) == 1;
    assert CeilDiv(4164, 2048) == 3;
  }

  /** `getLinuxPagesNum`: the 4096-byte pages a file of `size` bytes spans. */
  function LinuxPagesNum(size: nat): (r: nat)
    requires size > 0
    ensures r >= 1
    ensures (r - 1) * LinuxPageSize < size <= r * LinuxPageSize
  {
    CeilDiv(size, LinuxPageSize)
  }

  // ------------------------------------------------------------ page walk

  /** The pages a node occupies on flash (`getConcernedPagesIndexes`). */
  function NodePages(g: FlashAddr.Geometry, c: Chunk): (r: seq<int>)
    requires FlashAddr.Paged(g) && !c.FreeSpace? && c.flashSize > 0
    ensures |r| >= 1
  {
    PageSpan(g, c.flashOffset, c.flashSize)
  }

  /** Every listed node is a data node whose pages can be computed. */
  ghost predicate Walkable(g: FlashAddr.Geometry, chunks: seq<Chunk>, rs: seq<nat>)
  {
    FlashAddr.Paged(g) && DataIndices(chunks, rs) &&
    forall q :: 0 <= q < |rs| ==> chunks[rs[q]].flashSize > 0
  }

  /**
   * `File::getConcernedPagesIndexes`: the pages of each listed node, in
   * order, each kept once.
   */
  function ConcernedPages(g: FlashAddr.Geometry, chunks: seq<Chunk>, vs: seq<nat>): (r: seq<int>)
    requires Walkable(g, chunks, vs)
    ensures NoDuplicates(r)
    decreases |vs|
  {
    if |vs| == 0 then []
    else AddAllAbsent(ConcernedPages(g, chunks, vs[..|vs| - 1]), NodePages(g, chunks[vs[|vs| - 1]]))
  }

  /** The concerned pages of the first i + 1 nodes extend those of the first i by node i's pages. */
  lemma ConcernedPagesSnoc(g: FlashAddr.Geometry, chunks: seq<Chunk>, vs: seq<nat>, i: nat)
    requires Walkable(g, chunks, vs) && i < |vs|
    ensures Walkable(g, chunks, vs[..i]) && Walkable(g, chunks, vs[..i + 1])
    ensures ConcernedPages(g, chunks, vs[..i + 1]) ==
            AddAllAbsent(ConcernedPages(g, chunks, vs[..i]), NodePages(g, chunks[vs[i]]))
  {
    assert vs[..i + 1][..i] == vs[..i];
  }

  /** A page is concerned exactly when one of the listed nodes occupies it. */
  lemma {:induction false} ConcernedPagesExact(g: FlashAddr.Geometry, chunks: seq<Chunk>, vs: seq<nat>, x: int)
    requires Walkable(g, chunks, vs)
    ensures x in ConcernedPages(g, chunks, vs) <==>
            exists q :: 0 <= q < |vs| && x in NodePages(g, chunks[vs[q]])
    decreases |vs|
  {
    if |vs| > 0 {
      ConcernedPagesExact(g, chunks, vs[..|vs| - 1], x);
      OccupiedSnoc(g, chunks, vs, x);
    }
  }

  /** A page lies in one of the listed nodes exactly when it lies in one of all but the last, or in the last. */
  lemma OccupiedSnoc(g: FlashAddr.Geometry, chunks: seq<Chunk>, rs: seq<nat>, x: int)
    requires Walkable(g, chunks, rs) && |rs| > 0
    ensures var rs' := rs[..|rs| - 1];
            (exists q :: 0 <= q < |rs| && x in NodePages(g, chunks[rs[q]])) <==>
              (exists q :: 0 <= q < |rs'| && x in NodePages(g, chunks[rs'[q]])) ||
              x in NodePages(g, chunks[rs[|rs| - 1]])
  {
    var rs' := rs[..|rs| - 1];
    if exists q :: 0 <= q < |rs| && x in NodePages(g, chunks[rs[q]]) {
      var q :| 0 <= q < |rs| && x in NodePages(g, chunks[rs[q]]);
      if q < |rs| - 1 {
        assert rs'[q] == rs[q];
      }
    }
    if exists q :: 0 <= q < |rs'| && x in NodePages(g, chunks[rs'[q]]) {
      var q :| 0 <= q < |rs'| && x in NodePages(g, chunks[rs'[q]]);
      assert rs[q] == rs'[q];
    }
  }

  /** The pages read so far and the node read last. */
  datatype WalkState = WalkState(pages: seq<int>, prev: Option<nat>)

  /**
   * One offset of the walk in `getContiguousFactor` and
   * `getFlashPagesReadForLinuxPage`: the same node as the previous offset is
   * skipped; a new node's pages are appended, dropping a page equal to the
   * last one read.
   */
  function WalkStep(g: FlashAddr.Geometry, chunks: seq<Chunk>, st: WalkState, k: nat): WalkState
    requires FlashAddr.Paged(g) && k < |chunks| && chunks[k].DataNode? && chunks[k].flashSize > 0
  {
    if st.prev == Some(k) then st
    else WalkState(AppendRun(st.pages, NodePages(g, chunks[k])), Some(k))
  }

  /** The walk over the nodes `rs` that successive offsets resolve to. */
  function Walk(g: FlashAddr.Geometry, chunks: seq<Chunk>, rs: seq<nat>): (st: WalkState)
    requires Walkable(g, chunks, rs)
    ensures NoAdjacentDuplicates(st.pages)
    ensures |rs| == 0 <==> st == WalkState([], None)
    ensures |rs| > 0 ==> st.prev == Some(rs[|rs| - 1]) && |st.pages| > 0
    decreases |rs|
  {
    if |rs| == 0 then WalkState([], None)
    else WalkStep(g, chunks, Walk(g, chunks, rs[..|rs| - 1]), rs[|rs| - 1])
  }

  /** The walk reads exactly the pages of the nodes it visits. */
  lemma {:induction false} WalkPagesExact(g: FlashAddr.Geometry, chunks: seq<Chunk>, rs: seq<nat>, x: int)
    requires Walkable(g, chunks, rs)
    ensures x in Walk(g, chunks, rs).pages <==>
            exists q :: 0 <= q < |rs| && x in NodePages(g, chunks[rs[q]])
    decreases |rs|
  {
    if |rs| > 0 {
      var rs' := rs[..|rs| - 1];
      var k := rs[|rs| - 1];
      var st := Walk(g, chunks, rs');
      assert Walk(g, chunks, rs) == WalkStep(g, chunks, st, k);
      WalkPagesExact(g, chunks, rs', x);
      OccupiedSnoc(g, chunks, rs, x);
      if st.prev == Some(k) {
        if x in NodePages(g, chunks[k]) {
          assert rs'[|rs'| - 1] == k;
        }
      } else {
        AppendRunMembers(st.pages, NodePages(g, chunks[k]), x);
      }
    }
  }

  /** Every offset of [from, to) resolves to a node whose pages can be computed. */
  ghost predicate Readable(g: FlashAddr.Geometry, chunks: seq<Chunk>, nodes: seq<nat>, from: nat, to: nat)
  {
    && FlashAddr.Paged(g) && DataIndices(chunks, nodes) && Resolvable(chunks, nodes, from, to)
    && forall i :: from <= i < to ==> chunks[Resolve(chunks, nodes, i).value].flashSize > 0
  }

  /** The pages read, in order, when the offsets [from, to) are read one by one. */
  function WalkPages(g: FlashAddr.Geometry, chunks: seq<Chunk>, nodes: seq<nat>, from: nat, to: nat): (pages: seq<int>)
    requires from <= to && Readable(g, chunks, nodes, from, to)
    ensures NoAdjacentDuplicates(pages)
    ensures |pages| == 0 <==> from == to
  {
    var rs := Resolutions(chunks, nodes, from, to);
    assert Walkable(g, chunks, rs);
    Walk(g, chunks, rs).pages
  }

  /** The count of consecutive pairs in which the second page does not follow the first. */
  function NonSeqJumps(pages: seq<int>): (n: nat)
    ensures n <= if |pages| == 0 then 0 else |pages| - 1
    ensures n == 0 <==> forall i :: 0 < i < |pages| ==> pages[i] == pages[i - 1] + 1
    decreases |pages|
  {
    if |pages| <= 1 then 0
    else
      var init := pages[..|pages| - 1];
      assert forall i :: 0 <= i < |init| ==> init[i] == pages[i];
      NonSeqJumps(init) + (if pages[|pages| - 1] != pages[|pages| - 2] + 1 then 1 else 0)
  }

  /** The counting loop of `getContiguousFactor`. */
  method CountNonSeqJumps(pages: seq<int>) returns (n: nat)
    ensures n == NonSeqJumps(pages)
  {
    n := 0;
    if |pages| == 0 {
      return;
    }
    for i := 1 to |pages|
      invariant n == NonSeqJumps(pages[..i])
    {
      assert pages[..i + 1][..i] == pages[..i];
      if pages[i] != pages[i - 1] + 1 {
        n := n + 1;
      }
    }
    assert pages[..|pages|] == pages;
  }

  // --------------------------------------------------- per-Linux-page cost

  /**
   * `getFlashPagesReadForLinuxPage`: the page walk over the bytes of the
   * 4096-byte page `index` that lie within the file; empty past the end.
   */
  function FlashPagesRead(g: FlashAddr.Geometry, chunks: seq<Chunk>, nodes: seq<nat>, size: nat, index: nat): (pages: seq<int>)
    requires Readable(g, chunks, nodes, 0, size)
    ensures |pages| == 0 <==> index * LinuxPageSize >= size
    ensures NoAdjacentDuplicates(pages)
  {
    var start := index * LinuxPageSize;
    if start >= size then []
    else
      var end := if start + LinuxPageSize < size then start + LinuxPageSize else size;
      WalkPages(g, chunks, nodes, start, end)
  }

  /** Inside the file, the pages read for a Linux page are the walk over its window. */
  lemma FlashPagesReadWindow(g: FlashAddr.Geometry, chunks: seq<Chunk>, nodes: seq<nat>, size: nat, index: nat)
    requires Readable(g, chunks, nodes, 0, size) && index * LinuxPageSize < size
    ensures var start := index * LinuxPageSize;
            var end := if start + LinuxPageSize < size then start + LinuxPageSize else size;
            && start < end <= size && Readable(g, chunks, nodes, start, end)
            && FlashPagesRead(g, chunks, nodes, size, index) == WalkPages(g, chunks, nodes, start, end)
  {
  }

  /**
   * The cost `printSequentialPerPageReadCost` reports for one page: the pages
   * read, less one when the first is the last page of the previous Linux page
   * (still in the one-page buffer).
   */
  function PageCost(pages: seq<int>, prevLast: int): (c: int)
    requires |pages| > 0
    ensures 0 <= |pages| - 1 <= c <= |pages|
    ensures c == |pages| - 1 <==> pages[0] == prevLast
  {
    |pages| - (if pages[0] == prevLast then 1 else 0)
  }

  /** The last page read for the previous Linux page; -1 before the first. */
  function PrevLastPage(g: FlashAddr.Geometry, chunks: seq<Chunk>, nodes: seq<nat>, size: nat, index: nat): int
    requires Readable(g, chunks, nodes, 0, size) && index * LinuxPageSize <= size
  {
    if index == 0 then -1
    else
      var pages := FlashPagesRead(g, chunks, nodes, size, index - 1);
      assert (index - 1) * LinuxPageSize < size by {
        assert (index - 1) * LinuxPageSize == index * LinuxPageSize - LinuxPageSize;
      }
      pages[|pages| - 1]
  }

  /** The reported cost of every Linux page of a file of `size > 0` bytes. */
  function PerPageCosts(g: FlashAddr.Geometry, chunks: seq<Chunk>, nodes: seq<nat>, size: nat): (costs: seq<int>)
    requires size > 0 && Readable(g, chunks, nodes, 0, size)
    ensures |costs| == LinuxPagesNum(size)
    ensures forall i :: 0 <= i < |costs| ==> costs[i] >= 0
  {
    var n := LinuxPagesNum(size);
    seq(n, i requires 0 <= i < n => PerPageCost(g, chunks, nodes, size, i))
  }

  /** The reported cost of Linux page `index`. */
  function PerPageCost(g: FlashAddr.Geometry, chunks: seq<Chunk>, nodes: seq<nat>, size: nat, index: nat): (c: int)
    requires size > 0 && Readable(g, chunks, nodes, 0, size) && index < LinuxPagesNum(size)
    ensures c >= 0
  {
    LinuxPageBelowSize(size, index);
    PageCost(FlashPagesRead(g, chunks, nodes, size, index), PrevLastPage(g, chunks, nodes, size, index))
  }

  /** Every Linux page below the page count starts inside the file. */
  lemma LinuxPageBelowSize(size: nat, index: nat)
    requires size > 0 && index < LinuxPagesNum(size)
    ensures index * LinuxPageSize < size
  {
    var n := LinuxPagesNum(size);
    assert index <= n - 1;
    assert index * LinuxPageSize <= (n - 1) * LinuxPageSize;
  }

  /** Entry i of the cost list, and the page it hands on to entry i + 1. */
  lemma PerPageCostsAt(g: FlashAddr.Geometry, chunks: seq<Chunk>, nodes: seq<nat>, size: nat, i: nat)
    requires size > 0 && Readable(g, chunks, nodes, 0, size) && i < LinuxPagesNum(size)
    ensures i * LinuxPageSize < size
    ensures var pages := FlashPagesRead(g, chunks, nodes, size, i);
            && |pages| > 0
            && PerPageCost(g, chunks, nodes, size, i) == PageCost(pages, PrevLastPage(g, chunks, nodes, size, i))
            && (i + 1 < LinuxPagesNum(size) ==>
                  (i + 1) * LinuxPageSize < size &&
                  PrevLastPage(g, chunks, nodes, size, i + 1) == pages[|pages| - 1])
  {
    LinuxPageBelowSize(size, i);
    if i + 1 < LinuxPagesNum(size) {
      LinuxPageBelowSize(size, i + 1);
    }
  }

  /** `costs` holds the reported costs of the first |costs| Linux pages. */
  ghost predicate CostsSoFar(g: FlashAddr.Geometry, chunks: seq<Chunk>, nodes: seq<nat>, size: nat, costs: seq<int>)
  {
    && size > 0 && Readable(g, chunks, nodes, 0, size) && |costs| <= LinuxPagesNum(size)
    && forall k :: 0 <= k < |costs| ==> costs[k] == PerPageCost(g, chunks, nodes, size, k)
  }

  /** Appending the cost of the next page keeps `CostsSoFar`. */
  lemma CostsSoFarSnoc(g: FlashAddr.Geometry, chunks: seq<Chunk>, nodes: seq<nat>, size: nat, costs: seq<int>, c: int)
    requires CostsSoFar(g, chunks, nodes, size, costs) && |costs| < LinuxPagesNum(size)
    requires c == PerPageCost(g, chunks, nodes, size, |costs|)
    ensures CostsSoFar(g, chunks, nodes, size, costs + [c])
  {
    CostsExtend(g, chunks, nodes, size, costs, c);
  }

  /** The pointwise half of `CostsSoFarSnoc`. */
  lemma CostsExtend(g: FlashAddr.Geometry, chunks: seq<Chunk>, nodes: seq<nat>, size: nat, costs: seq<int>, c: int)
    requires size > 0 && Readable(g, chunks, nodes, 0, size) && |costs| < LinuxPagesNum(size)
    requires forall k :: 0 <= k < |costs| ==> costs[k] == PerPageCost(g, chunks, nodes, size, k)
    requires c == PerPageCost(g, chunks, nodes, size, |costs|)
    ensures forall k :: 0 <= k < |costs| + 1 ==> (costs + [c])[k] == PerPageCost(g, chunks, nodes, size, k)
  {
  }

  /** A list holding the cost of every Linux page, in order, is the cost list. */
  lemma PerPageCostsAre(g: FlashAddr.Geometry, chunks: seq<Chunk>, nodes: seq<nat>, size: nat, costs: seq<int>)
    requires CostsSoFar(g, chunks, nodes, size, costs) && |costs| == LinuxPagesNum(size)
    ensures costs == PerPageCosts(g, chunks, nodes, size)
  {
  }
}
