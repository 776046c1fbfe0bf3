/**
 * The reconstruction engine of src/File.cpp: a `File` gathers the records of
 * one inode and resolves its name, deletion state, size and valid data nodes;
 * a `FileSet` groups a sorted record vector into files.
 *
 * Records are referred to by their index in the record sequence `chunks`
 * that every method receives (the source holds record addresses into the same
 * vector). A source assertion that fails on the data aborts the program; the
 * model reports it instead: `None`, `false` or `AssertionFailed`.
 */
module Reconstruction {
  import opened Wrappers
  import opened ChunkModel
  import opened Resolution
  import FlashAddr
  import Locality
  import PageLists

  /** What `finalize` leads to: 0, 1, or an assertion failure. */
  datatype Outcome = Finalized | Discarded | AssertionFailed

  /**
   * What `finalize` leads to for a file that grouping has just built, from
   * its inode and its record lists: the root is final; a file without an
   * entry of positive version is discarded; a deleted file is final; any
   * other file fails an assertion when it has no data node of positive
   * version or a hole below its size.
   */
  ghost function FinalizeOutcome(chunks: seq<Chunk>, inode: nat, nodes: seq<nat>, ds: seq<nat>): Outcome
    requires DataIndices(chunks, nodes) && DirentIndices(chunks, ds)
  {
    if inode == 1 then Finalized
    else if Orphan(chunks, ds) then Discarded
    else if chunks[ResolvedDirent(chunks, ds).value].inode == 0 then Finalized
    else match FileSize(chunks, nodes)
      case None => AssertionFailed
      case Some(size) => if Resolvable(chunks, nodes, 0, size) then Finalized else AssertionFailed
  }

  /**
   * The root is always final; exactly the non-root files without an entry
   * of positive version are discarded; the assertion fails only for a
   * non-root file whose live entry is not a deletion and whose data nodes
   * give no size or leave an offset below the size a hole.
   */
  lemma FinalizeOutcomeCases(chunks: seq<Chunk>, inode: nat, nodes: seq<nat>, ds: seq<nat>)
    requires DataIndices(chunks, nodes) && DirentIndices(chunks, ds)
    ensures inode == 1 ==> FinalizeOutcome(chunks, inode, nodes, ds) == Finalized
    ensures FinalizeOutcome(chunks, inode, nodes, ds) == Discarded <==> inode != 1 && Orphan(chunks, ds)
    ensures FinalizeOutcome(chunks, inode, nodes, ds) == AssertionFailed ==>
              && inode != 1 && !Orphan(chunks, ds)
              && chunks[ResolvedDirent(chunks, ds).value].inode != 0
              && (|| FileSize(chunks, nodes).None?
                  || exists off: nat :: off < FileSize(chunks, nodes).value && Resolve(chunks, nodes, off).None?)
  {
  }

  class File {
    const inode: nat
    var allData: seq<nat>
    var allDirents: seq<nat>
    var validData: seq<nat>
    var validDirent: Option<nat>
    var wasDeleted: bool
    var isFinal: bool
    var sequentialCost: int

    constructor(inode: nat)
      ensures this.inode == inode
      ensures allData == [] && allDirents == [] && validData == [] && validDirent == None
      ensures !wasDeleted && !isFinal && sequentialCost == -1
    {
      this.inode := inode;
      allData := [];
      allDirents := [];
      validData := [];
      validDirent := None;
      wasDeleted := false;
      isFinal := false;
      sequentialCost := -1;
    }

    /** Every stored index names a record of the right kind. */
    ghost predicate Valid(chunks: seq<Chunk>)
      reads this`allData, this`allDirents, this`validData, this`validDirent
    {
      && DataIndices(chunks, allData) && DirentIndices(chunks, allDirents)
      && DataIndices(chunks, validData)
      && (validDirent.Some? ==> validDirent.value < |chunks| && chunks[validDirent.value].Dirent?)
    }

    /** What `finalize` makes of this file, decided by the records it holds. */
    ghost function FinalizeResult(chunks: seq<Chunk>): Outcome
      reads this`allData, this`allDirents, this`validData, this`validDirent
      requires Valid(chunks)
    {
      FinalizeOutcome(chunks, inode, allData, allDirents)
    }

    /** A file as grouping leaves it: nothing resolved yet. */
    ghost predicate Pristine()
      reads this
    {
      validData == [] && validDirent == None && !wasDeleted && !isFinal
    }

    /** Every entry of the file is attached to a real inode (never 0). */
    ghost predicate OwnEntries(chunks: seq<Chunk>)
      reads this`allData, this`allDirents, this`validData, this`validDirent
      requires Valid(chunks)
    {
      forall q :: 0 <= q < |allDirents| ==> chunks[allDirents[q]].inode != 0
    }

    /**
     * The state `finalize` leaves a kept file in: final; the root untouched;
     * any other file named by its resolved entry, deleted exactly when a
     * tombstone wins, and otherwise holding the valid data nodes below the
     * size of its most recent data node.
     */
    ghost predicate Resolved(chunks: seq<Chunk>)
      reads this
      requires Valid(chunks)
    {
      && isFinal
      && (inode == 1 ==> validDirent == None && validData == [] && !wasDeleted)
      && (inode != 1 ==>
            && !Orphan(chunks, allDirents)
            && validDirent == ResolvedDirent(chunks, allDirents)
            && wasDeleted == Deleted(chunks, allDirents)
            && (wasDeleted ==> validData == [])
            && (!wasDeleted ==>
                  && FileSize(chunks, allData).Some?
                  && Resolvable(chunks, allData, 0, FileSize(chunks, allData).value)
                  && validData == ValidNodes(chunks, allData, FileSize(chunks, allData).value)))
    }

    /** The file holds exactly the records of its inode among the first n of s, in order. */
    ghost predicate GroupedIn(s: seq<Chunk>, n: nat)
      reads this`allData, this`allDirents
      requires n <= |s|
    {
      allData == DataNodesOf(s, n, inode) && allDirents == DirentsOf(s, n, inode)
    }

    /** `addNode(DataNode &)`: appends to the file's data nodes. */
    method AddDataNode(k: nat)
      modifies this
      ensures allData == old(allData) + [k]
      ensures allDirents == old(allDirents) && validData == old(validData)
      ensures validDirent == old(validDirent) && wasDeleted == old(wasDeleted)
      ensures isFinal == old(isFinal) && sequentialCost == old(sequentialCost)
    {
      allData := allData + [k];
    }

    /** `addNode(DirentNode &)`: appends to the file's directory entries. */
    method AddDirentNode(k: nat)
      modifies this
      ensures allDirents == old(allDirents) + [k]
      ensures allData == old(allData) && validData == old(validData)
      ensures validDirent == old(validDirent) && wasDeleted == old(wasDeleted)
      ensures isFinal == old(isFinal) && sequentialCost == old(sequentialCost)
    {
      allDirents := allDirents + [k];
    }

    /**
     * `getMostRecentDataNode` does not fail: the file is deleted, or one of
     * its data nodes has a positive version.
     */
    predicate SizeDefined(chunks: seq<Chunk>)
      reads this`allData, this`allDirents, this`validData, this`validDirent, this`wasDeleted
      requires Valid(chunks)
    {
      wasDeleted || FileSize(chunks, allData).Some?
    }

    /**
     * `getMostRecentDataNode`: nothing for a deleted file, otherwise the
     * first data node with a positive version; the source's assertion fails
     * when there is none.
     */
    method GetMostRecentDataNode(chunks: seq<Chunk>) returns (r: Result<Option<nat>, Outcome>)
      requires Valid(chunks)
      ensures r.Err? <==> !SizeDefined(chunks)
      ensures r.Err? ==> r.error == AssertionFailed
      ensures r.Ok? ==> (wasDeleted <==> r.value.None?)
      ensures r.Ok? && r.value.Some? ==> r.value.value == allData[FirstPositivePos(chunks, allData).value]
    {
      if wasDeleted {
        return Ok(None);
      }
      var lastVersion := 0;
      var res: Option<nat> := None;
      var i := 0;
      while i < |allData|
        invariant 0 <= i <= |allData|
        invariant res.None? && lastVersion == 0
        invariant forall q :: 0 <= q < i ==> chunks[allData[q]].version == 0
      {
        var dn := chunks[allData[i]];
        if dn.version > lastVersion {
          lastVersion := dn.version;
          res := Some(allData[i]);
          break;
        }
        i := i + 1;
      }
      if lastVersion == 0 || res.None? {
        return Err(AssertionFailed);
      }
      return Ok(res);
    }

    /**
     * `getSize`: 0 for a deleted file, otherwise the file size recorded in
     * its most recent data node.
     */
    function Size(chunks: seq<Chunk>): (size: nat)
      reads this`allData, this`allDirents, this`validData, this`validDirent, this`wasDeleted
      requires Valid(chunks) && SizeDefined(chunks)
      ensures wasDeleted ==> size == 0
    {
      if wasDeleted then 0 else FileSize(chunks, allData).value
    }

    /**
     * On a version-descending data-node list the size is the one recorded in
     * a data node of the greatest version.
     */
    lemma SizeIsLatest(chunks: seq<Chunk>)
      requires Valid(chunks) && SizeDefined(chunks) && !wasDeleted
      requires VersionsDescending(chunks, allData)
      ensures exists q :: 0 <= q < |allData| && Size(chunks) == chunks[allData[q]].fileSize &&
                chunks[allData[q]].version > 0 &&
                forall p :: 0 <= p < |allData| ==> chunks[allData[p]].version <= chunks[allData[q]].version
    {
      FirstPositiveIsMostRecent(chunks, allData);
      var q := FirstPositivePos(chunks, allData).value;
      assert Size(chunks) == chunks[allData[q]].fileSize;
    }

    /**
     * `getValidDataNodeAtOffset`: the first data node whose data covers the
     * offset (end computed in uint64), or None when the source's assertion
     * fails: no covering node, or a covering node of version 0.
     */
    method GetValidDataNodeAtOffset(chunks: seq<Chunk>, offset: nat) returns (r: Option<nat>)
      requires Valid(chunks) && SizeDefined(chunks) && offset < Size(chunks)
      ensures r == Resolve(chunks, allData, offset)
    {
      var lastVersion := 0;
      r := None;
      var i := 0;
      while i < |allData|
        invariant 0 <= i <= |allData|
        invariant forall q :: 0 <= q < i ==> !Covers(chunks[allData[q]], offset)
      {
        var cur := chunks[allData[i]];
        var start := cur.dataOffset;
        var end := if start + cur.dataSize == 0 then U64Max else start + cur.dataSize - 1;
        if offset >= start && offset <= end {
          lastVersion := cur.version;
          r := Some(allData[i]);
          break;
        }
        i := i + 1;
      }
      if r.None? || lastVersion == 0 {
        r := None;
      }
    }

    /**
     * `addValidDataNodeIfNotAlreadyPresent`: appends the node unless a valid
     * node with its version is already present.
     */
    method AddValidDataNodeIfNotAlreadyPresent(chunks: seq<Chunk>, k: nat)
      requires Valid(chunks) && k < |chunks| && chunks[k].DataNode?
      modifies this
      ensures Valid(chunks)
      ensures validData == AddByVersion(chunks, old(validData), k)
      ensures allData == old(allData) && allDirents == old(allDirents)
      ensures validDirent == old(validDirent) && wasDeleted == old(wasDeleted)
      ensures isFinal == old(isFinal) && sequentialCost == old(sequentialCost)
    {
      var alreadyPresent := false;
      for i := 0 to |validData|
        invariant alreadyPresent <==> HasVersion(chunks, validData[..i], chunks[k].version)
      {
        if chunks[validData[i]].version == chunks[k].version {
          alreadyPresent := true;
        }
      }
      assert validData[..|validData|] == validData;
      if !alreadyPresent {
        validData := validData + [k];
      }
    }

    /**
     * `set_valid_dirent`. The root (inode 1) is left alone. Otherwise the
     * file's own entry of greatest version is chosen (the earliest on ties);
     * with none of positive version the result is 1 (orphan, discard).
     * Then every tombstone for the chosen name of greater version is adopted
     * in turn and marks the file deleted. The parent inode is not compared.
     */
    method SetValidDirent(chunks: seq<Chunk>) returns (r: int)
      requires Valid(chunks)
      modifies this
      ensures Valid(chunks)
      ensures r == 0 || r == 1
      ensures allData == old(allData) && allDirents == old(allDirents) && validData == old(validData)
      ensures isFinal == old(isFinal) && sequentialCost == old(sequentialCost)
      ensures inode == 1 ==> r == 0
      ensures inode != 1 ==> (r == 1 <==> Orphan(chunks, allDirents))
      ensures inode == 1 || r == 1 ==> validDirent == old(validDirent) && wasDeleted == old(wasDeleted)
      ensures inode != 1 && r == 0 ==>
                validDirent == ResolvedDirent(chunks, allDirents) &&
                wasDeleted == (old(wasDeleted) || Deleted(chunks, allDirents))
    {
      if inode == 1 {
        return 0;
      }
      var lastVersion := PickOwnDirent(chunks);
      if lastVersion == 0 {
        return 1;
      }
      AdoptTombstones(chunks, lastVersion);
      return 0;
    }

    /**
     * The first loop of `set_valid_dirent`: the file's own entry of greatest
     * positive version, the earliest on ties; its version, or 0 if none.
     */
    method PickOwnDirent(chunks: seq<Chunk>) returns (lastVersion: nat)
      requires Valid(chunks)
      modifies this
      ensures Valid(chunks)
      ensures allData == old(allData) && allDirents == old(allDirents) && validData == old(validData)
      ensures wasDeleted == old(wasDeleted) && isFinal == old(isFinal) && sequentialCost == old(sequentialCost)
      ensures lastVersion == 0 <==> Orphan(chunks, allDirents)
      ensures lastVersion == 0 ==> validDirent == old(validDirent)
      ensures lastVersion > 0 ==> validDirent == LatestDirent(chunks, allDirents) &&
                                  lastVersion == chunks[validDirent.value].version
    {
      lastVersion := 0;
      ghost var vs := DirentVersions(chunks, allDirents);
      for i := 0 to |allDirents|
        invariant Valid(chunks) && allDirents == old(allDirents)
        invariant allData == old(allData) && validData == old(validData) && wasDeleted == old(wasDeleted)
        invariant isFinal == old(isFinal) && sequentialCost == old(sequentialCost)
        invariant lastVersion == RunningMax(vs[..i], EarliestMaxAbove(vs[..i], 0), 0)
        invariant validDirent == Chosen(allDirents, EarliestMaxAbove(vs[..i], 0), old(validDirent))
      {
        EarliestMaxStep(vs, i, 0);
        var dn := chunks[allDirents[i]];
        if dn.version > lastVersion {
          lastVersion := dn.version;
          validDirent := Some(allDirents[i]);
        }
      }
      assert vs[..|allDirents|] == vs;
    }

    /**
     * The tombstone scan of `set_valid_dirent`: over the whole record
     * sequence, every inode-0 entry with the valid entry's name and a
     * greater version than the last adopted is adopted in turn and marks the
     * file deleted.
     */
    method AdoptTombstones(chunks: seq<Chunk>, v0: nat)
      requires Valid(chunks) && validDirent.Some? && v0 == chunks[validDirent.value].version
      modifies this
      ensures Valid(chunks)
      ensures allData == old(allData) && allDirents == old(allDirents) && validData == old(validData)
      ensures isFinal == old(isFinal) && sequentialCost == old(sequentialCost)
      ensures var t := LatestTombstone(chunks, chunks[old(validDirent).value].name, v0);
              && validDirent == (if t.Some? then t else old(validDirent))
              && wasDeleted == (old(wasDeleted) || t.Some?)
    {
      var chosen, found := ScanTombstones(chunks, validDirent.value, v0);
      validDirent := Some(chosen);
      wasDeleted := wasDeleted || found;
    }

    /**
     * `set_valid_datanodes`. A file whose valid entry is a tombstone gets no
     * content. Otherwise every offset below the size is resolved and offered
     * to `AddValidDataNodeIfNotAlreadyPresent`; the result is false when an
     * assertion of the source fails (no size, or a hole).
     */
    method SetValidDataNodes(chunks: seq<Chunk>) returns (ok: bool)
      requires Valid(chunks) && validDirent.Some?
      modifies this
      ensures Valid(chunks)
      ensures allData == old(allData) && allDirents == old(allDirents)
      ensures validDirent == old(validDirent) && wasDeleted == old(wasDeleted)
      ensures isFinal == old(isFinal) && sequentialCost == old(sequentialCost)
      ensures chunks[validDirent.value].inode == 0 ==> ok && validData == old(validData)
      ensures chunks[validDirent.value].inode != 0 ==>
                (ok <==> SizeDefined(chunks) && Resolvable(chunks, allData, 0, Size(chunks)))
      ensures chunks[validDirent.value].inode != 0 && ok ==>
                validData == Collect(chunks, old(validData), Resolutions(chunks, allData, 0, Size(chunks)))
    {
      if chunks[validDirent.value].inode == 0 {
        return true;
      }
      if !SizeDefined(chunks) {
        return false;
      }
      var size := Size(chunks);
      ghost var start := validData;
      for i := 0 to size
        invariant Valid(chunks) && SizeDefined(chunks) && size == Size(chunks)
        invariant allData == old(allData) && allDirents == old(allDirents)
        invariant validDirent == old(validDirent) && wasDeleted == old(wasDeleted)
        invariant isFinal == old(isFinal) && sequentialCost == old(sequentialCost)
        invariant Resolvable(chunks, allData, 0, i)
        invariant validData == Collect(chunks, start, Resolutions(chunks, allData, 0, i))
      {
        var cur := GetValidDataNodeAtOffset(chunks, i);
        if cur.None? {
          return false;
        }
        ResolutionsSnoc(chunks, allData, 0, i);
        ghost var rs := Resolutions(chunks, allData, 0, i + 1);
        assert rs[..|rs| - 1] == Resolutions(chunks, allData, 0, i);
        AddValidDataNodeIfNotAlreadyPresent(chunks, cur.value);
      }
      return true;
    }

    /**
     * `finalize`: the root is finalised without resolution; any other file
     * is discarded when it is an orphan, otherwise its entry and data nodes
     * are resolved and it becomes final.
     */
    method Finalize(chunks: seq<Chunk>) returns (out: Outcome)
      requires Valid(chunks)
      modifies this
      ensures Valid(chunks)
      ensures allData == old(allData) && allDirents == old(allDirents)
      ensures sequentialCost == old(sequentialCost)
      ensures isFinal == (old(isFinal) || out == Finalized)
      ensures inode == 1 ==> out == Finalized
      ensures inode == 1 || out == Discarded ==>
                validDirent == old(validDirent) && wasDeleted == old(wasDeleted) && validData == old(validData)
      ensures inode != 1 ==> (out == Discarded <==> Orphan(chunks, allDirents))
      ensures inode != 1 && out != Discarded ==>
                && validDirent == ResolvedDirent(chunks, allDirents)
                && wasDeleted == (old(wasDeleted) || Deleted(chunks, allDirents))
                && (chunks[validDirent.value].inode != 0 ==>
                      (out == Finalized <==> SizeDefined(chunks) && Resolvable(chunks, allData, 0, Size(chunks))))
                && (chunks[validDirent.value].inode == 0 ==> out == Finalized && validData == old(validData))
      ensures inode != 1 && out == Finalized && chunks[validDirent.value].inode != 0 ==>
                validData == Collect(chunks, old(validData), Resolutions(chunks, allData, 0, Size(chunks)))
      ensures old(Pristine()) && OwnEntries(chunks) ==> out == FinalizeOutcome(chunks, inode, allData, allDirents)
      ensures old(Pristine()) && OwnEntries(chunks) && out == Finalized ==> Resolved(chunks)
    {
      ghost var pristine := Pristine();
      if inode != 1 {
        var ret := SetValidDirent(chunks);
        if ret == 1 {
          return Discarded;
        }
        if pristine && OwnEntries(chunks) {
          ResolvedDirentMeaning(chunks, allDirents);
        }
        var ok := SetValidDataNodes(chunks);
        if !ok {
          return AssertionFailed;
        }
      }
      isFinal := true;
      return Finalized;
    }

    // ------------------------------------------------------- locality metrics

    /**
     * `getConcernedPagesIndexes` (the file must be final): the pages holding
     * the valid data nodes, each listed once.
     */
    method ConcernedPagesIndexes(g: FlashAddr.Geometry, chunks: seq<Chunk>) returns (pages: seq<int>)
      requires Valid(chunks) && isFinal && Locality.Walkable(g, chunks, validData)
      ensures pages == Locality.ConcernedPages(g, chunks, validData)
    {
      pages := [];
      for i := 0 to |validData|
        invariant pages == Locality.ConcernedPages(g, chunks, validData[..i])
      {
        Locality.ConcernedPagesSnoc(g, chunks, validData, i);
        var tmp := ChunkModel.ConcernedPagesIndexes(g, chunks[validData[i]]);
        pages := PageLists.AddEachIfNotAlreadyPresent(pages, tmp);
      }
      assert validData[..|validData|] == validData;
    }

    /**
     * The two integers `getFragmentationFactor` divides: the number of
     * concerned pages and the theoretical minimal page count.
     */
    method FragmentationRatio(g: FlashAddr.Geometry, chunks: seq<Chunk>) returns (actual: nat, theoretical: nat)
      requires Valid(chunks) && isFinal && SizeDefined(chunks) && Locality.Walkable(g, chunks, validData)
      ensures actual == |Locality.ConcernedPages(g, chunks, validData)|
      ensures theoretical == Locality.TheoreticalPageNum(Size(chunks), g.pageSize)
    {
      var pages := ConcernedPagesIndexes(g, chunks);
      actual := |pages|;
      theoretical := Locality.TheoreticalPageNum(Size(chunks), g.pageSize);
    }

    /** `getLinuxPagesNum` (the file must be final and non-empty). */
    function LinuxPagesNum(chunks: seq<Chunk>): (n: nat)
      reads this
      requires Valid(chunks) && isFinal && SizeDefined(chunks) && Size(chunks) > 0
      ensures n == Locality.LinuxPagesNum(Size(chunks))
      ensures n >= 1 && n * Locality.LinuxPageSize >= Size(chunks)
    {
      Locality.LinuxPagesNum(Size(chunks))
    }

    /**
     * The file has a size, and every offset below it resolves to a data node
     * whose flash pages can be computed: the metrics below do not fail.
     */
    ghost predicate Measurable(g: FlashAddr.Geometry, chunks: seq<Chunk>)
      reads this`allData, this`allDirents, this`validData, this`validDirent, this`wasDeleted
    {
      Valid(chunks) && SizeDefined(chunks) && Locality.Readable(g, chunks, allData, 0, Size(chunks))
    }

    /**
     * The page walk shared by `getContiguousFactor` and
     * `getFlashPagesReadForLinuxPage` over the offsets [from, to).
     */
    method WalkOffsets(g: FlashAddr.Geometry, chunks: seq<Chunk>, from: nat, to: nat) returns (pages: seq<int>)
      requires Valid(chunks) && SizeDefined(chunks) && from <= to <= Size(chunks)
      requires Locality.Readable(g, chunks, allData, from, to)
      ensures pages == Locality.WalkPages(g, chunks, allData, from, to)
    {
      pages := [];
      var prev: Option<nat> := None;
      for i := from to to
        invariant Locality.WalkState(pages, prev) ==
                  Locality.Walk(g, chunks, Resolutions(chunks, allData, from, i))
      {
        var dn := GetValidDataNodeAtOffset(chunks, i);
        ResolutionsSnoc(chunks, allData, from, i);
        ghost var rs := Resolutions(chunks, allData, from, i + 1);
        assert rs[..|rs| - 1] == Resolutions(chunks, allData, from, i);
        if dn != prev {
          var tmp := ChunkModel.ConcernedPagesIndexes(g, chunks[dn.value]);
          pages := PageLists.AppendEachIfDifferentFromLast(pages, tmp);
          prev := dn;
        }
      }
    }

    /**
     * `getFlashPagesReadForLinuxPage`: the walk over the bytes of Linux page
     * `index` inside the file; empty when the page starts past the end.
     */
    method FlashPagesReadForLinuxPage(g: FlashAddr.Geometry, chunks: seq<Chunk>, index: nat) returns (pages: seq<int>)
      requires Measurable(g, chunks)
      ensures pages == Locality.FlashPagesRead(g, chunks, allData, Size(chunks), index)
    {
      var start := index * Locality.LinuxPageSize;
      var size := Size(chunks);
      if start >= size {
        return [];
      }
      var end := if start + Locality.LinuxPageSize < size then start + Locality.LinuxPageSize else size;
      Locality.FlashPagesReadWindow(g, chunks, allData, size, index);
      pages := WalkOffsets(g, chunks, start, end);
    }

    /** `getLinuxPageReadCost`: the number of pages read for one Linux page. */
    method LinuxPageReadCost(g: FlashAddr.Geometry, chunks: seq<Chunk>, index: nat) returns (r: int)
      requires Measurable(g, chunks)
      ensures r == |Locality.FlashPagesRead(g, chunks, allData, Size(chunks), index)|
      ensures r == 0 <==> index * Locality.LinuxPageSize >= Size(chunks)
    {
      var pages := FlashPagesReadForLinuxPage(g, chunks, index);
      r := |pages|;
    }

    /**
     * The integer parts of `getContiguousFactor`: it caches the length of the
     * whole-file walk as the sequential cost and returns the non-sequential
     * jump count and the total jump count (its quotient's operands).
     */
    method ContiguousFactor(g: FlashAddr.Geometry, chunks: seq<Chunk>) returns (nonSeqJumps: nat, totalJumps: int)
      requires Measurable(g, chunks)
      modifies this
      ensures allData == old(allData) && allDirents == old(allDirents) && validData == old(validData)
      ensures validDirent == old(validDirent) && wasDeleted == old(wasDeleted) && isFinal == old(isFinal)
      ensures var walk := Locality.WalkPages(g, chunks, allData, 0, Size(chunks));
              && sequentialCost == |walk|
              && totalJumps == |walk| - 1
              && nonSeqJumps == Locality.NonSeqJumps(walk)
    {
      var pages := WalkOffsets(g, chunks, 0, Size(chunks));
      sequentialCost := |pages|;
      totalJumps := |pages| - 1;
      nonSeqJumps := Locality.CountNonSeqJumps(pages);
    }

    /** The cached sequential cost is unset or up to date. */
    ghost predicate CacheValid(g: FlashAddr.Geometry, chunks: seq<Chunk>)
      reads this
      requires Measurable(g, chunks)
    {
      sequentialCost == -1 || sequentialCost == |Locality.WalkPages(g, chunks, allData, 0, Size(chunks))|
    }

    /**
     * `getSequentialReadCost`: the length of the whole-file page walk,
     * computed once and cached.
     */
    method SequentialReadCost(g: FlashAddr.Geometry, chunks: seq<Chunk>) returns (r: int)
      requires Measurable(g, chunks)
      requires CacheValid(g, chunks)
      modifies this
      ensures allData == old(allData) && allDirents == old(allDirents) && validData == old(validData)
      ensures validDirent == old(validDirent) && wasDeleted == old(wasDeleted) && isFinal == old(isFinal)
      ensures r == sequentialCost == |Locality.WalkPages(g, chunks, allData, 0, Size(chunks))|
    {
      if sequentialCost == -1 {
        var _, _ := ContiguousFactor(g, chunks);
      }
      r := sequentialCost;
    }

    /**
     * The costs `printSequentialPerPageReadCost` reports, Linux page by Linux
     * page: the pages read, less one when the first is the last page read
     * for the previous Linux page.
     */
    method SequentialPerPageReadCost(g: FlashAddr.Geometry, chunks: seq<Chunk>) returns (costs: seq<int>)
      requires Measurable(g, chunks) && isFinal && Size(chunks) > 0
      ensures costs == Locality.PerPageCosts(g, chunks, allData, Size(chunks))
    {
      var size := Size(chunks);
      var n := Locality.LinuxPagesNum(size);
      var prevLast := -1;
      costs := [];
      for i := 0 to n
        invariant |costs| == i && Locality.CostsSoFar(g, chunks, allData, size, costs)
        invariant i < n ==> i * Locality.LinuxPageSize < size &&
                            prevLast == Locality.PrevLastPage(g, chunks, allData, size, i)
      {
        var c;
        c, prevLast := PageReadCost(g, chunks, i, prevLast);
        Locality.CostsSoFarSnoc(g, chunks, allData, size, costs, c);
        costs := costs + [c];
      }
      Locality.PerPageCostsAre(g, chunks, allData, size, costs);
    }

    /** One iteration of `printSequentialPerPageReadCost`. */
    method PageReadCost(g: FlashAddr.Geometry, chunks: seq<Chunk>, i: nat, prevLast: int) returns (c: int, last: int)
      requires Measurable(g, chunks) && Size(chunks) > 0
      requires i < Locality.LinuxPagesNum(Size(chunks)) && i * Locality.LinuxPageSize < Size(chunks)
      requires prevLast == Locality.PrevLastPage(g, chunks, allData, Size(chunks), i)
      ensures c == Locality.PerPageCost(g, chunks, allData, Size(chunks), i)
      ensures i + 1 < Locality.LinuxPagesNum(Size(chunks)) ==>
                (i + 1) * Locality.LinuxPageSize < Size(chunks) &&
                last == Locality.PrevLastPage(g, chunks, allData, Size(chunks), i + 1)
    {
      Locality.PerPageCostsAt(g, chunks, allData, Size(chunks), i);
      var read := FlashPagesReadForLinuxPage(g, chunks, i);
      c := |read|;
      if read[0] == prevLast {
        c := c - 1;
      }
      last := read[|read| - 1];
    }
  }

  /**
   * The loop of the tombstone scan, on the records alone: starting from the
   * entry `current` and the version v0, every inode-0 entry with the chosen
   * entry's name and a greater version than the last adopted is adopted in
   * turn; `found` says whether any was.
   */
  method ScanTombstones(chunks: seq<Chunk>, current: nat, v0: nat) returns (chosen: nat, found: bool)
    requires current < |chunks| && chunks[current].Dirent?
    ensures chosen < |chunks| && chunks[chosen].Dirent?
    ensures var t := LatestTombstone(chunks, chunks[current].name, v0);
            && chosen == (if t.Some? then t.value else current)
            && found == t.Some?
  {
    var lastVersion := v0;
    chosen, found := current, false;
    ghost var name := chunks[current].name;
    ghost var ts := TombstoneVersions(chunks, name);
    for i := 0 to |chunks|
      invariant lastVersion == RunningMax(ts[..i], EarliestMaxAbove(ts[..i], v0), v0)
      invariant chosen == (if EarliestMaxAbove(ts[..i], v0).Some? then EarliestMaxAbove(ts[..i], v0).value
                           else current)
      invariant found == EarliestMaxAbove(ts[..i], v0).Some?
      invariant chosen < |chunks| && chunks[chosen].Dirent? && chunks[chosen].name == name
    {
      EarliestMaxStep(ts, i, v0);
      if chunks[i].Dirent? {
        var dn := chunks[i];
        if dn.inode == 0 && lastVersion < dn.version && dn.name == chunks[chosen].name {
          lastVersion := dn.version;
          chosen := i;
          found := true;
        }
      }
    }
    assert ts[..|chunks|] == ts;
  }

  /** The records `FileSet` attaches to a file: data nodes and non-tombstone entries. */
  predicate Attached(c: Chunk)
  {
    c.DataNode? || (c.Dirent? && c.inode != 0)
  }

  /** The elements of xs whose flag in keep is set, in order. */
  function FilterBy<T>(xs: seq<T>, keep: seq<bool>): (r: seq<T>)
    requires |xs| == |keep|
    ensures |r| <= |xs|
    ensures forall x :: x in r ==> x in xs
    decreases |xs|
  {
    if |xs| == 0 then []
    else FilterBy(xs[..|xs| - 1], keep[..|keep| - 1]) + (if keep[|keep| - 1] then [xs[|xs| - 1]] else [])
  }

  /**
   * `FileSet`: the files of a dump. Building it sorts the records, groups
   * them into one file per inode (the root first) and finalises every file,
   * erasing the discarded ones. The ghost `grouped` is the file list before
   * finalisation and `kept` says which of those survived.
   */
  class FileSet {
    var files: seq<File>
    var chunks: seq<Chunk>
    var aborted: bool
    ghost var grouped: seq<File>
    ghost var kept: seq<bool>
    ghost var Repr: set<File>

    /**
     * The files after grouping the first n records, none finalised yet: the
     * root first, then one file per inode that some attached record names.
     */
    ghost predicate GroupedUpTo(n: nat)
      reads this, files
      requires n <= |chunks|
    {
      && |files| > 0 && files[0].inode == 1
      && DistinctInodes(files)
      && Inodes(files) == {1} + AttachedInodes(chunks, n)
      && InodeList(files) == FileOrder(chunks, n)
      && (forall p :: 0 <= p < |files| ==> files[p] in Repr)
      && (forall p :: 0 <= p < |files| ==> files[p].GroupedIn(chunks, n) && files[p].Pristine())
    }

    constructor(a: array<Chunk>)
      modifies a
      ensures ChunkOrder.StableReorder(old(a[..]), chunks) && ChunkOrder.DataSorted(chunks)
      ensures a[..] == chunks
      ensures |grouped| > 0 && grouped[0].inode == 1 && DistinctInodes(grouped)
      ensures Inodes(grouped) == {1} + AttachedInodes(chunks, |chunks|)
      ensures InodeList(grouped) == FileOrder(chunks, |chunks|)
      ensures forall p :: 0 <= p < |grouped| ==>
                && grouped[p].Valid(chunks) && grouped[p].GroupedIn(chunks, |chunks|)
                && VersionsDescending(chunks, grouped[p].allData)
      ensures aborted <==>
                exists p :: 0 <= p < |grouped| &&
                  grouped[p].FinalizeResult(chunks) == AssertionFailed
      ensures !aborted ==> |kept| == |grouped| && files == FilterBy(grouped, kept)
      ensures !aborted ==> forall p :: 0 <= p < |grouped| ==>
                (kept[p] <==> grouped[p].FinalizeResult(chunks) == Finalized)
      ensures !aborted ==> forall f :: f in files ==> f.Valid(chunks) && f.Resolved(chunks)
    {
      var root := new File(1);
      files := [root];
      chunks := [];
      aborted := false;
      grouped := [];
      kept := [];
      Repr := {root};
      new;
      ChunkOrder.SortChunkArray(a);
      chunks := a[..];
      Ingest();
      forall p | 0 <= p < |files|
        ensures files[p].Valid(chunks) && files[p].OwnEntries(chunks)
        ensures VersionsDescending(chunks, files[p].allData)
      {
        GroupsMeaning(chunks, |chunks|, files[p].inode);
        SortedGivesDescending(chunks, files[p].inode);
        assert forall q :: 0 <= q < |files[p].allDirents| ==> files[p].allDirents[q] in files[p].allDirents;
      }
      grouped := files;
      FinalizeAll();
    }

    /** The grouping loop of the `FileSet` constructor. */
    method Ingest()
      requires |files| == 1 && files[0].inode == 1 && files[0].allData == [] &&
               files[0].allDirents == [] && files[0].Pristine() && files[0] in Repr
      modifies this, Repr
      ensures chunks == old(chunks) && aborted == old(aborted)
      ensures grouped == old(grouped) && kept == old(kept)
      ensures GroupedUpTo(|chunks|)
      ensures fresh(Repr - old(Repr))
    {
      assert Inodes(files) == {1};
      for i := 0 to |chunks|
        invariant chunks == old(chunks) && aborted == old(aborted)
        invariant grouped == old(grouped) && kept == old(kept)
        invariant GroupedUpTo(i)
        invariant fresh(Repr - old(Repr))
      {
        GroupRecord(i);
      }
    }

    /**
     * The switch in the grouping loop: data nodes and entries that are not
     * tombstones go to `addNode`, every other record is passed over.
     */
    method GroupRecord(k: nat)
      requires k < |chunks| && GroupedUpTo(k)
      modifies this, Repr
      ensures chunks == old(chunks) && aborted == old(aborted)
      ensures grouped == old(grouped) && kept == old(kept)
      ensures GroupedUpTo(k + 1)
      ensures old(files) <= files && |files| <= |old(files)| + 1
      ensures fresh(Repr - old(Repr))
    {
      if Attached(chunks[k]) {
        AddNode(k);
      } else {
        SkipRecord(k);
      }
    }

    /** A free-space extent or a tombstone joins no file. */
    lemma SkipRecord(k: nat)
      requires k < |chunks| && !Attached(chunks[k]) && GroupedUpTo(k)
      ensures GroupedUpTo(k + 1)
    {
      AttachedInodesStep(chunks, k);
    }

    /**
     * `findFile`: the position of the first file with the given inode, or -1
     * when there is none.
     */
    method FindFile(ino: nat) returns (r: int)
      ensures -1 <= r < |files|
      ensures r == -1 <==> ino !in Inodes(files)
      ensures r >= 0 ==> files[r].inode == ino && forall p :: 0 <= p < r ==> files[p].inode != ino
    {
      for i := 0 to |files|
        invariant forall p :: 0 <= p < i ==> files[p].inode != ino
      {
        if files[i].inode == ino {
          return i;
        }
      }
      return -1;
    }

    /**
     * `addNode` (both overloads): the record goes to the file of its inode,
     * which is appended first when there is none yet.
     */
    method AddNode(k: nat)
      requires k < |chunks| && Attached(chunks[k]) && GroupedUpTo(k)
      modifies this, Repr
      ensures chunks == old(chunks) && aborted == old(aborted)
      ensures grouped == old(grouped) && kept == old(kept)
      ensures GroupedUpTo(k + 1)
      ensures old(files) <= files && |files| <= |old(files)| + 1
      ensures fresh(Repr - old(Repr))
    {
      var ino := chunks[k].inode;
      var idx := FindFile(ino);
      if idx == -1 {
        idx := NewFile(k);
      } else {
        Found(k);
      }
      JoinFile(k, idx);
    }

    /**
     * Every file holds the records of its inode among the first k, and the
     * inode of record k already has a file.
     */
    ghost predicate JoinReady(k: nat)
      reads this, files
      requires k < |chunks|
    {
      && |files| > 0 && files[0].inode == 1 && DistinctInodes(files)
      && Inodes(files) == {1} + AttachedInodes(chunks, k + 1)
      && InodeList(files) == FileOrder(chunks, k + 1)
      && (forall p :: 0 <= p < |files| ==> files[p] in Repr)
      && (forall p :: 0 <= p < |files| ==> files[p].Pristine() && files[p].GroupedIn(chunks, k))
    }

    /** When record k's inode already has a file, nothing needs adding. */
    lemma Found(k: nat)
      requires k < |chunks| && Attached(chunks[k]) && GroupedUpTo(k) && chunks[k].inode in Inodes(files)
      ensures JoinReady(k)
    {
      AttachedInodesStep(chunks, k);
    }

    /** The branch of `addNode` that appends a fresh file for the inode of record k, not seen yet. */
    method NewFile(k: nat) returns (idx: nat)
      requires k < |chunks| && Attached(chunks[k]) && GroupedUpTo(k) && chunks[k].inode !in Inodes(files)
      modifies this
      ensures chunks == old(chunks) && aborted == old(aborted)
      ensures grouped == old(grouped) && kept == old(kept)
      ensures fresh(Repr - old(Repr))
      ensures idx < |files| && files[idx].inode == chunks[k].inode
      ensures files == old(files) + [files[idx]]
      ensures JoinReady(k)
    {
      var ino := chunks[k].inode;
      AttachedInodesMeaning(chunks, k);
      NoRecordNoEntries(chunks, k, ino);
      AttachedInodesStep(chunks, k);
      var f := new File(ino);
      InodesAppend(files, f);
      InodeListAppend(files, f);
      assert ino !in FileOrder(chunks, k);
      files := files + [f];
      Repr := Repr + {f};
      idx := |files| - 1;
    }

    /** Appends record k to file idx, the file of its inode. */
    method JoinFile(k: nat, idx: nat)
      requires k < |chunks| && Attached(chunks[k]) && idx < |files| && files[idx].inode == chunks[k].inode
      requires JoinReady(k)
      modifies files[idx]
      ensures GroupedUpTo(k + 1)
    {
      var f := files[idx];
      assert forall p :: 0 <= p < |files| && p != idx ==> files[p] != f;
      if chunks[k].DataNode? {
        f.AddDataNode(k);
      } else {
        f.AddDirentNode(k);
      }
      Joined(k, idx);
    }

    /** The state after record k joined file idx is the grouping of k + 1 records. */
    lemma Joined(k: nat, idx: nat)
      requires k < |chunks| && Attached(chunks[k]) && idx < |files| && files[idx].inode == chunks[k].inode
      requires |files| > 0 && files[0].inode == 1 && DistinctInodes(files)
      requires Inodes(files) == {1} + AttachedInodes(chunks, k + 1)
      requires InodeList(files) == FileOrder(chunks, k + 1)
      requires forall p :: 0 <= p < |files| ==> files[p] in Repr && files[p].Pristine()
      requires forall p :: 0 <= p < |files| && p != idx ==> files[p].GroupedIn(chunks, k)
      requires files[idx].allData ==
                 DataNodesOf(chunks, k, chunks[k].inode) + (if chunks[k].DataNode? then [k] else [])
      requires files[idx].allDirents ==
                 DirentsOf(chunks, k, chunks[k].inode) + (if chunks[k].Dirent? then [k] else [])
      ensures GroupedUpTo(k + 1)
    {
    }

    /**
     * The last loop of the `FileSet` constructor: every file is finalised in
     * turn and the discarded ones are erased, the rest keeping their order;
     * an assertion failure stops everything.
     */
    method FinalizeAll()
      requires !aborted && grouped == files && DistinctInodes(files)
      requires forall p :: 0 <= p < |files| ==> files[p] in Repr
      requires forall p :: 0 <= p < |files| ==> ReadyAs(files[p], chunks, files[p].allData, files[p].allDirents)
      modifies this, Repr
      ensures chunks == old(chunks) && grouped == old(grouped)
      ensures forall p :: 0 <= p < |grouped| ==>
                && grouped[p].Valid(chunks)
                && grouped[p].allData == old(grouped[p].allData)
                && grouped[p].allDirents == old(grouped[p].allDirents)
      ensures aborted <==>
                exists p :: 0 <= p < |grouped| && grouped[p].FinalizeResult(chunks) == AssertionFailed
      ensures !aborted ==> |kept| == |grouped| && files == FilterBy(grouped, kept)
      ensures !aborted ==> forall p :: 0 <= p < |grouped| ==>
                (kept[p] <==> grouped[p].FinalizeResult(chunks) == Finalized)
      ensures !aborted ==> forall f :: f in files ==> f.Valid(chunks) && f.Resolved(chunks)
    {
      var all := files;
      var failed, keep := FinalizeEach(all, chunks, Repr);
      if failed {
        aborted := true;
        return;
      }
      KeptAreResolved(all, keep, chunks);
      kept := keep;
      files := EraseDiscarded(all, keep);
    }
  }

  /** Whatever holds of the files at kept positions holds of every file the filter keeps. */
  lemma KeptAreResolved(fs: seq<File>, keep: seq<bool>, chunks: seq<Chunk>)
    requires |keep| == |fs|
    requires forall p :: 0 <= p < |fs| && keep[p] ==> fs[p].Valid(chunks) && fs[p].Resolved(chunks)
    ensures forall f :: f in FilterBy(fs, keep) ==> f.Valid(chunks) && f.Resolved(chunks)
  {
    forall f | f in FilterBy(fs, keep)
      ensures f.Valid(chunks) && f.Resolved(chunks)
    {
      FilterByKept(fs, keep, f);
    }
  }

  /**
   * Runs `finalize` on every file in turn, recording which ones it keeps;
   * stops at the first assertion failure.
   */
  method FinalizeEach(fs: seq<File>, chunks: seq<Chunk>, ghost repr: set<File>) returns (failed: bool, keep: seq<bool>)
    requires DistinctInodes(fs)
    requires forall p :: 0 <= p < |fs| ==> fs[p] in repr
    requires forall p :: 0 <= p < |fs| ==> ReadyAs(fs[p], chunks, fs[p].allData, fs[p].allDirents)
    modifies repr
    ensures forall p :: 0 <= p < |fs| ==>
              && fs[p].Valid(chunks)
              && fs[p].allData == old(fs[p].allData)
              && fs[p].allDirents == old(fs[p].allDirents)
    ensures failed <==>
              exists p :: 0 <= p < |fs| &&
                fs[p].FinalizeResult(chunks) == AssertionFailed
    ensures !failed ==> |keep| == |fs|
    ensures !failed ==> forall p :: 0 <= p < |fs| ==>
              (keep[p] <==> fs[p].FinalizeResult(chunks) == Finalized)
    ensures !failed ==> forall p :: 0 <= p < |fs| && keep[p] ==> fs[p].Resolved(chunks)
  {
    keep := [];
    failed := false;
    var j := 0;
    while j < |fs|
      invariant j <= |fs| && |keep| == j
      invariant forall p :: j <= p < |fs| ==> ReadyAs(fs[p], chunks, old(fs[p].allData), old(fs[p].allDirents))
      invariant forall p :: 0 <= p < j ==> DoneAs(fs[p], chunks, old(fs[p].allData), old(fs[p].allDirents), keep[p])
      invariant forall p :: 0 <= p < j ==>
                  var o := fs[p].FinalizeResult(chunks);
                  o != AssertionFailed && (keep[p] <==> o == Finalized)
    {
      var f := fs[j];
      assert forall p :: 0 <= p < |fs| && p != j ==> fs[p] != f;
      var out := FinalizeFresh(f, chunks, f.allData, f.allDirents);
      if out == AssertionFailed {
        failed := true;
        return;
      }
      keep := keep + [out == Finalized];
      j := j + 1;
    }
  }

  /**
   * The erase half of that loop: position i of the shrinking list is erased
   * when its file is not kept, and i only moves past a kept file.
   */
  method EraseDiscarded<T>(xs: seq<T>, keep: seq<bool>) returns (r: seq<T>)
    requires |keep| == |xs|
    ensures r == FilterBy(xs, keep)
  {
    r := xs;
    var i, j := 0, 0;
    ghost var done: seq<T> := [];
    assert xs[..0] == [] && keep[..0] == [];
    while i < |r|
      invariant 0 <= j <= |xs|
      invariant done == FilterBy(xs[..j], keep[..j])
      invariant r == done + xs[j..] && i == |done|
      decreases |xs| - j
    {
      ghost var next := FilterBy(xs[..j + 1], keep[..j + 1]);
      EraseStep(xs, keep, j, done, r);
      if !keep[j] {
        r := r[..i] + r[i + 1..];
      } else {
        i := i + 1;
      }
      done := next;
      j := j + 1;
    }
    assert xs[..j] == xs && keep[..j] == keep;
  }

  /** One step of the erase loop, on the list it walks. */
  lemma EraseStep<T>(xs: seq<T>, keep: seq<bool>, j: nat, done: seq<T>, r: seq<T>)
    requires |keep| == |xs| && j < |xs|
    requires done == FilterBy(xs[..j], keep[..j]) && r == done + xs[j..]
    ensures var next := FilterBy(xs[..j + 1], keep[..j + 1]);
            && |done| < |r|
            && (keep[j] ==> next == done + [xs[j]] && r == next + xs[j + 1..])
            && (!keep[j] ==> next == done && r[..|done|] + r[|done| + 1..] == next + xs[j + 1..])
  {
    assert xs[..j + 1][..j] == xs[..j];
    assert keep[..j + 1][..j] == keep[..j];
    assert xs[j..] == [xs[j]] + xs[j + 1..];
    if !keep[j] {
      assert r[..|done|] == done;
      assert r[|done| + 1..] == xs[j + 1..];
    }
  }

  /** An element survives the filter exactly when some kept position holds it. */
  lemma {:induction false} FilterByKept<T>(xs: seq<T>, keep: seq<bool>, x: T)
    requires |keep| == |xs|
    ensures x in FilterBy(xs, keep) <==> exists p :: 0 <= p < |xs| && keep[p] && xs[p] == x
    decreases |xs|
  {
    if |xs| > 0 {
      var n := |xs| - 1;
      FilterByKept(xs[..n], keep[..n], x);
      if exists p :: 0 <= p < |xs| && keep[p] && xs[p] == x {
        var p :| 0 <= p < |xs| && keep[p] && xs[p] == x;
        if p < n {
          assert xs[..n][p] == x && keep[..n][p];
        }
      }
    }
  }

  /** A file as grouping left it, holding the entries d and e. */
  ghost predicate ReadyAs(f: File, chunks: seq<Chunk>, d: seq<nat>, e: seq<nat>)
    reads f
  {
    f.allData == d && f.allDirents == e && f.Valid(chunks) && f.OwnEntries(chunks) && f.Pristine()
  }

  /** A file `finalize` has been through, still holding d and e, resolved when kept. */
  ghost predicate DoneAs(f: File, chunks: seq<Chunk>, d: seq<nat>, e: seq<nat>, kept: bool)
    reads f
  {
    f.allData == d && f.allDirents == e && f.Valid(chunks) && (kept ==> f.Resolved(chunks))
  }

  /** `finalize` on a file fresh from grouping, holding the entries d and e. */
  method FinalizeFresh(f: File, chunks: seq<Chunk>, ghost d: seq<nat>, ghost e: seq<nat>) returns (out: Outcome)
    requires ReadyAs(f, chunks, d, e)
    modifies f
    ensures DataIndices(chunks, d) && DirentIndices(chunks, e)
    ensures out == FinalizeOutcome(chunks, f.inode, d, e)
    ensures DoneAs(f, chunks, d, e, out == Finalized)
  {
    out := f.Finalize(chunks);
  }

  /** An inode without an attached record among the first n gathers nothing. */
  lemma {:induction false} NoRecordNoEntries(s: seq<Chunk>, n: nat, ino: nat)
    requires n <= |s|
    requires forall k :: 0 <= k < n && Attached(s[k]) ==> s[k].inode != ino
    ensures DataNodesOf(s, n, ino) == [] && DirentsOf(s, n, ino) == []
  {
    if n > 0 {
      NoRecordNoEntries(s, n - 1, ino);
    }
  }

  /** The inodes the files stand for. */
  function Inodes(fs: seq<File>): set<nat>
  {
    set p | 0 <= p < |fs| :: fs[p].inode
  }

  /** The inodes named by the first n records that join a file. */
  function AttachedInodes(s: seq<Chunk>, n: nat): set<nat>
    requires n <= |s|
  {
    set k | 0 <= k < n && Attached(s[k]) :: s[k].inode
  }

  lemma AttachedInodesMeaning(s: seq<Chunk>, n: nat)
    requires n <= |s|
    ensures forall k :: 0 <= k < n && Attached(s[k]) ==> s[k].inode in AttachedInodes(s, n)
  {
  }

  lemma AttachedInodesStep(s: seq<Chunk>, k: nat)
    requires k < |s|
    ensures AttachedInodes(s, k + 1) == AttachedInodes(s, k) + (if Attached(s[k]) then {s[k].inode} else {})
  {
  }

  lemma InodesAppend(fs: seq<File>, f: File)
    ensures Inodes(fs + [f]) == Inodes(fs) + {f.inode}
  {
    var gs := fs + [f];
    assert forall p :: 0 <= p < |fs| ==> gs[p] == fs[p];
    assert gs[|fs|] == f;
  }

  /** No two files share an inode. */
  ghost predicate DistinctInodes(fs: seq<File>)
  {
    forall p, q :: 0 <= p < q < |fs| ==> fs[p].inode != fs[q].inode
  }

  /** The inodes of the files, in file order. */
  function InodeList(fs: seq<File>): (r: seq<nat>)
    ensures |r| == |fs| && forall p :: 0 <= p < |fs| ==> r[p] == fs[p].inode
  {
    seq(|fs|, p requires 0 <= p < |fs| => fs[p].inode)
  }

  lemma InodeListAppend(fs: seq<File>, f: File)
    ensures InodeList(fs + [f]) == InodeList(fs) + [f.inode]
  {
    assert forall p :: 0 <= p < |fs| ==> (fs + [f])[p] == fs[p];
  }

  /**
   * The order in which `addNode` creates files: the root, then each inode
   * at the first of the first n records that is attached to it.
   */
  function FileOrder(s: seq<Chunk>, n: nat): seq<nat>
    requires n <= |s|
    decreases n
  {
    if n == 0 then [1]
    else
      var order := FileOrder(s, n - 1);
      if Attached(s[n - 1]) && s[n - 1].inode !in order then order + [s[n - 1].inode] else order
  }

  /**
   * The root comes first, no inode twice, exactly the root and the inodes
   * of attached records, and an inode listed after another, both past the
   * root, has every attached record preceded by one of the other's.
   */
  lemma {:induction false} FileOrderMeaning(s: seq<Chunk>, n: nat)
    requires n <= |s|
    ensures |FileOrder(s, n)| > 0 && FileOrder(s, n)[0] == 1
    ensures forall p, q :: 0 <= p < q < |FileOrder(s, n)| ==> FileOrder(s, n)[p] != FileOrder(s, n)[q]
    ensures forall x :: x in FileOrder(s, n) <==> x == 1 || x in AttachedInodes(s, n)
    ensures forall p, q, k ::
              (1 <= p < q < |FileOrder(s, n)| && 0 <= k < n && Attached(s[k]) && s[k].inode == FileOrder(s, n)[q]) ==>
              exists j :: 0 <= j < k && Attached(s[j]) && s[j].inode == FileOrder(s, n)[p]
    decreases n
  {
    if n > 0 {
      FileOrderMeaning(s, n - 1);
      AttachedInodesStep(s, n - 1);
      var order, order' := FileOrder(s, n - 1), FileOrder(s, n);
      forall p, q, k | 1 <= p < q < |order'| && 0 <= k < n && Attached(s[k]) && s[k].inode == order'[q]
        ensures exists j :: 0 <= j < k && Attached(s[j]) && s[j].inode == order'[p]
      {
        assert order'[p] == order[p];
        assert order[p] in AttachedInodes(s, n - 1);
        if q < |order| {
          assert order'[q] == order[q];
          if k == n - 1 {
            assert order[q] != 1;
            assert order[q] in AttachedInodes(s, n - 1);
            var k' :| 0 <= k' < n - 1 && Attached(s[k']) && s[k'].inode == order[q];
            var j :| 0 <= j < k' && Attached(s[j]) && s[j].inode == order[p];
          }
        } else {
          assert order'[q] !in order;
          assert k == n - 1;
          var j :| 0 <= j < n - 1 && Attached(s[j]) && s[j].inode == order[p];
        }
      }
    }
  }

  /** The entry at the chosen position, or `otherwise` when none was chosen. */
  function Chosen(ds: seq<nat>, choice: Option<nat>, otherwise: Option<nat>): Option<nat>
    requires choice.Some? ==> choice.value < |ds|
  {
    match choice
    case None => otherwise
    case Some(p) => Some(ds[p])
  }
}
