/**
 * The records of a dump (src/ChunkModel.cpp, src/ChunkModel.hpp): free-space
 * extents, data nodes and directory-entry nodes, the classification of a dump
 * line by its prefix, and the flash pages a node occupies.
 *
 * The class hierarchy Chunk > Node > DataNode / DirentNode only tags the kind
 * of a record, so it becomes one datatype with three variants. The fields the
 * regular expressions scrape out of a line are taken as given (`Fields`).
 */
module ChunkModel {
  import opened Wrappers
  import FlashAddr
  import Arith

  /** `chunk_type`. */
  datatype ChunkType = FreeSpaceType | DataNodeType | DirentNodeType

  datatype Chunk =
    | FreeSpace(start: nat, end: nat)
    | DataNode(flashOffset: nat, flashSize: nat, inode: nat, version: nat,
               fileSize: nat, compressedSize: nat, dataSize: nat, dataOffset: nat)
    | Dirent(flashOffset: nat, flashSize: nat, inode: nat, version: nat,
             parentInode: nat, nameSize: int, name: string)
  {
    /** `Chunk::getType`. */
    function Type(): ChunkType
    {
      match this
      case FreeSpace(_, _) => FreeSpaceType
      case DataNode(_, _, _, _, _, _, _, _) => DataNodeType
      case Dirent(_, _, _, _, _, _, _) => DirentNodeType
    }
  }

  const FreeSpacePrefix: string := "Empty space"
  const DataNodePrefix: string := "         Inode"
  const DirentNodePrefix: string := "         Dirent"

  /** `line.compare(0, prefix.size(), prefix) == 0`. */
  predicate StartsWith(line: string, prefix: string)
  {
    |prefix| <= |line| && line[..|prefix|] == prefix
  }

  /** No line starts with two of the three record prefixes. */
  lemma PrefixesExclusive(line: string)
    ensures !(StartsWith(line, FreeSpacePrefix) && StartsWith(line, DataNodePrefix))
    ensures !(StartsWith(line, FreeSpacePrefix) && StartsWith(line, DirentNodePrefix))
    ensures !(StartsWith(line, DataNodePrefix) && StartsWith(line, DirentNodePrefix))
  {
    if StartsWith(line, FreeSpacePrefix) {
      assert line[0] == FreeSpacePrefix[0] == 'E';
    }
    if StartsWith(line, DataNodePrefix) {
      assert line[0] == DataNodePrefix[0] == ' ';
      assert line[9] == DataNodePrefix[9] == 'I';
    }
    if StartsWith(line, DirentNodePrefix) {
      assert line[0] == DirentNodePrefix[0] == ' ';
      assert line[9] == DirentNodePrefix[9] == 'D';
    }
  }

  /**
   * `Chunk::build`: the kind of record a dump line describes, tried in the
   * order free space, data node, directory entry; None where the source
   * reports that it cannot build a chunk from the line.
   */
  function Classify(line: string): (r: Option<ChunkType>)
    ensures r == Some(FreeSpaceType) <==> StartsWith(line, FreeSpacePrefix)
    ensures r == Some(DataNodeType) <==> StartsWith(line, DataNodePrefix)
    ensures r == Some(DirentNodeType) <==> StartsWith(line, DirentNodePrefix)
    ensures r == None <==> !StartsWith(line, FreeSpacePrefix) &&
                           !StartsWith(line, DataNodePrefix) &&
                           !StartsWith(line, DirentNodePrefix)
  {
    PrefixesExclusive(line);
    if StartsWith(line, FreeSpacePrefix) then
      Some(FreeSpaceType)
    else if StartsWith(line, DataNodePrefix) then
      Some(DataNodeType)
    else if StartsWith(line, DirentNodePrefix) then
      Some(DirentNodeType)
    else
      None
  }

  /**
   * The values the regular expressions of the three `build` methods extract
   * from a line, before the partition offset is added.
   */
  datatype Fields = Fields(
    startOffset: nat, endOffset: nat,
    flashOffset: nat, flashSize: nat, inode: nat, version: nat,
    fileSize: nat, compressedSize: nat, dataSize: nat, dataOffset: nat,
    parentInode: nat, nameSize: int, name: string)

  /**
   * `FreeSpaceChunk::build`, `DataNode::build` and `DirentNode::build` once the
   * fields are extracted: every on-flash offset is shifted by the partition
   * offset, every other field is stored as read.
   */
  function Build(g: FlashAddr.Geometry, kind: ChunkType, f: Fields): (c: Chunk)
    requires FlashAddr.Initialised(g) && g.partitionOffset >= 0
    ensures c.Type() == kind
    ensures c.FreeSpace? ==> c.start == f.startOffset + g.partitionOffset &&
                             c.end == f.endOffset + g.partitionOffset
    ensures !c.FreeSpace? ==> c.flashOffset == f.flashOffset + g.partitionOffset &&
                              c.flashSize == f.flashSize && c.inode == f.inode &&
                              c.version == f.version
    ensures c.DataNode? ==> c.fileSize == f.fileSize && c.dataSize == f.dataSize &&
                            c.dataOffset == f.dataOffset &&
                            c.compressedSize == f.compressedSize
    ensures c.Dirent? ==> c.parentInode == f.parentInode && c.name == f.name &&
                          c.nameSize == f.nameSize
  {
    var po := g.partitionOffset;
    match kind
    case FreeSpaceType =>
      FreeSpace(f.startOffset + po, f.endOffset + po)
    case DataNodeType =>
      DataNode(f.flashOffset + po, f.flashSize, f.inode, f.version,
               f.fileSize, f.compressedSize, f.dataSize, f.dataOffset)
    case DirentNodeType =>
      Dirent(f.flashOffset + po, f.flashSize, f.inode, f.version,
             f.parentInode, f.nameSize, f.name)
  }

  /**
   * The flash pages holding the bytes [offset, offset + size): a run of
   * consecutive page indices from the page of the first byte to the page of
   * the last one.
   */
  function PageSpan(g: FlashAddr.Geometry, offset: nat, size: nat): (r: seq<int>)
    requires FlashAddr.Paged(g) && size > 0
    ensures |r| >= 1
    ensures r[0] == FlashAddr.Page(g, offset)
    ensures r[|r| - 1] == FlashAddr.Page(g, offset + size - 1)
    ensures forall i :: 0 <= i < |r| ==> r[i] == r[0] + i
  {
    var first := offset / g.pageSize;
    var last := (offset + size - 1) / g.pageSize;
    FlashAddr.PageMonotone(g, offset, offset + size - 1);
    seq(last - first + 1, i => first + i)
  }

  /** A page is in the span exactly when one of the node's bytes lies in it. */
  lemma PageSpanExact(g: FlashAddr.Geometry, offset: nat, size: nat, p: int)
    requires FlashAddr.Paged(g) && size > 0
    ensures p in PageSpan(g, offset, size) <==>
            exists b :: offset <= b < offset + size && FlashAddr.Page(g, b) == p
  {
    var span := PageSpan(g, offset, size);
    var first, last := span[0], span[|span| - 1];
    if p in span {
      var i :| 0 <= i < |span| && span[i] == p;
      if p == first {
        assert FlashAddr.Page(g, offset) == p;
      } else {
        var b := p * g.pageSize;
        FlashAddr.PageOfPageStart(g, p);
        Arith.MulMonotone(first + 1, p, g.pageSize);
        Arith.MulMonotone(p, last, g.pageSize);
        assert offset < b < offset + size;
        assert FlashAddr.Page(g, b) == p;
      }
    }
    if exists b :: offset <= b < offset + size && FlashAddr.Page(g, b) == p {
      var b :| offset <= b < offset + size && FlashAddr.Page(g, b) == p;
      FlashAddr.PageMonotone(g, offset, b);
      FlashAddr.PageMonotone(g, b, offset + size - 1);
      assert span[p - first] == p;
    }
  }

  /**
   * `Node::getConcernedPagesIndexes`: the pages the node occupies on flash,
   * built one index at a time. The source asserts a non-zero flash size.
   */
  method ConcernedPagesIndexes(g: FlashAddr.Geometry, n: Chunk) returns (pages: seq<int>)
    requires FlashAddr.Paged(g) && !n.FreeSpace? && n.flashSize != 0
    ensures pages == PageSpan(g, n.flashOffset, n.flashSize)
  {
    var first := n.flashOffset / g.pageSize;
    var last := (n.flashOffset + n.flashSize - 1) / g.pageSize;
    var total := last - first + 1;
    ghost var span := PageSpan(g, n.flashOffset, n.flashSize);
    assert total == |span|;
    pages := [];
    for i := 0 to total
      invariant pages == span[..i]
    {
      pages := pages + [first + i];
    }
  }

  /**
   * `DataNode::getConcernedPageAtOffset`: the flash page of the byte at
   * `offset` within the node's data; the source asserts offset < dataSize.
   */
  function ConcernedPageAtOffset(g: FlashAddr.Geometry, dn: Chunk, offset: nat): (p: nat)
    requires FlashAddr.Paged(g) && dn.DataNode? && offset < dn.dataSize
    ensures p * g.pageSize <= dn.flashOffset + offset < (p + 1) * g.pageSize
    ensures p >= FlashAddr.Page(g, dn.flashOffset)
  {
    FlashAddr.PageMonotone(g, dn.flashOffset, dn.flashOffset + offset);
    (dn.flashOffset + offset) / g.pageSize
  }
}
