/**
 * Flash address arithmetic (src/FlashAddr.cpp).
 *
 * The source keeps the geometry in three static fields that start at -1 and
 * are written once by `init`. Here the geometry is an explicit value that is
 * passed to every computation; -1 in a field still means "not initialised".
 */
module FlashAddr {
  import opened Wrappers
  import Arith

  datatype Geometry = Geometry(pageSize: int, pagesPerBlock: int, partitionOffset: int)

  /** The geometry before `init` has been called. */
  const Unset: Geometry := Geometry(-1, -1, -1)

  /** Two-argument `init`: the partition offset becomes 0. */
  function Init(pageSize: int, pagesPerBlock: int): (g: Geometry)
    ensures g == InitWithOffset(pageSize, pagesPerBlock, 0)
    ensures Initialised(g) <==> pageSize != -1 && pagesPerBlock != -1
  {
    Geometry(pageSize, pagesPerBlock, 0)
  }

  /** Three-argument `init`: all three values are stored unchanged. */
  function InitWithOffset(pageSize: int, pagesPerBlock: int, partitionOffset: int): (g: Geometry)
    ensures g.pageSize == pageSize && g.pagesPerBlock == pagesPerBlock
    ensures g.partitionOffset == partitionOffset
  {
    Geometry(pageSize, pagesPerBlock, partitionOffset)
  }

  /** The check made by the offset constructor before it accepts an address. */
  predicate Initialised(g: Geometry)
  {
    g.pageSize != -1 && g.pagesPerBlock != -1
  }

  /** A geometry the page computations below are defined for. */
  predicate Paged(g: Geometry)
  {
    g.pageSize > 0
  }

  /** A geometry the block computations below are defined for as well. */
  predicate Usable(g: Geometry)
  {
    Paged(g) && g.pagesPerBlock > 0
  }

  datatype Addr = Addr(offset: nat)

  datatype ConfigError = GeometryNotInitialised

  /**
   * The offset constructor: without a geometry the source prints an error
   * and exits the process; here that is the error result.
   */
  function NewAddr(g: Geometry, offset: nat): (r: Result<Addr, ConfigError>)
    ensures r.Ok? <==> Initialised(g)
    ensures r.Ok? ==> r.value.offset == offset
    ensures g == Unset ==> r == Err(GeometryNotInitialised)
  {
    if g.pageSize == -1 || g.pagesPerBlock == -1 then Err(GeometryNotInitialised)
    else Ok(Addr(offset))
  }

  /** `getFlashPage`: the index of the flash page holding the byte. */
  function Page(g: Geometry, offset: nat): (p: nat)
    requires Paged(g)
    ensures p * g.pageSize <= offset < (p + 1) * g.pageSize
  {
    offset / g.pageSize
  }

  /** `getByteOffsetInPage`. */
  function ByteInPage(g: Geometry, offset: nat): (b: nat)
    requires Paged(g)
    ensures b < g.pageSize
    ensures Page(g, offset) * g.pageSize + b == offset
  {
    offset % g.pageSize
  }

  /** `getFlashBlock`. */
  function Block(g: Geometry, offset: nat): (b: nat)
    requires Usable(g)
    ensures b * g.pagesPerBlock <= Page(g, offset) < (b + 1) * g.pagesPerBlock
  {
    (offset / g.pageSize) / g.pagesPerBlock
  }

  /** `getOffsetOfPageInBlock`. */
  function PageInBlock(g: Geometry, offset: nat): (p: nat)
    requires Usable(g)
    ensures p < g.pagesPerBlock
    ensures Block(g, offset) * g.pagesPerBlock + p == Page(g, offset)
  {
    (offset / g.pageSize) % g.pagesPerBlock
  }

  /** `isStartOfAPage`. */
  function IsStartOfAPage(g: Geometry, offset: nat): (r: bool)
    requires Paged(g)
    ensures r <==> ByteInPage(g, offset) == 0
    ensures r <==> offset == Page(g, offset) * g.pageSize
  {
    offset % g.pageSize == 0
  }

  /**
   * `isStartOfABlock`: a block starts exactly where a page starts that is
   * the first page of its block.
   */
  function IsStartOfABlock(g: Geometry, offset: nat): (r: bool)
    requires Usable(g)
    ensures r <==> IsStartOfAPage(g, offset) && PageInBlock(g, offset) == 0
  {
    Arith.MultipleOfProduct(offset, g.pageSize, g.pagesPerBlock);
    offset % (g.pagesPerBlock * g.pageSize) == 0
  }

  /** `getFlashPage` is monotonic in the offset. */
  lemma PageMonotone(g: Geometry, a: nat, b: nat)
    requires Paged(g) && a <= b
    ensures Page(g, a) <= Page(g, b)
  {
    var pa, pb := Page(g, a), Page(g, b);
    assert pa * g.pageSize < (pb + 1) * g.pageSize;
    assert ((pb + 1) - pa) * g.pageSize == (pb + 1) * g.pageSize - pa * g.pageSize;
    Arith.MultipleBounds((pb + 1) - pa, g.pageSize);
  }

  /** The first byte of page p lies in page p. */
  lemma PageOfPageStart(g: Geometry, p: nat)
    requires Paged(g)
    ensures Page(g, p * g.pageSize) == p
  {
    Arith.MulDivExact(p, g.pageSize);
  }
}
