/**
 * What the reconstruction engine of src/File.cpp computes, as functions of
 * the record sequence. A file refers to its records by their index in that
 * sequence; `nodes` is a file's list of data-node indices, `ds` its list of
 * directory-entry indices.
 */
module Resolution {
  import opened Wrappers
  import opened ChunkModel
  import ChunkOrder

  ghost predicate DataIndices(chunks: seq<Chunk>, nodes: seq<nat>)
  {
    forall q :: 0 <= q < |nodes| ==> nodes[q] < |chunks| && chunks[nodes[q]].DataNode?
  }

  ghost predicate DirentIndices(chunks: seq<Chunk>, ds: seq<nat>)
  {
    forall q :: 0 <= q < |ds| ==> ds[q] < |chunks| && chunks[ds[q]].Dirent?
  }

  /** The listed nodes are in non-increasing version order. */
  ghost predicate VersionsDescending(chunks: seq<Chunk>, nodes: seq<nat>)
    requires DataIndices(chunks, nodes)
  {
    forall p, q :: 0 <= p < q < |nodes| ==> chunks[nodes[p]].version >= chunks[nodes[q]].version
  }

  /** No two listed nodes share a version. */
  ghost predicate DistinctVersions(chunks: seq<Chunk>, nodes: seq<nat>)
    requires DataIndices(chunks, nodes)
  {
    forall p, q :: 0 <= p < q < |nodes| ==> chunks[nodes[p]].version != chunks[nodes[q]].version
  }

  // ---------------------------------------------------------------- coverage

  const U64Max: nat := 0xFFFF_FFFF_FFFF_FFFF

  /**
   * `data_node_start_offset + cur->getDataSize() - 1`, computed in uint64:
   * the subtraction wraps to the largest value when start and size are 0.
   */
  function LastCoveredOffset(dn: Chunk): nat
    requires dn.DataNode?
  {
    if dn.dataOffset + dn.dataSize == 0 then U64Max else dn.dataOffset + dn.dataSize - 1
  }

  /**
   * The coverage test of `getValidDataNodeAtOffset`. A node with data covers
   * its byte range; a node without data covers nothing, except at offset 0,
   * where the wrap makes it cover every offset.
   */
  function Covers(dn: Chunk, offset: nat): (r: bool)
    requires dn.DataNode?
    ensures dn.dataSize > 0 ==> (r <==> dn.dataOffset <= offset < dn.dataOffset + dn.dataSize)
    ensures dn.dataSize == 0 && dn.dataOffset > 0 ==> !r
    ensures dn.dataSize == 0 && dn.dataOffset == 0 ==> (r <==> offset <= U64Max)
  {
    dn.dataOffset <= offset <= LastCoveredOffset(dn)
  }

  /** The position in `nodes` of the first node covering `offset`. */
  function CoveringPos(chunks: seq<Chunk>, nodes: seq<nat>, offset: nat): (r: Option<nat>)
    requires DataIndices(chunks, nodes)
    ensures r.Some? ==> r.value < |nodes| && Covers(chunks[nodes[r.value]], offset)
    ensures r.Some? ==> forall q :: 0 <= q < r.value ==> !Covers(chunks[nodes[q]], offset)
    ensures r.None? <==> forall q :: 0 <= q < |nodes| ==> !Covers(chunks[nodes[q]], offset)
    decreases |nodes|
  {
    if |nodes| == 0 then None
    else if Covers(chunks[nodes[0]], offset) then Some(0)
    else
      match CoveringPos(chunks, nodes[1..], offset)
      case None => None
      case Some(p) => Some(p + 1)
  }

  /**
   * The data node `getValidDataNodeAtOffset` returns: the first covering
   * node, provided its version is not 0. None is where the source's
   * assertion fails (a hole in the file).
   */
  function Resolve(chunks: seq<Chunk>, nodes: seq<nat>, offset: nat): (r: Option<nat>)
    requires DataIndices(chunks, nodes)
    ensures r.Some? ==> r.value in nodes && r.value < |chunks| && chunks[r.value].DataNode?
    ensures r.Some? ==> Covers(chunks[r.value], offset) && chunks[r.value].version > 0
  {
    match CoveringPos(chunks, nodes, offset)
    case None => None
    case Some(p) => if chunks[nodes[p]].version == 0 then None else Some(nodes[p])
  }

  /**
   * On a version-descending list the resolved node covers the offset and is
   * the most recent of the nodes that do; a hole is an offset that no node of
   * positive version covers.
   */
  lemma ResolveIsLatestCovering(chunks: seq<Chunk>, nodes: seq<nat>, offset: nat)
    requires DataIndices(chunks, nodes) && VersionsDescending(chunks, nodes)
    ensures Resolve(chunks, nodes, offset).Some? ==>
              var k := Resolve(chunks, nodes, offset).value;
              Covers(chunks[k], offset) && chunks[k].version > 0 &&
              forall q :: 0 <= q < |nodes| && Covers(chunks[nodes[q]], offset) ==>
                chunks[nodes[q]].version <= chunks[k].version
    ensures Resolve(chunks, nodes, offset).None? <==>
              forall q :: 0 <= q < |nodes| && Covers(chunks[nodes[q]], offset) ==>
                chunks[nodes[q]].version == 0
  {
  }

  // ------------------------------------------------------ most recent node

  /** The position of the first node with a positive version. */
  function FirstPositivePos(chunks: seq<Chunk>, nodes: seq<nat>): (r: Option<nat>)
    requires DataIndices(chunks, nodes)
    ensures r.Some? ==> r.value < |nodes| && chunks[nodes[r.value]].version > 0
    ensures r.Some? ==> forall q :: 0 <= q < r.value ==> chunks[nodes[q]].version == 0
    ensures r.None? <==> forall q :: 0 <= q < |nodes| ==> chunks[nodes[q]].version == 0
    decreases |nodes|
  {
    if |nodes| == 0 then None
    else if chunks[nodes[0]].version > 0 then Some(0)
    else
      match FirstPositivePos(chunks, nodes[1..])
      case None => None
      case Some(p) => Some(p + 1)
  }

  /**
   * On a version-descending list the first node with a positive version is
   * the one with the greatest version.
   */
  lemma FirstPositiveIsMostRecent(chunks: seq<Chunk>, nodes: seq<nat>)
    requires DataIndices(chunks, nodes) && VersionsDescending(chunks, nodes)
    ensures FirstPositivePos(chunks, nodes).Some? <==> |nodes| > 0 && chunks[nodes[0]].version > 0
    ensures FirstPositivePos(chunks, nodes).Some? ==>
              forall q :: 0 <= q < |nodes| ==>
                chunks[nodes[q]].version <= chunks[nodes[FirstPositivePos(chunks, nodes).value]].version
  {
  }

  /**
   * The size `getSize` reports for a file that is not deleted: the file size
   * recorded in its first data node of positive version; None where the
   * source's assertion fails.
   */
  function FileSize(chunks: seq<Chunk>, nodes: seq<nat>): (r: Option<nat>)
    requires DataIndices(chunks, nodes)
    ensures r.None? <==> FirstPositivePos(chunks, nodes).None?
  {
    match FirstPositivePos(chunks, nodes)
    case None => None
    case Some(p) => Some(chunks[nodes[p]].fileSize)
  }

  // -------------------------------------------------- latest directory entry

  /**
   * The selection loop of `set_valid_dirent`: a running "last version"
   * starting at `above`, replaced by every entry strictly greater. The result
   * is the position of the earliest greatest entry above the threshold.
   */
  function EarliestMaxAbove(vs: seq<nat>, above: nat): (r: Option<nat>)
    ensures r.None? <==> forall q :: 0 <= q < |vs| ==> vs[q] <= above
    ensures r.Some? ==> r.value < |vs| && vs[r.value] > above
    ensures r.Some? ==> forall q :: 0 <= q < |vs| ==> vs[q] <= vs[r.value]
    ensures r.Some? ==> forall q :: 0 <= q < r.value ==> vs[q] < vs[r.value]
    decreases |vs|
  {
    if |vs| == 0 then None
    else
      var prev := EarliestMaxAbove(vs[..|vs| - 1], above);
      if vs[|vs| - 1] > RunningMax(vs, prev, above) then Some(|vs| - 1) else prev
  }

  /** The running "last version" of the loop: the threshold or the chosen entry. */
  function RunningMax(vs: seq<nat>, chosen: Option<nat>, above: nat): nat
    requires chosen.Some? ==> chosen.value < |vs|
  {
    match chosen
    case None => above
    case Some(p) => vs[p]
  }

  /** One more iteration of the selection loop. */
  lemma EarliestMaxStep(vs: seq<nat>, i: nat, above: nat)
    requires i < |vs|
    ensures var prev := EarliestMaxAbove(vs[..i], above);
            var run := RunningMax(vs[..i], prev, above);
            && EarliestMaxAbove(vs[..i + 1], above) == (if vs[i] > run then Some(i) else prev)
            && RunningMax(vs[..i + 1], EarliestMaxAbove(vs[..i + 1], above), above) ==
               (if vs[i] > run then vs[i] else run)
  {
    assert vs[..i + 1][..i] == vs[..i];
  }

  /** The versions of the listed directory entries. */
  function DirentVersions(chunks: seq<Chunk>, ds: seq<nat>): (vs: seq<nat>)
    requires DirentIndices(chunks, ds)
    ensures |vs| == |ds| && forall q :: 0 <= q < |ds| ==> vs[q] == chunks[ds[q]].version
  {
    seq(|ds|, q requires 0 <= q < |ds| => chunks[ds[q]].version)
  }

  /** A file is an orphan when no entry of its own has a positive version. */
  ghost predicate Orphan(chunks: seq<Chunk>, ds: seq<nat>)
    requires DirentIndices(chunks, ds)
  {
    forall q :: 0 <= q < |ds| ==> chunks[ds[q]].version == 0
  }

  /** The file's own entry with the greatest version, the earliest on ties. */
  function LatestDirent(chunks: seq<Chunk>, ds: seq<nat>): (r: Option<nat>)
    requires DirentIndices(chunks, ds)
    ensures r.None? <==> Orphan(chunks, ds)
    ensures r.Some? ==> exists p :: 0 <= p < |ds| && ds[p] == r.value &&
                          EarliestMaxAbove(DirentVersions(chunks, ds), 0) == Some(p)
  {
    match EarliestMaxAbove(DirentVersions(chunks, ds), 0)
    case None => None
    case Some(p) => Some(ds[p])
  }

  /** An entry of inode 0 naming `name`: a deletion tombstone for that name. */
  predicate IsTombstoneFor(c: Chunk, name: string)
  {
    c.Dirent? && c.inode == 0 && c.name == name
  }

  /** Tombstone versions for `name`, and 0 in every other slot. */
  function TombstoneVersions(chunks: seq<Chunk>, name: string): (vs: seq<nat>)
    ensures |vs| == |chunks|
    ensures forall k :: 0 <= k < |chunks| ==>
              vs[k] == if IsTombstoneFor(chunks[k], name) then chunks[k].version else 0
  {
    seq(|chunks|, k requires 0 <= k < |chunks| =>
          if IsTombstoneFor(chunks[k], name) then chunks[k].version else 0)
  }

  /**
   * The tombstone scan of `set_valid_dirent`: over the whole record sequence,
   * the tombstone for `name` adopted last, i.e. the earliest one with the
   * greatest version above `above`; None when there is none.
   */
  function LatestTombstone(chunks: seq<Chunk>, name: string, above: nat): (r: Option<nat>)
    ensures r.None? <==> forall k :: 0 <= k < |chunks| && IsTombstoneFor(chunks[k], name) ==>
                                       chunks[k].version <= above
    ensures r.Some? ==> r.value < |chunks| && IsTombstoneFor(chunks[r.value], name) &&
                        chunks[r.value].version > above
    ensures r.Some? ==> forall k :: 0 <= k < |chunks| && IsTombstoneFor(chunks[k], name) ==>
                          chunks[k].version <= chunks[r.value].version
  {
    var vs := TombstoneVersions(chunks, name);
    var r := EarliestMaxAbove(vs, above);
    if r.Some? then
      assert vs[r.value] > above;
      assert forall k :: 0 <= k < |chunks| && IsTombstoneFor(chunks[k], name) ==>
               vs[k] == chunks[k].version;
      r
    else
      assert forall k :: 0 <= k < |chunks| && IsTombstoneFor(chunks[k], name) ==>
               vs[k] == chunks[k].version;
      r
  }

  // ---------------------------------------------------- valid data nodes

  /** Some listed node has version v. */
  predicate HasVersion(chunks: seq<Chunk>, nodes: seq<nat>, v: nat)
    requires DataIndices(chunks, nodes)
  {
    exists q :: 0 <= q < |nodes| && chunks[nodes[q]].version == v
  }

  /** The node list after `addValidDataNodeIfNotAlreadyPresent`. */
  function AddByVersion(chunks: seq<Chunk>, valid: seq<nat>, k: nat): (r: seq<nat>)
    requires DataIndices(chunks, valid) && k < |chunks| && chunks[k].DataNode?
    ensures DataIndices(chunks, r)
    ensures r == valid <==> HasVersion(chunks, valid, chunks[k].version)
    ensures r != valid ==> r == valid + [k]
    ensures DistinctVersions(chunks, valid) ==> DistinctVersions(chunks, r)
  {
    if HasVersion(chunks, valid, chunks[k].version) then valid
    else valid + [k]
  }

  /** Every offset in [from, to) resolves to a node (no hole). */
  ghost predicate Resolvable(chunks: seq<Chunk>, nodes: seq<nat>, from: nat, to: nat)
    requires DataIndices(chunks, nodes)
  {
    forall i :: from <= i < to ==> Resolve(chunks, nodes, i).Some?
  }

  /** The node each offset of [from, to) resolves to, in offset order. */
  function Resolutions(chunks: seq<Chunk>, nodes: seq<nat>, from: nat, to: nat): (rs: seq<nat>)
    requires DataIndices(chunks, nodes) && from <= to && Resolvable(chunks, nodes, from, to)
    ensures |rs| == to - from && DataIndices(chunks, rs)
    ensures forall j :: 0 <= j < to - from ==> Resolve(chunks, nodes, from + j) == Some(rs[j])
  {
    seq(to - from, j requires 0 <= j < to - from => Resolve(chunks, nodes, from + j).value)
  }

  /** Resolving one more offset appends its node. */
  lemma ResolutionsSnoc(chunks: seq<Chunk>, nodes: seq<nat>, from: nat, to: nat)
    requires DataIndices(chunks, nodes) && from <= to && Resolvable(chunks, nodes, from, to + 1)
    ensures Resolutions(chunks, nodes, from, to + 1) ==
            Resolutions(chunks, nodes, from, to) + [Resolve(chunks, nodes, to).value]
  {
  }

  /** The list `init` after offering each of `rs`, in order, to `AddByVersion`. */
  function Collect(chunks: seq<Chunk>, init: seq<nat>, rs: seq<nat>): (r: seq<nat>)
    requires DataIndices(chunks, init) && DataIndices(chunks, rs)
    ensures DataIndices(chunks, r) && init <= r
    ensures DistinctVersions(chunks, init) ==> DistinctVersions(chunks, r)
    ensures forall q :: |init| <= q < |r| ==> r[q] in rs
    decreases |rs|
  {
    if |rs| == 0 then init
    else AddByVersion(chunks, Collect(chunks, init, rs[..|rs| - 1]), rs[|rs| - 1])
  }

  /**
   * `_valid_data_nodes` after `set_valid_datanodes` scanned offsets 0 .. n-1
   * on a file with no valid node yet: the resolved nodes, each added unless
   * one with its version is present.
   */
  function ValidNodes(chunks: seq<Chunk>, nodes: seq<nat>, n: nat): (r: seq<nat>)
    requires DataIndices(chunks, nodes) && Resolvable(chunks, nodes, 0, n)
    ensures DataIndices(chunks, r) && DistinctVersions(chunks, r)
    ensures forall q :: 0 <= q < |r| ==> r[q] in nodes
  {
    Collect(chunks, [], Resolutions(chunks, nodes, 0, n))
  }

  /** Offering more nodes only appends: the list for a prefix is a prefix. */
  lemma {:induction false} CollectPrefix(chunks: seq<Chunk>, init: seq<nat>, rs: seq<nat>, m: nat)
    requires DataIndices(chunks, init) && DataIndices(chunks, rs) && m <= |rs|
    ensures Collect(chunks, init, rs[..m]) <= Collect(chunks, init, rs)
    decreases |rs|
  {
    if m < |rs| {
      var rs' := rs[..|rs| - 1];
      assert rs'[..m] == rs[..m];
      CollectPrefix(chunks, init, rs', m);
    } else {
      assert rs[..m] == rs;
    }
  }

  /** A version present in a list is present in any extension of it. */
  lemma HasVersionExtends(chunks: seq<Chunk>, a: seq<nat>, b: seq<nat>, v: nat)
    requires DataIndices(chunks, b) && a <= b && HasVersion(chunks, a, v)
    ensures HasVersion(chunks, b, v)
  {
    var q :| 0 <= q < |a| && chunks[a[q]].version == v;
    assert b[q] == a[q];
  }

  /** Every offered node is represented by a collected node of the same version. */
  lemma {:induction false} CollectComplete(chunks: seq<Chunk>, init: seq<nat>, rs: seq<nat>)
    requires DataIndices(chunks, init) && DataIndices(chunks, rs)
    ensures forall i :: 0 <= i < |rs| ==> HasVersion(chunks, Collect(chunks, init, rs), chunks[rs[i]].version)
    decreases |rs|
  {
    if |rs| > 0 {
      var rs' := rs[..|rs| - 1];
      CollectComplete(chunks, init, rs');
      var prev := Collect(chunks, init, rs');
      var r := Collect(chunks, init, rs);
      assert r == AddByVersion(chunks, prev, rs[|rs| - 1]);
      forall i | 0 <= i < |rs|
        ensures HasVersion(chunks, r, chunks[rs[i]].version)
      {
        if i < |rs| - 1 {
          assert rs[i] == rs'[i];
          HasVersionExtends(chunks, prev, r, chunks[rs[i]].version);
        } else if r != prev {
          assert r[|prev|] == rs[i];
        }
      }
    }
  }

  /**
   * Starting from an empty list, the collected nodes are in order of first
   * appearance: any offer of the version of entry q comes after an offer of
   * entry p < q.
   */
  lemma CollectFirstAppearance(chunks: seq<Chunk>, rs: seq<nat>, p: nat, q: nat, i: nat)
    requires DataIndices(chunks, rs)
    requires p < q < |Collect(chunks, [], rs)| && i < |rs|
    requires chunks[rs[i]].version == chunks[Collect(chunks, [], rs)[q]].version
    ensures exists j :: 0 <= j < i && rs[j] == Collect(chunks, [], rs)[p]
  {
    var r := Collect(chunks, [], rs);
    CollectedByOffer(chunks, rs, i, p, q);
    assert r[p] != rs[i] by {
      if r[p] == rs[i] {
        DistinctAt(chunks, r, p, q);
      }
    }
    EarlierOffer(rs, i, r[p]);
  }

  /** A node among the first i+1 offers that is not offer i is among the first i. */
  lemma EarlierOffer(rs: seq<nat>, i: nat, x: nat)
    requires i < |rs| && x in rs[..i + 1] && x != rs[i]
    ensures exists j :: 0 <= j < i && rs[j] == x
  {
    var j :| 0 <= j < i + 1 && rs[..i + 1][j] == x;
    assert rs[j] == x;
  }

  /**
   * Once offer i is made, every collected entry up to the one carrying its
   * version is already present, so it came from the first i+1 offers.
   */
  lemma CollectedByOffer(chunks: seq<Chunk>, rs: seq<nat>, i: nat, p: nat, q: nat)
    requires DataIndices(chunks, rs)
    requires p <= q < |Collect(chunks, [], rs)| && i < |rs|
    requires chunks[rs[i]].version == chunks[Collect(chunks, [], rs)[q]].version
    ensures Collect(chunks, [], rs)[p] in rs[..i + 1]
  {
    VersionCollectedByOffer(chunks, rs, i, q);
    CollectPrefix(chunks, [], rs, i + 1);
    assert Collect(chunks, [], rs)[p] == Collect(chunks, [], rs[..i + 1])[p];
  }

  /** The collected entry carrying the version of offer i is present once offer i is made. */
  lemma VersionCollectedByOffer(chunks: seq<Chunk>, rs: seq<nat>, i: nat, q: nat)
    requires DataIndices(chunks, rs)
    requires q < |Collect(chunks, [], rs)| && i < |rs|
    requires chunks[rs[i]].version == chunks[Collect(chunks, [], rs)[q]].version
    ensures q < |Collect(chunks, [], rs[..i + 1])|
  {
    var r := Collect(chunks, [], rs);
    var pre := rs[..i + 1];
    var w := Collect(chunks, [], pre);
    CollectPrefix(chunks, [], rs, i + 1);
    CollectComplete(chunks, [], pre);
    assert pre[i] == rs[i];
    var q' :| 0 <= q' < |w| && chunks[w[q']].version == chunks[pre[i]].version;
    assert r[q'] == w[q'];
    SameVersionSamePos(chunks, r, q', q);
  }

  /** In a list of distinct versions, two positions hold different versions. */
  lemma DistinctAt(chunks: seq<Chunk>, r: seq<nat>, p: nat, q: nat)
    requires DataIndices(chunks, r) && DistinctVersions(chunks, r)
    requires p < |r| && q < |r| && p != q
    ensures chunks[r[p]].version != chunks[r[q]].version
  {
    if q < p {
      assert chunks[r[q]].version != chunks[r[p]].version;
    }
  }

  /** In a list of distinct versions, a version fixes the position. */
  lemma SameVersionSamePos(chunks: seq<Chunk>, r: seq<nat>, p: nat, q: nat)
    requires DataIndices(chunks, r) && DistinctVersions(chunks, r)
    requires p < |r| && q < |r| && chunks[r[p]].version == chunks[r[q]].version
    ensures p == q
  {
    if p != q {
      DistinctAt(chunks, r, p, q);
    }
  }

  /** Every valid node is the node some scanned offset resolved to. */
  lemma ValidNodesSound(chunks: seq<Chunk>, nodes: seq<nat>, n: nat)
    requires DataIndices(chunks, nodes) && Resolvable(chunks, nodes, 0, n)
    ensures forall q :: 0 <= q < |ValidNodes(chunks, nodes, n)| ==>
              exists i :: 0 <= i < n && Resolve(chunks, nodes, i) == Some(ValidNodes(chunks, nodes, n)[q])
  {
    var rs := Resolutions(chunks, nodes, 0, n);
    var r := ValidNodes(chunks, nodes, n);
    forall q | 0 <= q < |r|
      ensures exists i :: 0 <= i < n && Resolve(chunks, nodes, i) == Some(r[q])
    {
      assert r[q] in rs;
      var i :| 0 <= i < |rs| && rs[i] == r[q];
    }
  }

  /** The version every scanned offset resolves to is represented. */
  lemma ValidNodesComplete(chunks: seq<Chunk>, nodes: seq<nat>, n: nat, i: nat)
    requires DataIndices(chunks, nodes) && Resolvable(chunks, nodes, 0, n) && i < n
    ensures HasVersion(chunks, ValidNodes(chunks, nodes, n), chunks[Resolve(chunks, nodes, i).value].version)
  {
    var rs := Resolutions(chunks, nodes, 0, n);
    CollectComplete(chunks, [], rs);
    assert rs[i] == Resolve(chunks, nodes, i).value;
  }

  /**
   * The valid nodes are in order of first appearance: an offset that
   * resolves to entry q is preceded by an offset that resolves to entry p < q.
   */
  lemma ValidNodesOrdered(chunks: seq<Chunk>, nodes: seq<nat>, n: nat, p: nat, q: nat, i: nat)
    requires DataIndices(chunks, nodes) && Resolvable(chunks, nodes, 0, n)
    requires p < q < |ValidNodes(chunks, nodes, n)| && i < n
    requires chunks[Resolve(chunks, nodes, i).value].version == chunks[ValidNodes(chunks, nodes, n)[q]].version
    ensures exists j :: 0 <= j < i && Resolve(chunks, nodes, j) == Some(ValidNodes(chunks, nodes, n)[p])
  {
    var rs := Resolutions(chunks, nodes, 0, n);
    assert rs[i] == Resolve(chunks, nodes, i).value;
    CollectFirstAppearance(chunks, rs, p, q, i);
    var j :| 0 <= j < i && rs[j] == ValidNodes(chunks, nodes, n)[p];
  }

  // ------------------------------------------------ the file's directory entry

  /**
   * The entry `set_valid_dirent` leaves as the file's valid entry: its own
   * latest entry, or the latest tombstone for that name with a greater
   * version. None for an orphan.
   */
  function ResolvedDirent(chunks: seq<Chunk>, ds: seq<nat>): (r: Option<nat>)
    requires DirentIndices(chunks, ds)
    ensures r.None? <==> Orphan(chunks, ds)
    ensures r.Some? ==> r.value < |chunks| && chunks[r.value].Dirent? && chunks[r.value].version > 0
  {
    match LatestDirent(chunks, ds)
    case None => None
    case Some(d) =>
      match LatestTombstone(chunks, chunks[d].name, chunks[d].version)
      case None => Some(d)
      case Some(t) => Some(t)
  }

  /** The file was deleted: a tombstone supersedes its latest entry. */
  predicate Deleted(chunks: seq<Chunk>, ds: seq<nat>)
    requires DirentIndices(chunks, ds)
  {
    match LatestDirent(chunks, ds)
    case None => false
    case Some(d) => LatestTombstone(chunks, chunks[d].name, chunks[d].version).Some?
  }

  /**
   * The resolved entry of a non-orphan carries the greatest version among its
   * own entries and the tombstones for its name; it is a tombstone exactly
   * when the file was deleted.
   */
  lemma ResolvedDirentMeaning(chunks: seq<Chunk>, ds: seq<nat>)
    requires DirentIndices(chunks, ds) && !Orphan(chunks, ds)
    requires forall q :: 0 <= q < |ds| ==> chunks[ds[q]].inode != 0
    ensures var r := ResolvedDirent(chunks, ds).value;
            var d := LatestDirent(chunks, ds).value;
            && (forall q :: 0 <= q < |ds| ==> chunks[ds[q]].version <= chunks[r].version)
            && (forall k :: 0 <= k < |chunks| && IsTombstoneFor(chunks[k], chunks[d].name) ==>
                  chunks[k].version <= chunks[r].version)
            && chunks[r].name == chunks[d].name
            && (chunks[r].inode == 0 <==> Deleted(chunks, ds))
  {
    var d := LatestDirent(chunks, ds).value;
    var p :| 0 <= p < |ds| && ds[p] == d && EarliestMaxAbove(DirentVersions(chunks, ds), 0) == Some(p);
    var vs := DirentVersions(chunks, ds);
    assert forall q :: 0 <= q < |ds| ==> chunks[ds[q]].version == vs[q] <= vs[p];
    assert chunks[d].inode != 0;
    var t := LatestTombstone(chunks, chunks[d].name, chunks[d].version);
    if t.Some? {
      assert ResolvedDirent(chunks, ds) == t;
    } else {
      assert ResolvedDirent(chunks, ds) == Some(d);
    }
  }

  // ------------------------------------------------ grouping by inode

  /** A data node of inode `ino`. */
  predicate OwnData(c: Chunk, ino: nat)
  {
    c.DataNode? && c.inode == ino
  }

  /**
   * A directory entry attached to inode `ino`: none for inode 0, whose
   * entries are tombstones and belong to no file.
   */
  predicate OwnDirent(c: Chunk, ino: nat)
  {
    c.Dirent? && c.inode == ino && ino != 0
  }

  ghost predicate Increasing(r: seq<nat>)
  {
    forall p, q :: 0 <= p < q < |r| ==> r[p] < r[q]
  }

  /**
   * The positions of the data nodes of inode `ino` among the first n records
   * of s, in the order the grouping loop meets them (characterised by
   * `GroupsMeaning`).
   */
  function DataNodesOf(s: seq<Chunk>, n: nat, ino: nat): (r: seq<nat>)
    requires n <= |s|
    ensures |r| <= n
  {
    if n == 0 then []
    else DataNodesOf(s, n - 1, ino) + (if OwnData(s[n - 1], ino) then [n - 1] else [])
  }

  /** The positions of the directory entries attached to inode `ino`, in order. */
  function DirentsOf(s: seq<Chunk>, n: nat, ino: nat): (r: seq<nat>)
    requires n <= |s|
    ensures |r| <= n
  {
    if n == 0 then []
    else DirentsOf(s, n - 1, ino) + (if OwnDirent(s[n - 1], ino) then [n - 1] else [])
  }

  /**
   * A file's lists hold exactly the positions of its own records, each once
   * and in increasing order.
   */
  lemma GroupsMeaning(s: seq<Chunk>, n: nat, ino: nat)
    requires n <= |s|
    ensures forall k :: k in DataNodesOf(s, n, ino) <==> 0 <= k < n && OwnData(s[k], ino)
    ensures forall k :: k in DirentsOf(s, n, ino) <==> 0 <= k < n && OwnDirent(s[k], ino)
    ensures Increasing(DataNodesOf(s, n, ino)) && Increasing(DirentsOf(s, n, ino))
    ensures DataIndices(s, DataNodesOf(s, n, ino)) && DirentIndices(s, DirentsOf(s, n, ino))
  {
    DataNodesMeaning(s, n, ino);
    DirentsMeaning(s, n, ino);
  }

  /** The data-node half of `GroupsMeaning`. */
  lemma {:induction false} DataNodesMeaning(s: seq<Chunk>, n: nat, ino: nat)
    requires n <= |s|
    ensures forall k :: k in DataNodesOf(s, n, ino) <==> 0 <= k < n && OwnData(s[k], ino)
    ensures Increasing(DataNodesOf(s, n, ino)) && DataIndices(s, DataNodesOf(s, n, ino))
  {
    if n > 0 {
      DataNodesMeaning(s, n - 1, ino);
    }
    var r := DataNodesOf(s, n, ino);
    assert forall q :: 0 <= q < |r| ==> r[q] in r;
  }

  /** The directory-entry half of `GroupsMeaning`. */
  lemma {:induction false} DirentsMeaning(s: seq<Chunk>, n: nat, ino: nat)
    requires n <= |s|
    ensures forall k :: k in DirentsOf(s, n, ino) <==> 0 <= k < n && OwnDirent(s[k], ino)
    ensures Increasing(DirentsOf(s, n, ino)) && DirentIndices(s, DirentsOf(s, n, ino))
  {
    if n > 0 {
      DirentsMeaning(s, n - 1, ino);
    }
    var e := DirentsOf(s, n, ino);
    assert forall q :: 0 <= q < |e| ==> e[q] in e;
  }

  /**
   * After the data nodes are sorted, every file's data-node list is
   * version-descending, so the first-match searches above find the latest.
   */
  lemma SortedGivesDescending(s: seq<Chunk>, ino: nat)
    requires ChunkOrder.DataSorted(s)
    ensures DataIndices(s, DataNodesOf(s, |s|, ino)) && VersionsDescending(s, DataNodesOf(s, |s|, ino))
  {
    GroupsMeaning(s, |s|, ino);
  }
}
