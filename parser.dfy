/**
 * Ingestion of dump lines into the record vector (src/Parser.cpp). Reading the
 * lines from a file or from standard input is left out; a line and the fields
 * its regular expressions would extract are given.
 */
module Parser {
  import opened Wrappers
  import opened ChunkModel
  import FlashAddr

  /** Two data nodes with the same inode and version. */
  predicate SameDataNode(a: Chunk, b: Chunk)
  {
    a.DataNode? && b.DataNode? && a.inode == b.inode && a.version == b.version
  }

  predicate HasSameDataNode(s: seq<Chunk>, dn: Chunk)
  {
    exists k :: 0 <= k < |s| && SameDataNode(s[k], dn)
  }

  /** No two data nodes of the vector share inode and version. */
  ghost predicate NoDuplicateData(s: seq<Chunk>)
  {
    forall p, q :: 0 <= p < q < |s| ==> !SameDataNode(s[p], s[q])
  }

  /**
   * The vector after `insertDataNodeInVector`: unchanged when a data node
   * with the same inode and version is present (the first one wins),
   * otherwise extended at the end.
   */
  function WithDataNode(s: seq<Chunk>, dn: Chunk): (r: seq<Chunk>)
    requires dn.DataNode?
    ensures r == s <==> HasSameDataNode(s, dn)
    ensures !HasSameDataNode(s, dn) ==> r == s + [dn]
    ensures NoDuplicateData(s) ==> NoDuplicateData(r)
  {
    if HasSameDataNode(s, dn) then s else s + [dn]
  }

  /**
   * Lines starting with '#' or 'W' are skipped before any parsing; none of
   * them starts with a record prefix, so each would otherwise stop the loop.
   */
  predicate Skipped(line: string)
    ensures Skipped(line) ==> Classify(line) == None
  {
    |line| > 0 && (line[0] == '#' || line[0] == 'W')
  }

  /** A line that makes `parseLine` return -1 when the loop reaches it. */
  predicate Rejected(line: string, fields: Option<Fields>)
  {
    !Skipped(line) && (Classify(line) == None || fields == None)
  }

  /** The geometry the records' flash offsets are built with. */
  predicate Configured(g: FlashAddr.Geometry)
  {
    FlashAddr.Initialised(g) && g.partitionOffset >= 0
  }

  /**
   * `parseLine`: the status and the vector afterwards. `fields` is None when
   * the `build` method of the line's kind fails to extract its fields.
   */
  function ParseStep(g: FlashAddr.Geometry, s: seq<Chunk>, line: string, fields: Option<Fields>)
    : (r: (int, seq<Chunk>))
    requires Configured(g)
    ensures r.0 == -1 <==> Classify(line) == None || fields == None
    ensures r.0 == 0 || r.0 == -1
    ensures r.0 == -1 ==> r.1 == s
    ensures r.0 == 0 && Classify(line) != Some(DataNodeType) ==>
              r.1 == s + [Build(g, Classify(line).value, fields.value)]
    ensures r.0 == 0 && Classify(line) == Some(DataNodeType) ==>
              r.1 == WithDataNode(s, Build(g, DataNodeType, fields.value))
    ensures s <= r.1 && |r.1| <= |s| + 1
    ensures NoDuplicateData(s) ==> NoDuplicateData(r.1)
  {
    match Classify(line)
    case None => (-1, s)
    case Some(kind) =>
      if fields.None? then (-1, s)
      else
        var c := Build(g, kind, fields.value);
        if kind == DataNodeType then (0, WithDataNode(s, c)) else (0, s + [c])
  }

  /**
   * The read loop of `parseFile` / `parseStdIn` over lines already read:
   * skipped lines are ignored, the first line that fails stops the loop.
   */
  function ParseAll(g: FlashAddr.Geometry, s: seq<Chunk>, lines: seq<string>,
                    fields: seq<Option<Fields>>): (r: (int, seq<Chunk>))
    requires Configured(g) && |fields| == |lines|
    ensures r.0 == 0 || r.0 == -1
    ensures s <= r.1
    ensures NoDuplicateData(s) ==> NoDuplicateData(r.1)
    ensures (forall i :: 0 <= i < |lines| ==> Skipped(lines[i])) ==> r == (0, s)
    ensures r.0 == -1 <==> exists i :: 0 <= i < |lines| && Rejected(lines[i], fields[i])
    decreases |lines|
  {
    if |lines| == 0 then (0, s)
    else if Skipped(lines[0]) then ParseAll(g, s, lines[1..], fields[1..])
    else
      var step := ParseStep(g, s, lines[0], fields[0]);
      if step.0 < 0 then (-1, step.1)
      else ParseAll(g, step.1, lines[1..], fields[1..])
  }

  /**
   * A skipped line, wherever it stands, has no effect: the loop gives the
   * same status and vector once the line and its fields are removed.
   */
  lemma {:induction false} SkippedLineIgnored(g: FlashAddr.Geometry, s: seq<Chunk>, lines: seq<string>,
                                              fields: seq<Option<Fields>>, i: nat)
    requires Configured(g) && |fields| == |lines| && i < |lines| && Skipped(lines[i])
    ensures ParseAll(g, s, lines, fields) ==
            ParseAll(g, s, lines[..i] + lines[i + 1..], fields[..i] + fields[i + 1..])
    decreases i
  {
    var lines', fields' := lines[..i] + lines[i + 1..], fields[..i] + fields[i + 1..];
    if i == 0 {
      assert lines' == lines[1..] && fields' == fields[1..];
    } else {
      assert lines'[0] == lines[0] && fields'[0] == fields[0];
      assert lines'[1..] == lines[1..][..i - 1] + lines[1..][i..];
      assert fields'[1..] == fields[1..][..i - 1] + fields[1..][i..];
      if Skipped(lines[0]) {
        SkippedLineIgnored(g, s, lines[1..], fields[1..], i - 1);
      } else {
        var step := ParseStep(g, s, lines[0], fields[0]);
        if step.0 >= 0 {
          SkippedLineIgnored(g, step.1, lines[1..], fields[1..], i - 1);
        }
      }
    }
  }

  /** The vector of records that the parser appends to. */
  class ChunkList {
    var chunks: seq<Chunk>

    constructor ()
      ensures chunks == []
    {
      chunks := [];
    }

    /** `insertDataNodeInVector`: 1 when a duplicate was found, else 0. */
    method InsertDataNodeInVector(dn: Chunk) returns (r: int)
      requires dn.DataNode?
      modifies this
      ensures r == 1 <==> HasSameDataNode(old(chunks), dn)
      ensures r == 0 || r == 1
      ensures chunks == WithDataNode(old(chunks), dn)
    {
      var i := 0;
      while i < |chunks|
        invariant 0 <= i <= |chunks|
        invariant forall k :: 0 <= k < i ==> !SameDataNode(chunks[k], dn)
      {
        if chunks[i].DataNode? {
          if dn.inode == chunks[i].inode && dn.version == chunks[i].version {
            assert SameDataNode(chunks[i], dn);
            return 1;
          }
        }
        i := i + 1;
      }
      chunks := chunks + [dn];
      return 0;
    }

    /** `parseLine`. */
    method ParseLine(g: FlashAddr.Geometry, line: string, fields: Option<Fields>) returns (r: int)
      requires Configured(g)
      modifies this
      ensures (r, chunks) == ParseStep(g, old(chunks), line, fields)
    {
      if StartsWith(line, FreeSpacePrefix) {
        if fields.None? {
          return -1;
        }
        chunks := chunks + [Build(g, FreeSpaceType, fields.value)];
      } else if StartsWith(line, DataNodePrefix) {
        if fields.None? {
          return -1;
        }
        var dn := Build(g, DataNodeType, fields.value);
        var _ := InsertDataNodeInVector(dn);
      } else if StartsWith(line, DirentNodePrefix) {
        if fields.None? {
          return -1;
        }
        chunks := chunks + [Build(g, DirentNodeType, fields.value)];
      } else {
        return -1;
      }
      return 0;
    }

    /** The loop of `parseFile` / `parseStdIn`: -1 on the first failing line. */
    method ParseLines(g: FlashAddr.Geometry, lines: seq<string>, fields: seq<Option<Fields>>)
      returns (r: int)
      requires Configured(g) && |fields| == |lines|
      modifies this
      ensures (r, chunks) == ParseAll(g, old(chunks), lines, fields)
      ensures r == -1 <==> exists i :: 0 <= i < |lines| && Rejected(lines[i], fields[i])
    {
      var i := 0;
      while i < |lines|
        invariant 0 <= i <= |lines|
        invariant ParseAll(g, old(chunks), lines, fields) ==
                  ParseAll(g, chunks, lines[i..], fields[i..])
      {
        assert lines[i..][1..] == lines[i + 1..] && fields[i..][1..] == fields[i + 1..];
        if !Skipped(lines[i]) {
          var st := ParseLine(g, lines[i], fields[i]);
          if st < 0 {
            return -1;
          }
        }
        i := i + 1;
      }
      return 0;
    }
  }
}
