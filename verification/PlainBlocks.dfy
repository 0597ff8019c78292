/** Blocks, told by the lines of the source and the two patterns alone. */
module PlainBlocks {
  import opened Bytes
  import opened Lines
  import opened Spans
  import opened Naming
  import opened Blocks
  import opened BlocksScan
  import Split
  import SplitLaws

  // ---------- which blocks there are ----------

  /** The next block from line i on: no line before its start line matches the start pattern, and none between its two
      delimiter lines the end pattern. */
  ghost predicate NextBlock(lines: seq<Line>, pats: Patterns, i: nat, b: Closed) {
    && i <= b.start < b.end < |lines|
    && pats.start(lines[b.start].content) && pats.end(lines[b.end].content)
    && (forall k :: i <= k < b.start ==> !pats.start(lines[k].content))
    && (forall k :: b.start < k < b.end ==> !pats.end(lines[k].content))
  }

  /** No block from line i on is closed: no start line is left, or no end line behind the next one. */
  ghost predicate NoneClosed(lines: seq<Line>, pats: Patterns, i: nat, open: Option<nat>) {
    match open
    case None => forall k :: i <= k < |lines| ==> !pats.start(lines[k].content)
    case Some(s) =>
      && i <= s < |lines| && pats.start(lines[s].content)
      && (forall k :: i <= k < s ==> !pats.start(lines[k].content))
      && (forall k :: s < k < |lines| ==> !pats.end(lines[k].content))
  }

  /** These are the blocks from line i on, each the next one behind the one before, and then none is closed. */
  ghost predicate AreBlocks(lines: seq<Line>, pats: Patterns, i: nat, blocks: seq<Closed>, open: Option<nat>)
    decreases |blocks|
  {
    if blocks == [] then NoneClosed(lines, pats, i, open)
    else NextBlock(lines, pats, i, blocks[0]) && AreBlocks(lines, pats, blocks[0].end + 1, blocks[1..], open)
  }

  /** The blocks with at least one line between the delimiter lines. */
  ghost function WithInner(blocks: seq<Closed>): seq<Closed> {
    if blocks == [] then []
    else (if blocks[0].start + 1 < blocks[0].end then [blocks[0]] else []) + WithInner(blocks[1..])
  }

  lemma NextMatchInLines(lines: seq<Line>, p: seq<byte> -> bool, i: nat)
    requires i <= |lines|
    ensures var k := NextMatch(Contents(lines), p, i);
      (k < |lines| ==> p(lines[k].content)) && forall j :: i <= j < k ==> !p(lines[j].content)
  {
    var contents := Contents(lines);
    NextMatchIsFirst(contents, p, i);
    forall j | i <= j < NextMatch(contents, p, i) ensures !p(lines[j].content) {
      assert contents[j] == lines[j].content;
    }
  }

  lemma BlockBefore(lines: seq<Line>, pats: Patterns, i: nat, b: Closed, rest: seq<Closed>, open: Option<nat>)
    requires NextBlock(lines, pats, i, b) && AreBlocks(lines, pats, b.end + 1, rest, open)
    ensures AreBlocks(lines, pats, i, [b] + rest, open)
  {
    assert ([b] + rest)[1..] == rest;
  }

  ghost predicate FoundFrom(lines: seq<Line>, pats: Patterns, i: nat)
    requires i <= |lines|
  {
    AreBlocks(lines, pats, i, BlocksFrom(Contents(lines), pats, i), OpenFrom(Contents(lines), pats, i))
  }

  lemma FoundNone(lines: seq<Line>, pats: Patterns, i: nat)
    requires i <= |lines| && NextMatch(Contents(lines), pats.start, i) == |lines|
    ensures FoundFrom(lines, pats, i)
  {
    NextMatchInLines(lines, pats.start, i);
  }

  lemma FoundOpen(lines: seq<Line>, pats: Patterns, i: nat, s: nat)
    requires i <= |lines| && s == NextMatch(Contents(lines), pats.start, i) < |lines|
    requires NextMatch(Contents(lines), pats.end, s + 1) == |lines|
    ensures FoundFrom(lines, pats, i)
  {
    NextMatchInLines(lines, pats.start, i);
    NextMatchInLines(lines, pats.end, s + 1);
  }

  lemma NextIsBlock(lines: seq<Line>, pats: Patterns, i: nat, s: nat, e: nat)
    requires i <= |lines| && s == NextMatch(Contents(lines), pats.start, i) < |lines|
    requires e == NextMatch(Contents(lines), pats.end, s + 1) < |lines|
    ensures NextBlock(lines, pats, i, Closed(s, e))
  {
    NextMatchInLines(lines, pats.start, i);
    NextMatchInLines(lines, pats.end, s + 1);
  }

  lemma FoundNext(lines: seq<Line>, pats: Patterns, i: nat, s: nat, e: nat)
    requires i <= |lines| && s == NextMatch(Contents(lines), pats.start, i) < |lines|
    requires e == NextMatch(Contents(lines), pats.end, s + 1) < |lines| && FoundFrom(lines, pats, e + 1)
    ensures FoundFrom(lines, pats, i)
  {
    NextIsBlock(lines, pats, i, s, e);
    var contents := Contents(lines);
    var blocks, open := BlocksFrom(contents, pats, e + 1), OpenFrom(contents, pats, e + 1);
    BlockBefore(lines, pats, i, Closed(s, e), blocks, open);
    assert BlocksFrom(contents, pats, i) == [Closed(s, e)] + blocks && OpenFrom(contents, pats, i) == open;
  }

  lemma {:induction false} BlocksAreBlocks(lines: seq<Line>, pats: Patterns, i: nat)
    requires i <= |lines|
    ensures FoundFrom(lines, pats, i)
    decreases |lines| - i
  {
    var contents := Contents(lines);
    var s := NextMatch(contents, pats.start, i);
    if s == |lines| {
      FoundNone(lines, pats, i);
    } else {
      var e := NextMatch(contents, pats.end, s + 1);
      if e == |lines| {
        FoundOpen(lines, pats, i, s);
      } else {
        BlocksAreBlocks(lines, pats, e + 1);
        FoundNext(lines, pats, i, s, e);
      }
    }
  }

  lemma {:induction false} NonEmptyHaveInner(blocks: seq<Closed>)
    ensures NonEmpty(blocks) == WithInner(blocks)
    decreases |blocks|
  {
    if blocks != [] {
      NonEmptyHaveInner(blocks[1..]);
    }
  }

  // ---------- the in-memory scan ----------

  /** The lines of a block that go out. */
  ghost function BlockText(lines: seq<Line>, b: Closed, withDelims: bool): seq<Line>
    requires b.start < b.end < |lines|
  {
    if withDelims then lines[b.start..b.end + 1] else lines[b.start + 1..b.end]
  }

  ghost predicate BlockReads(lines: seq<Line>, withDelims: bool, ext: string, block: Block, b: Closed, i: nat) {
    && b.start + 1 < b.end < |lines| && block.lines == BlockText(lines, b, withDelims)
    && Numbered(block.name, i + 1, ext)
  }

  ghost predicate MemoryReads(lines: seq<Line>, withDelims: bool, ext: string, blocks: seq<Closed>,
                              open: Option<nat>, result: MemoryResult) {
    if open.Some? then result == MemoryFailed(UnclosedBlock(open.value + 1))
    else if blocks == [] then result == MemoryFailed(NoBlocksFound)
    else
      && result.MemoryDone? && result.blocksFound == |blocks| && |result.blocks| == |WithInner(blocks)|
      && forall i :: 0 <= i < |result.blocks| ==>
           BlockReads(lines, withDelims, ext, result.blocks[i], WithInner(blocks)[i], i)
  }

  lemma BlockInLines(blocks: seq<Block>, closed: seq<Closed>, lines: seq<Line>, withDelims: bool, ext: string, i: nat)
    requires BlocksMatch(blocks, closed, lines, withDelims, ext) && i < |blocks|
    requires closed[i].start + 1 < closed[i].end
    ensures BlockReads(lines, withDelims, ext, blocks[i], closed[i], i)
  {
    SequentialNameReads(i + 1, ext);
  }

  /** A block that is never closed comes before the want of any block; otherwise every block with inner lines goes out,
      in order, numbered from 1. */
  lemma MemoryInLines(result: MemoryResult, lines: seq<Line>, pats: Patterns, withDelims: bool, ext: string)
    requires MemoryOutcome(result, lines, pats, withDelims, ext)
    ensures exists blocks, open ::
      AreBlocks(lines, pats, 0, blocks, open) && MemoryReads(lines, withDelims, ext, blocks, open, result)
  {
    var contents := Contents(lines);
    var blocks, open := BlocksFrom(contents, pats, 0), OpenFrom(contents, pats, 0);
    BlocksAreBlocks(lines, pats, 0);
    NonEmptyHaveInner(blocks);
    NonEmptyIsInner(blocks);
    if result.MemoryDone? {
      forall i | 0 <= i < |result.blocks|
        ensures BlockReads(lines, withDelims, ext, result.blocks[i], WithInner(blocks)[i], i)
      {
        BlockInLines(result.blocks, WithInner(blocks), lines, withDelims, ext, i);
      }
    }
    assert MemoryReads(lines, withDelims, ext, blocks, open, result);
  }

  lemma {:induction false} NonEmptyIsInner(blocks: seq<Closed>)
    ensures forall i :: 0 <= i < |NonEmpty(blocks)| ==> NonEmpty(blocks)[i].start + 1 < NonEmpty(blocks)[i].end
    decreases |blocks|
  {
    if blocks != [] {
      NonEmptyIsInner(blocks[1..]);
    }
  }

  // ---------- the scan over byte spans ----------

  /** The numbers of m, which stands at place i among those put out and at place found among all blocks, count from
      1. */
  ghost predicate MetaCounts(m: BlockMeta, b: Closed, i: nat, found: nat) {
    && m.startDelimLine == b.start + 1 && m.innerStartLine == b.start + 2
    && m.innerEndLine == b.end && m.endDelimLine == b.end + 1 && m.innerCount == b.end - b.start - 1
    && m.emittedOrdinal == i + 1 && m.foundOrdinal == found + 1
  }

  /** The bytes of m are those of the lines of block b. */
  ghost predicate MetaSpells(job: BlocksJob, lines: seq<Line>, m: BlockMeta, b: Closed)
    requires b.start + 1 < b.end < |lines|
  {
    && m.innerStart <= m.innerEnd <= |job.data| && m.outStart <= m.outEnd <= |job.data|
    && job.data[m.innerStart..m.innerEnd] == Serialize(lines[b.start + 1..b.end])
    && job.data[m.outStart..m.outEnd] == Serialize(BlockText(lines, b, job.withDelims))
    && m.fingerprint == job.sha(job.data[m.outStart..m.outEnd])
  }

  ghost predicate MetaReads(job: BlocksJob, lines: seq<Line>, m: BlockMeta, b: Closed, i: nat, found: nat) {
    && b.start + 1 < b.end < |lines| && Numbered(m.name, i + 1, job.ext)
    && MetaCounts(m, b, i, found) && MetaSpells(job, lines, m, b)
  }

  lemma MetaBytes(job: BlocksJob, b: Closed, i: nat, found: nat)
    requires b.start + 1 < b.end < |SpansOf(job.data)| == |SpanLines(job.data)|
    ensures MetaSpells(job, SpanLines(job.data), MetaOf(job, SpansOf(job.data), b, i + 1, found + 1), b)
  {
    SplitLaws.SpansSpell(job.data, b.start + 1, b.end);
    BlockIsByteSpan(job, b);
    if job.withDelims {
      SplitLaws.SpansSpell(job.data, b.start, b.end + 1);
    }
  }

  lemma NumberIs(data: seq<byte>, k: nat)
    requires k < |SpansOf(data)|
    ensures SpansOf(data)[k].lineNum == k + 1
  {
    Split.SpansChain(data);
    assert Split.ChainAt(data, SpansOf(data), k);
  }

  lemma MetaNumbers(job: BlocksJob, b: Closed, i: nat, found: nat)
    requires b.start + 1 < b.end < |SpansOf(job.data)|
    ensures MetaCounts(MetaOf(job, SpansOf(job.data), b, i + 1, found + 1), b, i, found)
  {
    NumberIs(job.data, b.start);
    NumberIs(job.data, b.start + 1);
    NumberIs(job.data, b.end - 1);
    NumberIs(job.data, b.end);
  }

  lemma MetaInLines(job: BlocksJob, b: Closed, i: nat, found: nat)
    requires b.start + 1 < b.end < |SpansOf(job.data)|
    ensures |SpanLines(job.data)| == |SpansOf(job.data)|
    ensures MetaReads(job, SpanLines(job.data), MetaOf(job, SpansOf(job.data), b, i + 1, found + 1), b, i, found)
  {
    BlockIsByteSpan(job, b);
    SequentialNameReads(i + 1, job.ext);
    MetaNumbers(job, b, i, found);
    MetaBytes(job, b, i, found);
  }

  /** Meta i of the blocks from place f on, with emitted blocks before them, tells of its own block. */
  ghost predicate MetaStands(job: BlocksJob, lines: seq<Line>, m: BlockMeta, blocks: seq<Closed>, f: nat, i: nat) {
    && f < m.foundOrdinal <= f + |blocks|
    && MetaReads(job, lines, m, blocks[m.foundOrdinal - 1 - f], i, m.foundOrdinal - 1)
  }

  ghost predicate MetasRead(job: BlocksJob, lines: seq<Line>, metas: seq<BlockMeta>, blocks: seq<Closed>, f: nat,
                            emitted: nat)
  {
    && (forall i :: 0 <= i < |metas| ==> MetaStands(job, lines, metas[i], blocks, f, emitted + i))
    && (forall i, j :: 0 <= i < j < |metas| ==> metas[i].foundOrdinal < metas[j].foundOrdinal)
  }

  lemma StandsBehind(job: BlocksJob, lines: seq<Line>, m: BlockMeta, b: Closed, rest: seq<Closed>, f: nat, i: nat)
    requires MetaStands(job, lines, m, rest, f + 1, i)
    ensures MetaStands(job, lines, m, [b] + rest, f, i)
  {
    assert ([b] + rest)[m.foundOrdinal - 1 - f] == rest[m.foundOrdinal - 1 - (f + 1)];
  }

  lemma MetasReadEmpty(job: BlocksJob, lines: seq<Line>, metas: seq<BlockMeta>, b: Closed, rest: seq<Closed>, f: nat,
                       emitted: nat)
    requires MetasRead(job, lines, metas, rest, f + 1, emitted)
    ensures MetasRead(job, lines, metas, [b] + rest, f, emitted)
  {
    forall i | 0 <= i < |metas| ensures MetaStands(job, lines, metas[i], [b] + rest, f, emitted + i) {
      StandsBehind(job, lines, metas[i], b, rest, f, emitted + i);
    }
  }

  lemma MetasReadNext(job: BlocksJob, lines: seq<Line>, m: BlockMeta, metas: seq<BlockMeta>, b: Closed,
                      rest: seq<Closed>, f: nat, emitted: nat)
    requires MetaReads(job, lines, m, b, emitted, f) && MetasRead(job, lines, metas, rest, f + 1, emitted + 1)
    ensures MetasRead(job, lines, [m] + metas, [b] + rest, f, emitted)
  {
    var all := [m] + metas;
    forall i | 0 <= i < |all| ensures MetaStands(job, lines, all[i], [b] + rest, f, emitted + i) {
      if i > 0 {
        assert MetaStands(job, lines, metas[i - 1], rest, f + 1, emitted + 1 + (i - 1));
        StandsBehind(job, lines, metas[i - 1], b, rest, f, emitted + i);
      }
    }
    forall i, j | 0 <= i < j < |all| ensures all[i].foundOrdinal < all[j].foundOrdinal {
      assert MetaStands(job, lines, metas[j - 1], rest, f + 1, emitted + 1 + (j - 1));
    }
  }

  lemma {:induction false} MetasInLines(job: BlocksJob, blocks: seq<Closed>, f: nat, emitted: nat)
    requires Within(blocks, |SpansOf(job.data)|)
    ensures MetasRead(job, SpanLines(job.data), MetasOf(job, SpansOf(job.data), blocks, emitted, f), blocks, f, emitted)
    decreases |blocks|
  {
    var spans := SpansOf(job.data);
    if blocks != [] {
      var b, rest := blocks[0], blocks[1..];
      assert blocks == [b] + rest;
      MetasHead(job, spans, blocks, emitted, f);
      if b.start + 1 < b.end {
        MetaInLines(job, b, emitted, f);
        MetasInLines(job, rest, f + 1, emitted + 1);
        MetasReadNext(job, SpanLines(job.data), MetaOf(job, spans, b, emitted + 1, f + 1),
                      MetasOf(job, spans, rest, emitted + 1, f + 1), b, rest, f, emitted);
      } else {
        MetasInLines(job, rest, f + 1, emitted);
        MetasReadEmpty(job, SpanLines(job.data), MetasOf(job, spans, rest, emitted, f + 1), b, rest, f, emitted);
      }
    }
  }

  ghost predicate ScanReads(job: BlocksJob, lines: seq<Line>, blocks: seq<Closed>, open: Option<nat>,
                            result: BlocksResult) {
    var full := |WithInner(blocks)|;
    if 0 < job.maxFiles < full then result == BlocksFailed(TooManyBlocks(job.maxFiles, job.maxFiles + 1))
    else if open.Some? then result == BlocksFailed(UnclosedBlock(open.value + 1))
    else if blocks == [] then result == BlocksFailed(NoBlocksFound)
    else
      && result.BlocksDone? && result.blocksFound == |blocks| && result.emptyDiscarded == |blocks| - full
      && result.outputFiles == |result.metas| == full
      && MetasRead(job, lines, result.metas, blocks, 0, 0)
  }

  /** The scan, by its lines: too many blocks comes first, then a block that is never closed, then the want of any
      block; otherwise every block with inner lines goes out, in order. */
  ghost predicate BlocksRead(job: BlocksJob, result: BlocksResult) {
    exists blocks, open ::
      && AreBlocks(SpanLines(job.data), job.pats, 0, blocks, open)
      && ScanReads(job, SpanLines(job.data), blocks, open, result)
  }

  lemma BlocksInLines(job: BlocksJob)
    ensures BlocksRead(job, BlocksOutcome(job))
  {
    var lines := SpanLines(job.data);
    var contents := Contents(lines);
    var blocks, open := BlocksFrom(contents, job.pats, 0), OpenFrom(contents, job.pats, 0);
    ContentsAgree(job);
    BlocksAreBlocks(lines, job.pats, 0);
    BlocksFromWithin(contents, job.pats, 0);
    NonEmptyHaveInner(blocks);
    MetasOfLength(job, SpansOf(job.data), blocks, 0, 0);
    MetasInLines(job, blocks, 0, 0);
    assert ScanReads(job, lines, blocks, open, BlocksOutcome(job));
  }
}
