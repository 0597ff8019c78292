/** Blocks between start and end delimiter lines: the in-memory scan, the scan over byte spans, and one definition of
    what both must find. */
module Blocks {
  import opened Bytes
  import opened Lines
  import opened Naming

  datatype BlocksError = UnclosedBlock(startLine: nat) | NoBlocksFound | TooManyBlocks(limit: int, wouldCreate: nat)

  /** The two delimiter patterns as predicates on a line's content. */
  datatype Patterns = Patterns(start: seq<byte> -> bool, end: seq<byte> -> bool)

  // ---------- what is to be found ----------

  /** A block closed by an end delimiter, as 0-based line indices of its two delimiter lines. */
  datatype Closed = Closed(start: nat, end: nat)

  /** The first line from i on whose content matches, or the number of lines. */
  function NextMatch(contents: seq<seq<byte>>, p: seq<byte> -> bool, i: nat): (k: nat)
    requires i <= |contents|
    ensures i <= k <= |contents|
    decreases |contents| - i
  {
    if i == |contents| || p(contents[i]) then i else NextMatch(contents, p, i + 1)
  }

  lemma {:induction false} NextMatchIsFirst(contents: seq<seq<byte>>, p: seq<byte> -> bool, i: nat)
    requires i <= |contents|
    ensures var k := NextMatch(contents, p, i);
      (k < |contents| ==> p(contents[k])) && forall j :: i <= j < k ==> !p(contents[j])
    decreases |contents| - i
  {
    if i < |contents| && !p(contents[i]) {
      NextMatchIsFirst(contents, p, i + 1);
    }
  }

  /** The closed blocks from line i on, in order. A block runs from the next start line to the next end line
      behind it. */
  function BlocksFrom(contents: seq<seq<byte>>, pats: Patterns, i: nat): seq<Closed>
    requires i <= |contents|
    decreases |contents| - i
  {
    var s := NextMatch(contents, pats.start, i);
    if s == |contents| then []
    else
      var e := NextMatch(contents, pats.end, s + 1);
      if e == |contents| then [] else [Closed(s, e)] + BlocksFrom(contents, pats, e + 1)
  }

  /** The start line that is never closed, if there is one. */
  function OpenFrom(contents: seq<seq<byte>>, pats: Patterns, i: nat): Option<nat>
    requires i <= |contents|
    decreases |contents| - i
  {
    var s := NextMatch(contents, pats.start, i);
    if s == |contents| then None
    else
      var e := NextMatch(contents, pats.end, s + 1);
      if e == |contents| then Some(s) else OpenFrom(contents, pats, e + 1)
  }

  predicate IsEmpty(b: Closed) {
    b.end <= b.start + 1
  }

  function NonEmpty(blocks: seq<Closed>): seq<Closed> {
    if blocks == [] then [] else (if IsEmpty(blocks[0]) then [] else [blocks[0]]) + NonEmpty(blocks[1..])
  }

  // ---------- the in-memory scan ----------

  datatype Block = Block(name: string, lines: seq<Line>)
  datatype MemoryResult = MemoryFailed(error: BlocksError) | MemoryDone(blocks: seq<Block>, blocksFound: nat)

  function Contents(lines: seq<Line>): seq<seq<byte>> {
    seq(|lines|, i requires 0 <= i < |lines| => lines[i].content)
  }

  function BlockLines(lines: seq<Line>, b: Closed, withDelims: bool): seq<Line>
    requires b.start < b.end < |lines|
  {
    if withDelims then lines[b.start..b.end + 1] else lines[b.start + 1..b.end]
  }

  ghost predicate Within(blocks: seq<Closed>, n: nat) {
    forall i :: 0 <= i < |blocks| ==> blocks[i].start < blocks[i].end < n
  }

  /** One named block for each closed block with inner lines. */
  ghost predicate BlocksMatch(blocks: seq<Block>, closed: seq<Closed>, lines: seq<Line>, withDelims: bool, ext: string)
  {
    && Within(closed, |lines|) && |blocks| == |closed|
    && (forall i :: 0 <= i < |blocks| ==> blocks[i].name == SequentialFilename(i + 1, ext))
    && (forall i :: 0 <= i < |blocks| ==> blocks[i].lines == BlockLines(lines, closed[i], withDelims))
  }

  lemma {:induction false} BlocksFromWithin(contents: seq<seq<byte>>, pats: Patterns, i: nat)
    requires i <= |contents|
    ensures Within(BlocksFrom(contents, pats, i), |contents|)
    ensures Within(NonEmpty(BlocksFrom(contents, pats, i)), |contents|)
    decreases |contents| - i
  {
    var s := NextMatch(contents, pats.start, i);
    if s < |contents| {
      var e := NextMatch(contents, pats.end, s + 1);
      if e < |contents| {
        BlocksFromWithin(contents, pats, e + 1);
        assert BlocksFrom(contents, pats, i)[1..] == BlocksFrom(contents, pats, e + 1);
      }
    }
  }

  lemma {:induction false} NonEmptyAppend(xs: seq<Closed>, ys: seq<Closed>)
    ensures NonEmpty(xs + ys) == NonEmpty(xs) + NonEmpty(ys)
    decreases |xs|
  {
    if xs == [] {
      assert xs + ys == ys;
    } else {
      assert (xs + ys)[1..] == xs[1..] + ys;
      NonEmptyAppend(xs[1..], ys);
    }
  }

  /** What is still to be found at line i, inside a block that started at line number start, or outside. */
  ghost function RestClosed(contents: seq<seq<byte>>, pats: Patterns, inside: bool, start: nat, i: nat): seq<Closed>
    requires i <= |contents| && (inside ==> start > 0)
  {
    if !inside then BlocksFrom(contents, pats, i)
    else
      var e := NextMatch(contents, pats.end, i);
      if e == |contents| then [] else [Closed(start - 1, e)] + BlocksFrom(contents, pats, e + 1)
  }

  ghost function RestOpen(contents: seq<seq<byte>>, pats: Patterns, inside: bool, start: nat, i: nat): Option<nat>
    requires i <= |contents| && (inside ==> start > 0)
  {
    if !inside then OpenFrom(contents, pats, i)
    else
      var e := NextMatch(contents, pats.end, i);
      if e == |contents| then Some(start - 1) else OpenFrom(contents, pats, e + 1)
  }

  lemma SkipOutside(contents: seq<seq<byte>>, pats: Patterns, i: nat)
    requires i < |contents| && !pats.start(contents[i])
    ensures BlocksFrom(contents, pats, i) == BlocksFrom(contents, pats, i + 1)
    ensures OpenFrom(contents, pats, i) == OpenFrom(contents, pats, i + 1)
  {
  }

  lemma OpenAt(contents: seq<seq<byte>>, pats: Patterns, i: nat)
    requires i < |contents| && pats.start(contents[i])
    ensures BlocksFrom(contents, pats, i) == RestClosed(contents, pats, true, i + 1, i + 1)
    ensures OpenFrom(contents, pats, i) == RestOpen(contents, pats, true, i + 1, i + 1)
  {
  }

  lemma NothingLeft(contents: seq<seq<byte>>, pats: Patterns, start: nat)
    requires start > 0
    ensures BlocksFrom(contents, pats, |contents|) == [] && OpenFrom(contents, pats, |contents|) == None
    ensures RestClosed(contents, pats, true, start, |contents|) == []
    ensures RestOpen(contents, pats, true, start, |contents|) == Some(start - 1)
  {
  }

  /** The blocks found before line i and those still to be found are all the blocks there are. */
  ghost predicate Progress(contents: seq<seq<byte>>, pats: Patterns, found: seq<Closed>, inside: bool, start: nat,
                           i: nat)
  {
    && i <= |contents| && (inside ==> start > 0)
    && BlocksFrom(contents, pats, 0) == found + RestClosed(contents, pats, inside, start, i)
    && OpenFrom(contents, pats, 0) == RestOpen(contents, pats, inside, start, i)
  }

  lemma ProgressSkips(contents: seq<seq<byte>>, pats: Patterns, found: seq<Closed>, inside: bool, start: nat, i: nat)
    requires i < |contents| && Progress(contents, pats, found, inside, start, i)
    requires if inside then !pats.end(contents[i]) else !pats.start(contents[i])
    ensures Progress(contents, pats, found, inside, start, i + 1)
  {
  }

  lemma ProgressOpens(contents: seq<seq<byte>>, pats: Patterns, found: seq<Closed>, start: nat, i: nat)
    requires i < |contents| && Progress(contents, pats, found, false, start, i) && pats.start(contents[i])
    ensures Progress(contents, pats, found, true, i + 1, i + 1)
  {
  }

  lemma ProgressCloses(contents: seq<seq<byte>>, pats: Patterns, found: seq<Closed>, start: nat, i: nat)
    requires i < |contents| && Progress(contents, pats, found, true, start, i) && pats.end(contents[i])
    ensures Progress(contents, pats, found + [Closed(start - 1, i)], false, start, i + 1)
  {
    var b, rest := Closed(start - 1, i), BlocksFrom(contents, pats, i + 1);
    assert found + ([b] + rest) == found + [b] + rest;
  }

  lemma ProgressEnds(contents: seq<seq<byte>>, pats: Patterns, found: seq<Closed>, inside: bool, start: nat)
    requires Progress(contents, pats, found, inside, start, |contents|)
    ensures BlocksFrom(contents, pats, 0) == found
    ensures OpenFrom(contents, pats, 0) == if inside then Some(start - 1) else None
  {
    assert found + [] == found;
  }

  /** The lines of a block with inner lines, named; nothing for an empty block. */
  method BuildBlock(startLine: Line, inner: seq<Line>, endLine: Line, withDelims: bool, ext: string, seqNo: nat,
                    existing: set<string>)
    returns (block: Option<Block>, updated: set<string>)
    requires seqNo > 0 && existing == NamesUpTo(ext, seqNo - 1)
    ensures block == if inner == [] then None
      else Some(Block(SequentialFilename(seqNo, ext), if withDelims then [startLine] + inner + [endLine] else inner))
    ensures updated == NamesUpTo(ext, if inner == [] then seqNo - 1 else seqNo)
  {
    if |inner| == 0 {
      return None, existing;
    }
    NextNameIsFree(ext, seqNo - 1);
    var out := if withDelims then [startLine] + inner + [endLine] else inner;
    var name;
    name, updated := DeduplicateFilename(SequentialFilename(seqNo, ext), existing);
    block := Some(Block(name, out));
  }

  /** Inside a block its start line and inner lines are at hand. */
  ghost predicate Collected(lines: seq<Line>, inside: bool, start: nat, i: nat, startLine: Line, inner: seq<Line>) {
    inside ==> 1 <= start <= i <= |lines| && startLine == lines[start - 1] && inner == lines[start..i]
  }

  lemma CollectNext(lines: seq<Line>, start: nat, i: nat, startLine: Line, inner: seq<Line>)
    requires i < |lines| && Collected(lines, true, start, i, startLine, inner)
    ensures Collected(lines, true, start, i + 1, startLine, inner + [lines[i]])
  {
  }

  lemma BlockAdded(blocks: seq<Block>, kept: seq<Closed>, lines: seq<Line>, withDelims: bool, ext: string,
                   b: Closed, block: Block)
    requires BlocksMatch(blocks, kept, lines, withDelims, ext) && b.start < b.end < |lines|
    requires block == Block(SequentialFilename(|blocks| + 1, ext), BlockLines(lines, b, withDelims))
    ensures BlocksMatch(blocks + [block], kept + [b], lines, withDelims, ext)
  {
    var more, closed := blocks + [block], kept + [b];
    forall i | 0 <= i < |more|
      ensures closed[i].start < closed[i].end < |lines|
      ensures more[i].name == SequentialFilename(i + 1, ext)
      ensures more[i].lines == BlockLines(lines, closed[i], withDelims)
    {
      assert i < |blocks| ==> more[i] == blocks[i] && closed[i] == kept[i];
    }
  }

  lemma CollectedLines(lines: seq<Line>, b: Closed, withDelims: bool, startLine: Line, inner: seq<Line>)
    requires b.start < b.end < |lines| && startLine == lines[b.start] && inner == lines[b.start + 1..b.end]
    ensures BlockLines(lines, b, withDelims) == if withDelims then [startLine] + inner + [lines[b.end]] else inner
  {
    assert lines[b.start..b.end + 1] == [lines[b.start]] + lines[b.start + 1..b.end] + [lines[b.end]];
  }

  lemma NonEmptySnoc(closed: seq<Closed>, b: Closed)
    ensures NonEmpty(closed + [b]) == NonEmpty(closed) + if IsEmpty(b) then [] else [b]
  {
    NonEmptyAppend(closed, [b]);
    assert NonEmpty([b]) == (if IsEmpty(b) then [] else [b]) + NonEmpty([]);
  }

  /** Appends the block that ends at b's end line, if it has inner lines. */
  method EmitBlock(ghost lines: seq<Line>, ghost closed: seq<Closed>, ghost b: Closed, blocks: seq<Block>,
                   startLine: Line, inner: seq<Line>, endLine: Line, withDelims: bool, ext: string,
                   existing: set<string>)
    returns (emitted: seq<Block>, updated: set<string>)
    requires BlocksMatch(blocks, NonEmpty(closed), lines, withDelims, ext) && existing == NamesUpTo(ext, |blocks|)
    requires b.end < |lines| && endLine == lines[b.end] && Collected(lines, true, b.start + 1, b.end, startLine, inner)
    ensures BlocksMatch(emitted, NonEmpty(closed + [b]), lines, withDelims, ext) && updated == NamesUpTo(ext, |emitted|)
  {
    NonEmptySnoc(closed, b);
    var block;
    block, updated := BuildBlock(startLine, inner, endLine, withDelims, ext, |blocks| + 1, existing);
    if block.Some? {
      CollectedLines(lines, b, withDelims, startLine, inner);
      BlockAdded(blocks, NonEmpty(closed), lines, withDelims, ext, b, block.value);
      emitted := blocks + [block.value];
    } else {
      assert NonEmpty(closed + [b]) == NonEmpty(closed) + [];
      emitted := blocks;
    }
  }

  ghost predicate MemoryOutcome(result: MemoryResult, lines: seq<Line>, pats: Patterns, withDelims: bool, ext: string) {
    var contents := Contents(lines);
    var closed := BlocksFrom(contents, pats, 0);
    match OpenFrom(contents, pats, 0)
    case Some(start) => result == MemoryFailed(UnclosedBlock(start + 1))
    case None =>
      if closed == [] then result == MemoryFailed(NoBlocksFound)
      else result.MemoryDone? && result.blocksFound == |closed|
           && BlocksMatch(result.blocks, NonEmpty(closed), lines, withDelims, ext)
  }

  lemma ScanBlocksEnds(lines: seq<Line>, pats: Patterns, withDelims: bool, ext: string, found: seq<Closed>,
                       inside: bool, start: nat, blocks: seq<Block>)
    requires Progress(Contents(lines), pats, found, inside, start, |lines|)
    requires BlocksMatch(blocks, NonEmpty(found), lines, withDelims, ext)
    ensures MemoryOutcome(
      if inside then MemoryFailed(UnclosedBlock(start)) else if found == [] then MemoryFailed(NoBlocksFound)
      else MemoryDone(blocks, |found|), lines, pats, withDelims, ext)
  {
    ProgressEnds(Contents(lines), pats, found, inside, start);
  }

  /** The loop at line i: the blocks so far, and what is at hand of the open one. */
  ghost predicate AtLine(lines: seq<Line>, pats: Patterns, withDelims: bool, ext: string, i: nat, found: seq<Closed>,
                         blocks: seq<Block>, inside: bool, start: nat, startLine: Line, inner: seq<Line>) {
    && i <= |lines| && Collected(lines, inside, start, i, startLine, inner)
    && BlocksMatch(blocks, NonEmpty(found), lines, withDelims, ext)
    && Progress(Contents(lines), pats, found, inside, start, i)
  }

  lemma AtFirstLine(lines: seq<Line>, pats: Patterns, withDelims: bool, ext: string)
    ensures AtLine(lines, pats, withDelims, ext, 0, [], [], false, 0, Line([], []), [])
  {
    assert [] + BlocksFrom(Contents(lines), pats, 0) == BlocksFrom(Contents(lines), pats, 0);
  }

  lemma LineOpens(lines: seq<Line>, pats: Patterns, withDelims: bool, ext: string, i: nat, found: seq<Closed>,
                  blocks: seq<Block>, start: nat, startLine: Line, inner: seq<Line>)
    requires AtLine(lines, pats, withDelims, ext, i, found, blocks, false, start, startLine, inner)
    requires i < |lines| && pats.start(lines[i].content)
    ensures AtLine(lines, pats, withDelims, ext, i + 1, found, blocks, true, i + 1, lines[i], [])
  {
    ProgressOpens(Contents(lines), pats, found, start, i);
  }

  lemma LinePasses(lines: seq<Line>, pats: Patterns, withDelims: bool, ext: string, i: nat, found: seq<Closed>,
                   blocks: seq<Block>, inside: bool, start: nat, startLine: Line, inner: seq<Line>)
    requires AtLine(lines, pats, withDelims, ext, i, found, blocks, inside, start, startLine, inner)
    requires i < |lines| && if inside then !pats.end(lines[i].content) else !pats.start(lines[i].content)
    ensures AtLine(lines, pats, withDelims, ext, i + 1, found, blocks, inside, start, startLine,
                   if inside then inner + [lines[i]] else inner)
  {
    ProgressSkips(Contents(lines), pats, found, inside, start, i);
    if inside {
      CollectNext(lines, start, i, startLine, inner);
    }
  }

  /** The loop over materialized lines. */
  method ScanBlocks(lines: seq<Line>, pats: Patterns, withDelims: bool, ext: string) returns (result: MemoryResult)
    ensures MemoryOutcome(result, lines, pats, withDelims, ext)
  {
    var blocks: seq<Block> := [];
    var existing: set<string> := {};
    var inside := false;
    var startLine := Line([], []);
    var start := 0;
    var inner: seq<Line> := [];
    var blocksFound := 0;
    ghost var found: seq<Closed> := [];
    AtFirstLine(lines, pats, withDelims, ext);
    assert NamesUpTo(ext, 0) == {};

    for i := 0 to |lines|
      invariant blocksFound == |found| && existing == NamesUpTo(ext, |blocks|)
      invariant AtLine(lines, pats, withDelims, ext, i, found, blocks, inside, start, startLine, inner)
    {
      var line := lines[i];
      if !inside {
        if pats.start(line.content) {
          LineOpens(lines, pats, withDelims, ext, i, found, blocks, start, startLine, inner);
          inside, startLine, start, inner := true, line, i + 1, [];
        } else {
          LinePasses(lines, pats, withDelims, ext, i, found, blocks, inside, start, startLine, inner);
        }
      } else if pats.end(line.content) {
        blocksFound := blocksFound + 1;
        ghost var b := Closed(start - 1, i);
        ProgressCloses(Contents(lines), pats, found, start, i);
        blocks, existing := EmitBlock(lines, found, b, blocks, startLine, inner, line, withDelims, ext, existing);
        found := found + [b];
        inside, inner := false, [];
      } else {
        LinePasses(lines, pats, withDelims, ext, i, found, blocks, inside, start, startLine, inner);
        inner := inner + [line];
      }
    }
    ScanBlocksEnds(lines, pats, withDelims, ext, found, inside, start, blocks);
    if inside {
      return MemoryFailed(UnclosedBlock(start));
    }
    if blocksFound == 0 {
      return MemoryFailed(NoBlocksFound);
    }
    result := MemoryDone(blocks, blocksFound);
  }
}
