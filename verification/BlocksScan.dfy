/** The block scan over byte spans, and how it agrees with the scan over materialized lines. */
module BlocksScan {
  import opened Bytes
  import opened Streams
  import opened Lines
  import opened Spans
  import opened Scanner
  import opened Naming
  import opened Blocks
  import opened SpanCopy
  import opened LiteralSearch
  import Split
  import SplitLaws

  datatype BlockMeta = BlockMeta(
    name: string, startDelimLine: nat, innerStartLine: nat, innerEndLine: nat, endDelimLine: nat, innerCount: nat,
    emittedOrdinal: nat, foundOrdinal: nat, innerStart: nat, innerEnd: nat, outStart: nat, outEnd: nat,
    fingerprint: Digest)

  datatype BlocksJob = BlocksJob(
    data: seq<byte>, pats: Patterns, withDelims: bool, ext: string, maxFiles: int, sha: HashFunction)

  datatype BlocksResult =
    | BlocksFailed(error: BlocksError)
    | BlocksDone(metas: seq<BlockMeta>, blocksFound: nat, outputFiles: nat, emptyDiscarded: nat)

  function ContentOf(job: BlocksJob, span: LineSpan): seq<byte> {
    Slice(job.data, span.start, span.contentEnd)
  }

  // ---------- the machine ----------

  datatype BlocksOut = BlocksOut(
    metas: seq<BlockMeta>, found: nat, emptyDiscarded: nat, emitted: nat, failure: Option<BlocksError>)

  /** inner: how many inner lines, with the first and the last of them. */
  datatype BlocksState = BlocksState(
    out: BlocksOut, inside: bool, startSpan: LineSpan, innerCount: nat, firstInner: LineSpan, lastInner: LineSpan)

  const NO_SPAN := LineSpan(0, 0, 0, 0, TermNone)
  const INITIAL := BlocksState(BlocksOut([], 0, 0, 0, None), false, NO_SPAN, 0, NO_SPAN, NO_SPAN)

  function MetaFor(job: BlocksJob, name: string, st: BlocksState, endSpan: LineSpan): BlockMeta {
    var outStart := if job.withDelims then st.startSpan.start else st.firstInner.start;
    var outEnd := if job.withDelims then endSpan.end else st.lastInner.end;
    BlockMeta(name, st.startSpan.lineNum, st.firstInner.lineNum, st.lastInner.lineNum, endSpan.lineNum, st.innerCount,
              st.out.emitted, st.out.found, st.firstInner.start, st.lastInner.end, outStart, outEnd,
              job.sha(Slice(job.data, outStart, outEnd)))
  }

  function BlockClosed(job: BlocksJob, st: BlocksState, endSpan: LineSpan): BlocksOut {
    var out := st.out.(found := st.out.found + 1);
    if st.innerCount == 0 then out.(emptyDiscarded := out.emptyDiscarded + 1)
    else if !(job.maxFiles <= 0 || out.emitted + 1 <= job.maxFiles) then
      out.(failure := Some(TooManyBlocks(job.maxFiles, out.emitted + 1)))
    else
      var name := SequentialFilename(out.emitted + 1, job.ext);
      var counted := out.(emitted := out.emitted + 1);
      counted.(metas := out.metas + [MetaFor(job, name, st.(out := counted), endSpan)])
  }

  function Observe(job: BlocksJob, st: BlocksState, span: LineSpan): BlocksState {
    if !st.inside then
      if job.pats.start(ContentOf(job, span)) then st.(inside := true, startSpan := span, innerCount := 0) else st
    else if job.pats.end(ContentOf(job, span)) then
      st.(out := BlockClosed(job, st, span), inside := false, innerCount := 0)
    else
      st.(innerCount := st.innerCount + 1, lastInner := span,
          firstInner := if st.innerCount == 0 then span else st.firstInner)
  }

  function Callback(job: BlocksJob): (BlocksState, LineSpan) -> Step<BlocksState> {
    (st: BlocksState, span: LineSpan) =>
      var next := Observe(job, st, span);
      if next.out.failure.Some? then Halt(next) else Continue(next)
  }

  function Finish(scan: Step<BlocksState>): BlocksResult {
    var st := scan.state;
    if st.out.failure.Some? then BlocksFailed(st.out.failure.value)
    else if st.inside then BlocksFailed(UnclosedBlock(st.startSpan.lineNum))
    else if st.out.found == 0 then BlocksFailed(NoBlocksFound)
    else BlocksDone(st.out.metas, st.out.found, |st.out.metas|, st.out.emptyDiscarded)
  }

  // ---------- the result, said by the blocks to be found ----------

  ghost function SpanContents(job: BlocksJob, spans: seq<LineSpan>): seq<seq<byte>> {
    seq(|spans|, i requires 0 <= i < |spans| => ContentOf(job, spans[i]))
  }

  ghost function OutStart(job: BlocksJob, spans: seq<LineSpan>, b: Closed): nat
    requires b.start + 1 < b.end < |spans|
  {
    if job.withDelims then spans[b.start].start else spans[b.start + 1].start
  }

  ghost function OutEnd(job: BlocksJob, spans: seq<LineSpan>, b: Closed): nat
    requires b.start + 1 < b.end < |spans|
  {
    if job.withDelims then spans[b.end].end else spans[b.end - 1].end
  }

  /** The metadata of one non-empty closed block: its lines, its bytes, its place among the blocks. */
  ghost function MetaOf(job: BlocksJob, spans: seq<LineSpan>, b: Closed, emitted: nat, found: nat): BlockMeta
    requires b.start + 1 < b.end < |spans|
  {
    var first, last := spans[b.start + 1], spans[b.end - 1];
    var outStart, outEnd := OutStart(job, spans, b), OutEnd(job, spans, b);
    BlockMeta(SequentialFilename(emitted, job.ext), spans[b.start].lineNum, first.lineNum, last.lineNum,
              spans[b.end].lineNum, b.end - b.start - 1, emitted, found, first.start, last.end, outStart, outEnd,
              job.sha(Slice(job.data, outStart, outEnd)))
  }

  /** The metadata of closed blocks, numbered on from those before. */
  ghost function MetasOf(job: BlocksJob, spans: seq<LineSpan>, blocks: seq<Closed>, emitted: nat,
                         found: nat): seq<BlockMeta>
    requires Within(blocks, |spans|)
    decreases |blocks|
  {
    if blocks == [] then []
    else if IsEmpty(blocks[0]) then MetasOf(job, spans, blocks[1..], emitted, found + 1)
    else
      var meta := MetaOf(job, spans, blocks[0], emitted + 1, found + 1);
      [meta] + MetasOf(job, spans, blocks[1..], emitted + 1, found + 1)
  }

  ghost predicate OutHolds(job: BlocksJob, out: BlocksOut, found: nat, metas: seq<BlockMeta>) {
    out == BlocksOut(metas, found, out.emptyDiscarded, |metas|, None)
    && out.emptyDiscarded + |metas| == found
  }

  ghost predicate CapExceeded(job: BlocksJob, blocks: nat) {
    job.maxFiles > 0 && blocks > job.maxFiles
  }

  // ---------- first half: the scan closes exactly the blocks to be found ----------

  /** What one closed block does to the output. */
  ghost function CloseOne(job: BlocksJob, spans: seq<LineSpan>, b: Closed, out: BlocksOut): BlocksOut
    requires b.start < b.end < |spans|
  {
    BlockClosed(job, BlocksState(out, true, spans[b.start], b.end - b.start - 1, spans[b.start + 1], spans[b.end - 1]),
               spans[b.end])
  }

  ghost function CloseAll(job: BlocksJob, spans: seq<LineSpan>, blocks: seq<Closed>, out: BlocksOut): BlocksOut
    requires Within(blocks, |spans|)
    decreases |blocks|
  {
    if blocks == [] || out.failure.Some? then out
    else CloseAll(job, spans, blocks[1..], CloseOne(job, spans, blocks[0], out))
  }

  /** The state is inside a block that started at line s, with the lines up to j collected. */
  ghost predicate InsideAt(st: BlocksState, spans: seq<LineSpan>, s: nat, j: nat) {
    && s < j <= |spans| && st.inside && st.startSpan == spans[s] && st.innerCount == j - s - 1
    && (j > s + 1 ==> st.firstInner == spans[s + 1] && st.lastInner == spans[j - 1])
  }

  /** A scan closes these blocks and, unless it is stopped, ends inside the open one if there is one. */
  ghost predicate Closes(job: BlocksJob, spans: seq<LineSpan>, scan: Step<BlocksState>, blocks: seq<Closed>,
                         open: Option<nat>, out: BlocksOut) {
    && Within(blocks, |spans|) && scan.state.out == CloseAll(job, spans, blocks, out)
    && (scan.Halt? <==> scan.state.out.failure.Some?)
    && (scan.Continue? ==> scan.state.inside == open.Some?)
    && (scan.Continue? && open.Some? ==> open.value < |spans| && scan.state.startSpan == spans[open.value])
  }

  /** step is the callback. Stated apart from its definition, so that a scan is unfolded only line by line. */
  ghost predicate IsCallback(job: BlocksJob, step: (BlocksState, LineSpan) -> Step<BlocksState>) {
    forall st, span :: StepIs(job, step, st, span)
  }

  ghost predicate StepIs(job: BlocksJob, step: (BlocksState, LineSpan) -> Step<BlocksState>, st: BlocksState,
                         span: LineSpan)
  {
    var next := Observe(job, st, span);
    step(st, span) == if next.out.failure.Some? then Halt(next) else Continue(next)
  }

  lemma FeedOne(job: BlocksJob, step: (BlocksState, LineSpan) -> Step<BlocksState>, st: BlocksState,
                spans: seq<LineSpan>, i: nat)
    requires i < |spans| && IsCallback(job, step)
    ensures var next := Observe(job, st, spans[i]);
      FeedFrom(step, st, spans, i) == if next.out.failure.Some? then Halt(next) else FeedFrom(step, next, spans, i + 1)
  {
    assert StepIs(job, step, st, spans[i]);
  }

  lemma CloseAllNext(job: BlocksJob, spans: seq<LineSpan>, b: Closed, rest: seq<Closed>, out: BlocksOut)
    requires Within(rest, |spans|) && b.start < b.end < |spans| && out.failure == None
    ensures Within([b] + rest, |spans|)
    ensures CloseAll(job, spans, [b] + rest, out) == CloseAll(job, spans, rest, CloseOne(job, spans, b, out))
  {
    assert ([b] + rest)[1..] == rest;
  }

  ghost predicate ContentsOf(job: BlocksJob, spans: seq<LineSpan>, contents: seq<seq<byte>>) {
    |contents| == |spans| && forall k :: 0 <= k < |spans| ==> contents[k] == ContentOf(job, spans[k])
  }

  lemma {:induction false} RunOutside(job: BlocksJob, step: (BlocksState, LineSpan) -> Step<BlocksState>,
      spans: seq<LineSpan>, contents: seq<seq<byte>>, i: nat, st: BlocksState)
    requires i <= |spans| && IsCallback(job, step) && ContentsOf(job, spans, contents)
    requires !st.inside && st.out.failure == None
    ensures Closes(job, spans, FeedFrom(step, st, spans, i), BlocksFrom(contents, job.pats, i),
                   OpenFrom(contents, job.pats, i), st.out)
    decreases |spans| - i
  {
    if i == |spans| {
      NothingLeft(contents, job.pats, 1);
    } else {
      FeedOne(job, step, st, spans, i);
      if job.pats.start(contents[i]) {
        OpenAt(contents, job.pats, i);
        RunInside(job, step, spans, contents, i, i + 1, Observe(job, st, spans[i]));
      } else {
        SkipOutside(contents, job.pats, i);
        RunOutside(job, step, spans, contents, i + 1, st);
      }
    }
  }

  /** Inner lines are collected until the next end line. */
  lemma {:induction false} CollectsInner(job: BlocksJob, step: (BlocksState, LineSpan) -> Step<BlocksState>,
      spans: seq<LineSpan>, contents: seq<seq<byte>>, s: nat, j: nat, st: BlocksState)
    returns (last: BlocksState)
    requires IsCallback(job, step) && ContentsOf(job, spans, contents)
    requires InsideAt(st, spans, s, j) && st.out.failure == None
    ensures var e := NextMatch(contents, job.pats.end, j);
      && InsideAt(last, spans, s, e) && last.out == st.out
      && FeedFrom(step, st, spans, j) == FeedFrom(step, last, spans, e)
    decreases |spans| - j
  {
    if j == |spans| || job.pats.end(contents[j]) {
      last := st;
    } else {
      StaysInside(job, step, spans, s, j, st);
      last := CollectsInner(job, step, spans, contents, s, j + 1, Observe(job, st, spans[j]));
    }
  }

  lemma {:induction false} RunInside(job: BlocksJob, step: (BlocksState, LineSpan) -> Step<BlocksState>,
      spans: seq<LineSpan>, contents: seq<seq<byte>>, s: nat, j: nat, st: BlocksState)
    requires IsCallback(job, step) && ContentsOf(job, spans, contents)
    requires InsideAt(st, spans, s, j) && st.out.failure == None
    ensures Closes(job, spans, FeedFrom(step, st, spans, j), RestClosed(contents, job.pats, true, s + 1, j),
                   RestOpen(contents, job.pats, true, s + 1, j), st.out)
    decreases |spans| - j, 2
  {
    var e := NextMatch(contents, job.pats.end, j);
    NextMatchIsFirst(contents, job.pats.end, j);
    var last := CollectsInner(job, step, spans, contents, s, j, st);
    if e == |spans| {
      InsideEnds(job, step, spans, s, last);
    } else {
      InsideCloses(job, step, spans, contents, s, e, last);
    }
  }

  lemma {:induction false} InsideCloses(job: BlocksJob, step: (BlocksState, LineSpan) -> Step<BlocksState>,
      spans: seq<LineSpan>, contents: seq<seq<byte>>, s: nat, j: nat, st: BlocksState)
    requires IsCallback(job, step) && ContentsOf(job, spans, contents)
    requires InsideAt(st, spans, s, j) && st.out.failure == None
    requires j < |spans| && job.pats.end(contents[j])
    ensures Closes(job, spans, FeedFrom(step, st, spans, j), [Closed(s, j)] + BlocksFrom(contents, job.pats, j + 1),
                   OpenFrom(contents, job.pats, j + 1), st.out)
    decreases |spans| - j, 1
  {
    FeedOne(job, step, st, spans, j);
    ClosesOne(job, spans, s, j, st);
    RunClosed(job, step, spans, contents, s, j, Observe(job, st, spans[j]), st.out);
  }

  lemma InsideEnds(job: BlocksJob, step: (BlocksState, LineSpan) -> Step<BlocksState>, spans: seq<LineSpan>, s: nat,
                   st: BlocksState)
    requires InsideAt(st, spans, s, |spans|) && st.out.failure == None
    ensures Closes(job, spans, FeedFrom(step, st, spans, |spans|), [], Some(s), st.out)
  {
  }

  lemma StaysInside(job: BlocksJob, step: (BlocksState, LineSpan) -> Step<BlocksState>, spans: seq<LineSpan>, s: nat,
                    j: nat, st: BlocksState)
    requires InsideAt(st, spans, s, j) && j < |spans| && !job.pats.end(ContentOf(job, spans[j]))
    requires IsCallback(job, step) && st.out.failure == None
    ensures var next := Observe(job, st, spans[j]);
      && next.out == st.out && InsideAt(next, spans, s, j + 1)
      && FeedFrom(step, st, spans, j) == FeedFrom(step, next, spans, j + 1)
  {
    FeedOne(job, step, st, spans, j);
  }

  lemma ClosesOne(job: BlocksJob, spans: seq<LineSpan>, s: nat, j: nat, st: BlocksState)
    requires InsideAt(st, spans, s, j) && j < |spans| && job.pats.end(ContentOf(job, spans[j]))
    ensures var next := Observe(job, st, spans[j]);
            next.out == CloseOne(job, spans, Closed(s, j), st.out) && !next.inside
  {
    if j > s + 1 {
      assert st == BlocksState(st.out, true, spans[s], j - s - 1, spans[s + 1], spans[j - 1]);
    }
  }

  lemma {:induction false} RunClosed(job: BlocksJob, step: (BlocksState, LineSpan) -> Step<BlocksState>,
      spans: seq<LineSpan>, contents: seq<seq<byte>>, s: nat, j: nat,
                                     next: BlocksState, out: BlocksOut)
    requires s < j < |spans| && IsCallback(job, step) && ContentsOf(job, spans, contents) && out.failure == None
    requires next.out == CloseOne(job, spans, Closed(s, j), out) && !next.inside
    ensures var scan := if next.out.failure.Some? then Halt(next) else FeedFrom(step, next, spans, j + 1);
      Closes(job, spans, scan, [Closed(s, j)] + BlocksFrom(contents, job.pats, j + 1),
             OpenFrom(contents, job.pats, j + 1), out)
    decreases |spans| - j, 0
  {
    var rest := BlocksFrom(contents, job.pats, j + 1);
    BlocksFromWithin(contents, job.pats, j + 1);
    CloseAllNext(job, spans, Closed(s, j), rest, out);
    if next.out.failure == None {
      RunOutside(job, step, spans, contents, j + 1, next);
    }
  }

  // ---------- second half: what closing the blocks puts out ----------

  lemma CloseOneYields(job: BlocksJob, spans: seq<LineSpan>, b: Closed, out: BlocksOut, metas: seq<BlockMeta>,
                       found: nat)
    requires b.start < b.end < |spans| && OutHolds(job, out, found, metas)
    ensures var next := CloseOne(job, spans, b, out);
      if IsEmpty(b) then OutHolds(job, next, found + 1, metas)
      else if CapExceeded(job, |metas| + 1) then next.failure == Some(TooManyBlocks(job.maxFiles, |metas| + 1))
      else OutHolds(job, next, found + 1, metas + [MetaOf(job, spans, b, |metas| + 1, found + 1)])
  {
  }

  /** end is what these blocks make of an output that holds metas. */
  ghost predicate Yields(job: BlocksJob, spans: seq<LineSpan>, end: BlocksOut, blocks: seq<Closed>,
                         metas: seq<BlockMeta>, found: nat)
    requires Within(blocks, |spans|)
  {
    if CapExceeded(job, |metas| + |NonEmpty(blocks)|) then
      end.failure == Some(TooManyBlocks(job.maxFiles, job.maxFiles + 1))
    else OutHolds(job, end, found + |blocks|, metas + MetasOf(job, spans, blocks, |metas|, found))
  }

  lemma MetasOfNext(job: BlocksJob, spans: seq<LineSpan>, blocks: seq<Closed>, metas: seq<BlockMeta>, found: nat)
    requires Within(blocks, |spans|) && blocks != []
    ensures var b := blocks[0];
      metas + MetasOf(job, spans, blocks, |metas|, found) ==
      if IsEmpty(b) then metas + MetasOf(job, spans, blocks[1..], |metas|, found + 1)
      else metas + [MetaOf(job, spans, b, |metas| + 1, found + 1)]
           + MetasOf(job, spans, blocks[1..], |metas| + 1, found + 1)
  {
  }

  lemma YieldsOneMore(job: BlocksJob, spans: seq<LineSpan>, end: BlocksOut, blocks: seq<Closed>,
                      metas: seq<BlockMeta>, found: nat)
    requires Within(blocks, |spans|) && blocks != []
    requires var b := blocks[0];
      Yields(job, spans, end, blocks[1..],
             if IsEmpty(b) then metas else metas + [MetaOf(job, spans, b, |metas| + 1, found + 1)], found + 1)
    ensures Yields(job, spans, end, blocks, metas, found)
  {
    MetasOfNext(job, spans, blocks, metas, found);
  }

  /** The cap stops the scan exactly when more than maxFiles non-empty blocks are closed; otherwise every
      non-empty block gets its metadata, numbered in order. */
  lemma {:induction false} CloseAllYields(job: BlocksJob, spans: seq<LineSpan>, blocks: seq<Closed>, out: BlocksOut,
                                          metas: seq<BlockMeta>, found: nat)
    requires Within(blocks, |spans|) && OutHolds(job, out, found, metas) && !CapExceeded(job, |metas|)
    ensures Yields(job, spans, CloseAll(job, spans, blocks, out), blocks, metas, found)
    decreases |blocks|
  {
    if blocks == [] {
      assert metas + [] == metas;
    } else {
      var b := blocks[0];
      CloseOneYields(job, spans, b, out, metas, found);
      if IsEmpty(b) || !CapExceeded(job, |metas| + 1) {
        var more := if IsEmpty(b) then metas else metas + [MetaOf(job, spans, b, |metas| + 1, found + 1)];
        CloseAllYields(job, spans, blocks[1..], CloseOne(job, spans, b, out), more, found + 1);
        YieldsOneMore(job, spans, CloseAll(job, spans, blocks, out), blocks, metas, found);
      }
    }
  }

  // ---------- the outcome ----------

  /** What the blocks to be found make of a whole source. */
  ghost function BlocksOutcome(job: BlocksJob): BlocksResult {
    var spans := SpansOf(job.data);
    var contents := SpanContents(job, spans);
    BlocksFromWithin(contents, job.pats, 0);
    var blocks, open := BlocksFrom(contents, job.pats, 0), OpenFrom(contents, job.pats, 0);
    if CapExceeded(job, |NonEmpty(blocks)|) then BlocksFailed(TooManyBlocks(job.maxFiles, job.maxFiles + 1))
    else if open.Some? then BlocksFailed(UnclosedBlock(open.value + 1))
    else if blocks == [] then BlocksFailed(NoBlocksFound)
    else
      MetasOfLength(job, spans, blocks, 0, 0);
      var metas := MetasOf(job, spans, blocks, 0, 0);
      BlocksDone(metas, |blocks|, |metas|, |blocks| - |metas|)
  }

  lemma {:induction false} MetasOfLength(job: BlocksJob, spans: seq<LineSpan>, blocks: seq<Closed>, emitted: nat,
                                         found: nat)
    requires Within(blocks, |spans|)
    ensures |MetasOf(job, spans, blocks, emitted, found)| == |NonEmpty(blocks)| <= |blocks|
    decreases |blocks|
  {
    if blocks != [] {
      MetasOfLength(job, spans, blocks[1..], if IsEmpty(blocks[0]) then emitted else emitted + 1, found + 1);
    }
  }

  /** What the machine makes of a whole source. */
  function ScanResult(job: BlocksJob): BlocksResult {
    Finish(Feed(Callback(job), INITIAL, SpansOf(job.data)))
  }

  /** The machine, run over the spans of the source, ends with that outcome. */
  lemma MachineYieldsOutcome(job: BlocksJob)
    ensures ScanResult(job) == BlocksOutcome(job)
  {
    var spans := SpansOf(job.data);
    var contents := SpanContents(job, spans);
    var blocks, open := BlocksFrom(contents, job.pats, 0), OpenFrom(contents, job.pats, 0);
    assert spans[0..] == spans;
    CallbackIsCallback(job);
    RunOutside(job, Callback(job), spans, contents, 0, INITIAL);
    FeedFromIsFeed(Callback(job), INITIAL, spans, 0);
    CloseAllYields(job, spans, blocks, INITIAL.out, [], 0);
    MetasOfLength(job, spans, blocks, 0, 0);
    assert [] + MetasOf(job, spans, blocks, 0, 0) == MetasOf(job, spans, blocks, 0, 0);
    Split.SpansChain(job.data);
    if open.Some? && open.value < |spans| {
      assert Split.ChainAt(job.data, spans, open.value);
    }
  }

  lemma CallbackIsCallback(job: BlocksJob)
    ensures IsCallback(job, Callback(job))
  {
    forall st, span ensures StepIs(job, Callback(job), st, span) {
    }
  }

  // ---------- byte spans and lines ----------

  /** m is the metadata of this block under this number. */
  ghost predicate Describes(job: BlocksJob, spans: seq<LineSpan>, m: BlockMeta, b: Closed, emitted: nat) {
    && b.start + 1 < b.end < |spans|
    && m.name == SequentialFilename(emitted, job.ext) && m.emittedOrdinal == emitted
    && m.outStart == OutStart(job, spans, b) && m.outEnd == OutEnd(job, spans, b)
    && m.fingerprint == job.sha(Slice(job.data, m.outStart, m.outEnd))
  }

  lemma MetaDescribes(job: BlocksJob, spans: seq<LineSpan>, b: Closed, emitted: nat, found: nat)
    requires b.start + 1 < b.end < |spans|
    ensures Describes(job, spans, MetaOf(job, spans, b, emitted, found), b, emitted)
  {
  }

  lemma MetasHead(job: BlocksJob, spans: seq<LineSpan>, blocks: seq<Closed>, emitted: nat, found: nat)
    requires Within(blocks, |spans|) && blocks != []
    ensures if IsEmpty(blocks[0]) then
        && NonEmpty(blocks) == NonEmpty(blocks[1..])
        && MetasOf(job, spans, blocks, emitted, found) == MetasOf(job, spans, blocks[1..], emitted, found + 1)
      else
        && NonEmpty(blocks) == [blocks[0]] + NonEmpty(blocks[1..])
        && MetasOf(job, spans, blocks, emitted, found) ==
           [MetaOf(job, spans, blocks[0], emitted + 1, found + 1)] +
           MetasOf(job, spans, blocks[1..], emitted + 1, found + 1)
  {
  }

  ghost predicate DescribesAll(job: BlocksJob, spans: seq<LineSpan>, metas: seq<BlockMeta>, blocks: seq<Closed>,
                               emitted: nat)
  {
    && |metas| == |blocks|
    && forall i :: 0 <= i < |metas| ==> Describes(job, spans, metas[i], blocks[i], emitted + 1 + i)
  }

  lemma DescribesOneMore(job: BlocksJob, spans: seq<LineSpan>, m: BlockMeta, metas: seq<BlockMeta>,
                         b: Closed, blocks: seq<Closed>, emitted: nat)
    requires Describes(job, spans, m, b, emitted + 1) && DescribesAll(job, spans, metas, blocks, emitted + 1)
    ensures DescribesAll(job, spans, [m] + metas, [b] + blocks, emitted)
  {
    var ms, bs := [m] + metas, [b] + blocks;
    forall i | 0 <= i < |ms| ensures Describes(job, spans, ms[i], bs[i], emitted + 1 + i) {
      if i > 0 {
        assert ms[i] == metas[i - 1] && bs[i] == blocks[i - 1];
        assert Describes(job, spans, metas[i - 1], blocks[i - 1], emitted + 1 + 1 + (i - 1));
      }
    }
  }

  /** The metadata, in order, is that of the non-empty blocks. */
  lemma {:induction false} MetasDescribe(job: BlocksJob, spans: seq<LineSpan>, blocks: seq<Closed>, emitted: nat,
                                         found: nat)
    requires Within(blocks, |spans|)
    ensures DescribesAll(job, spans, MetasOf(job, spans, blocks, emitted, found), NonEmpty(blocks), emitted)
    decreases |blocks|
  {
    if blocks != [] {
      var b, rest := blocks[0], blocks[1..];
      MetasHead(job, spans, blocks, emitted, found);
      if IsEmpty(b) {
        MetasDescribe(job, spans, rest, emitted, found + 1);
      } else {
        MetaDescribes(job, spans, b, emitted + 1, found + 1);
        MetasDescribe(job, spans, rest, emitted + 1, found + 1);
        DescribesOneMore(job, spans, MetaOf(job, spans, b, emitted + 1, found + 1),
                         MetasOf(job, spans, rest, emitted + 1, found + 1), b, NonEmpty(rest), emitted);
      }
    }
  }

  /** On every source, each block's byte span is the serialization of its lines, with or without the delimiter lines. */
  lemma BlockIsByteSpan(job: BlocksJob, b: Closed)
    requires b.start + 1 < b.end < |SpansOf(job.data)|
    ensures |SpanLines(job.data)| == |SpansOf(job.data)|
    ensures Slice(job.data, OutStart(job, SpansOf(job.data), b), OutEnd(job, SpansOf(job.data), b)) ==
            Serialize(BlockLines(SpanLines(job.data), b, job.withDelims))
  {
    if job.withDelims {
      SplitLaws.SpansSpell(job.data, b.start, b.end + 1);
    } else {
      SplitLaws.SpansSpell(job.data, b.start + 1, b.end);
    }
  }

  /** The same name, and bytes that serialize the block's lines. */
  ghost predicate SameBlock(job: BlocksJob, m: BlockMeta, block: Block) {
    m.name == block.name && Slice(job.data, m.outStart, m.outEnd) == Serialize(block.lines)
  }

  /** The two results say the same: the same error, or the same number of blocks found and the same blocks. */
  ghost predicate Agree(job: BlocksJob, seekable: BlocksResult, memory: MemoryResult) {
    match (seekable, memory)
    case (BlocksFailed(e), MemoryFailed(f)) => e == f
    case (BlocksDone(metas, found, files, _), MemoryDone(blocks, memoryFound)) =>
      && found == memoryFound && files == |metas| == |blocks|
      && forall i :: 0 <= i < |metas| ==> SameBlock(job, metas[i], blocks[i])
    case _ => false
  }

  lemma BlocksAgree(job: BlocksJob, closed: seq<Closed>, blocks: seq<Block>)
    requires Within(closed, |SpansOf(job.data)|) && |SpanLines(job.data)| == |SpansOf(job.data)|
    requires BlocksMatch(blocks, NonEmpty(closed), SpanLines(job.data), job.withDelims, job.ext)
    ensures var metas := MetasOf(job, SpansOf(job.data), closed, 0, 0);
      |metas| == |blocks| && forall i :: 0 <= i < |metas| ==> SameBlock(job, metas[i], blocks[i])
  {
    var metas := MetasOf(job, SpansOf(job.data), closed, 0, 0);
    MetasOfLength(job, SpansOf(job.data), closed, 0, 0);
    MetasDescribe(job, SpansOf(job.data), closed, 0, 0);
    forall i | 0 <= i < |metas| ensures SameBlock(job, metas[i], blocks[i]) {
      assert Describes(job, SpansOf(job.data), metas[i], NonEmpty(closed)[i], 1 + i);
      BlockIsByteSpan(job, NonEmpty(closed)[i]);
    }
  }

  lemma ContentsAgree(job: BlocksJob)
    ensures |SpanLines(job.data)| == |SpansOf(job.data)|
    ensures SpanContents(job, SpansOf(job.data)) == Contents(SpanLines(job.data))
  {
    SpansTile(job.data);
    LinesOfAt(job.data, SpansOf(job.data), 0, 0);
  }

  /** Without adjacent CRs and without a cap, the seekable scan and the in-memory scan agree. */
  lemma SeekableAndMemoryAgree(job: BlocksJob, memory: MemoryResult)
    requires NoAdjacentCR(job.data) && job.maxFiles <= 0
    requires MemoryOutcome(memory, ReadLines(job.data), job.pats, job.withDelims, job.ext)
    ensures Agree(job, ScanResult(job), memory)
  {
    MachineYieldsOutcome(job);
    ReadersAgreeIffNoAdjacentCR(job.data);
    ContentsAgree(job);
    var contents := SpanContents(job, SpansOf(job.data));
    BlocksFromWithin(contents, job.pats, 0);
    if memory.MemoryDone? {
      BlocksAgree(job, BlocksFrom(contents, job.pats, 0), memory.blocks);
    }
  }

  /** The cap is exact: the scan fails with it if and only if more than maxFiles closed blocks have inner lines. Empty
      blocks do not count. */
  lemma CapIsExact(job: BlocksJob)
    ensures var contents := SpanContents(job, SpansOf(job.data));
      ScanResult(job).BlocksFailed? && ScanResult(job).error.TooManyBlocks? <==>
      job.maxFiles > 0 && |NonEmpty(BlocksFrom(contents, job.pats, 0))| > job.maxFiles
  {
    MachineYieldsOutcome(job);
    BlocksFromWithin(SpanContents(job, SpansOf(job.data)), job.pats, 0);
  }

  // ---------- the code ----------

  /** The literals that stand for the two patterns, where they are literals. */
  datatype Literals = Literals(start: Option<Literal>, end: Option<Literal>)

  /** The scanner of blocks. Delimiters are matched and spans hashed on the stream that is being scanned. */
  class BlocksSeekScanner {
    const job: BlocksJob
    const src: Source
    const fast: Literals
    var existing: set<string>
    var inside: bool
    var startSpan: LineSpan
    var innerCount: nat
    var firstInnerSeen: bool
    var firstInner: LineSpan
    var lastInner: LineSpan
    var blocksFound: nat
    var emptyDiscarded: nat
    var emitted: nat
    var metas: seq<BlockMeta>
    ghost var tail: nat

    constructor (job: BlocksJob, src: Source, fast: Literals)
      requires src.data == job.data && |src.data| <= MAX_INT64
      requires StandsFor(fast.start, job.pats.start) && StandsFor(fast.end, job.pats.end)
      ensures this.job == job && this.src == src && Abs() == INITIAL && Valid() && tail == 0
    {
      this.job, this.src, this.fast := job, src, fast;
      existing, inside, startSpan, innerCount, firstInnerSeen := {}, false, NO_SPAN, 0, false;
      firstInner, lastInner, blocksFound, emptyDiscarded, emitted, metas := NO_SPAN, NO_SPAN, 0, 0, 0, [];
      tail := 0;
    }

    ghost function Abs(): BlocksState
      reads this
    {
      var out := BlocksOut(metas, blocksFound, emptyDiscarded, emitted, None);
      BlocksState(out, inside, startSpan, innerCount, firstInner, lastInner)
    }

    /** What is remembered of an open block lies before the end of the last line seen. */
    ghost predicate Remembers()
      reads this
    {
      && tail <= |src.data|
      && (inside ==> startSpan.start <= tail)
      && (inside && innerCount > 0 ==> firstInner.start <= lastInner.end <= tail)
    }

    ghost predicate Valid()
      reads this
    {
      && src.data == job.data && |src.data| <= MAX_INT64
      && StandsFor(fast.start, job.pats.start) && StandsFor(fast.end, job.pats.end)
      && existing == NamesUpTo(job.ext, emitted) && (firstInnerSeen <==> innerCount > 0) && Remembers()
    }

    method StartBlock(span: LineSpan)
      requires Valid() && span.start <= tail
      modifies this`inside, this`startSpan, this`innerCount, this`firstInnerSeen
      ensures Valid() && Abs() == old(Abs()).(inside := true, startSpan := span, innerCount := 0)
    {
      inside, startSpan, innerCount, firstInnerSeen := true, span, 0, false;
    }

    method RecordInnerBlockLine(span: LineSpan)
      requires Valid() && inside && span.start <= span.end <= tail
      requires innerCount > 0 ==> firstInner.start <= span.end
      modifies this`innerCount, this`firstInner, this`firstInnerSeen, this`lastInner
      ensures Valid() && Abs() == old(Abs()).(innerCount := old(innerCount) + 1, lastInner := span,
        firstInner := if old(innerCount) == 0 then span else old(firstInner))
    {
      innerCount := innerCount + 1;
      if !firstInnerSeen {
        firstInner, firstInnerSeen := span, true;
      }
      lastInner := span;
    }

    function OutputStart(): nat
      reads this
    {
      if job.withDelims then startSpan.start else firstInner.start
    }

    function OutputEnd(endSpan: LineSpan): nat
      reads this
    {
      if job.withDelims then endSpan.end else lastInner.end
    }

    /** The metadata of the block that ends at endSpan, under the next number. */
    method EmitMeta(endSpan: LineSpan, count: nat, ordinal: nat) returns (ok: bool)
      requires existing == NamesUpTo(job.ext, emitted) && src.data == job.data
      requires OutputStart() <= OutputEnd(endSpan) <= |src.data| <= MAX_INT64
      modifies this`metas, this`existing, this`emitted, src
      ensures (!ok || old(src.faulted)) ==> src.faulted
      ensures ok ==> existing == NamesUpTo(job.ext, emitted) && emitted == old(emitted) + 1
      ensures ok ==> metas == old(metas) + [MetaFor(job, SequentialFilename(emitted, job.ext),
        BlocksState(BlocksOut([], ordinal, 0, emitted, None), true, startSpan, count, firstInner, lastInner), endSpan)]
    {
      var fingerprint;
      ok, fingerprint := SHA256SerializedByteSpan(src, OutputStart(), OutputEnd(endSpan), job.sha);
      if !ok {
        return;
      }
      NextNameIsFree(job.ext, emitted);
      emitted := emitted + 1;
      var name;
      name, existing := DeduplicateFilename(SequentialFilename(emitted, job.ext), existing);
      metas := metas + [BlockMeta(name, startSpan.lineNum, firstInner.lineNum, lastInner.lineNum, endSpan.lineNum,
                                  count, emitted, ordinal, firstInner.start, lastInner.end,
                                  OutputStart(), OutputEnd(endSpan), fingerprint)];
    }

    method CloseBlock(endSpan: LineSpan) returns (ok: bool, err: Option<BlocksError>)
      requires Valid() && inside && endSpan.end == tail && startSpan.start <= endSpan.end
      modifies this, src
      ensures ok ==> err == old(BlockClosed(job, Abs(), endSpan)).failure
      ensures ok && err == None ==> Valid() && tail == old(tail)
      ensures ok && err == None ==>
        Abs() == old(Abs().(out := BlockClosed(job, Abs(), endSpan), inside := false, innerCount := 0))
      ensures (!ok || old(src.faulted)) ==> src.faulted
    {
      ghost var closed := BlockClosed(job, Abs(), endSpan);
      ok, err := true, None;
      blocksFound := blocksFound + 1;
      var ordinal, count := blocksFound, innerCount;
      inside, innerCount, firstInnerSeen := false, 0, false;
      if count == 0 {
        emptyDiscarded := emptyDiscarded + 1;
        return;
      }
      if !(job.maxFiles <= 0 || emitted + 1 <= job.maxFiles) {
        err := Some(TooManyBlocks(job.maxFiles, emitted + 1));
        return;
      }
      ok := EmitMeta(endSpan, count, ordinal);
      assert ok ==> Abs().out == closed;
    }

    /** One line of the scan: what the callback does between saving and restoring the offset. */
    method HandleLineSpan(span: LineSpan) returns (ok: bool, err: Option<BlocksError>)
      requires Valid() && SpanFits(src.data, span) && tail <= span.start
      modifies this, src
      ensures ok ==> match old(Callback(job)(Abs(), span))
        case Halt(next) => err == next.out.failure && err.Some?
        case Continue(next) => err == None && Abs() == next && Valid() && tail == span.end
      ensures (!ok ==> src.Unsteady()) && (old(src.faulted) ==> src.faulted)
    {
      tail := span.end;
      err := None;
      var matched;
      if !inside {
        ok, matched := MatchLineSpan(src, span, job.pats.start, fast.start);
        if ok && matched {
          StartBlock(span);
        }
      } else {
        ok, matched := MatchLineSpan(src, span, job.pats.end, fast.end);
        if ok && matched {
          ok, err := CloseBlock(span);
        } else if ok {
          RecordInnerBlockLine(span);
        }
      }
    }
  }

  /** One line is fed to the scanner, isolated on the shared stream. */
  method FeedScanner(scanner: ScannerState, sc: BlocksSeekScanner, span: LineSpan)
    returns (ok: bool, err: Option<BlocksError>)
    requires scanner.Valid() && scanner.HandedOver(span) && sc.src == scanner.src
    requires sc.Valid() && sc.tail == scanner.lineBegin
    modifies sc, sc.src
    ensures ok ==> match old(Callback(sc.job)(sc.Abs(), span))
      case Halt(next) => err == next.out.failure && err.Some?
      case Continue(next) => err == None && sc.Abs() == next && sc.Valid() && scanner.Valid()
    ensures ok && err == None ==> sc.tail == span.end
    ensures !ok ==> sc.src.Unsteady()
  {
    var saved;
    scanner.HandedOverFits(span);
    saved, ok := scanner.SaveOffset(span);
    if !ok {
      return false, None;
    }
    ok, err := sc.HandleLineSpan(span);
    var restored := scanner.RestoreOffset(saved, span);
    ok := ok && (restored || err.Some?);
  }

  /** The scanner of blocks has seen exactly the lines handed over so far. */
  ghost predicate InStep(scanner: ScannerState, sc: BlocksSeekScanner)
    reads scanner, scanner.buf, scanner.src, sc
  {
    && scanner.Valid() && scanner.Tracks() && sc.Valid() && sc.src == scanner.src && sc.tail == scanner.lineBegin
    && Feed(Callback(sc.job), INITIAL, scanner.emitted) == Continue(sc.Abs())
  }

  datatype LineStep = NextLine | LastLine | Stopped(error: BlocksError) | StreamTrouble

  /** One line, handed over, takes both scanners on to the next. */
  method FeedLine(scanner: ScannerState, sc: BlocksSeekScanner, span: LineSpan) returns (r: LineStep)
    requires scanner.Valid() && scanner.HandedOver(span) && sc.src == scanner.src
    requires sc.Valid() && sc.tail == scanner.lineBegin
    requires Feed(Callback(sc.job), INITIAL, scanner.emitted) == Continue(sc.Abs())
    modifies scanner`cursor, scanner`lineBegin, scanner`emitted, scanner`base, scanner`fill, scanner.buf
    modifies scanner.src, sc
    ensures !r.LastLine? && (r.NextLine? ==> InStep(scanner, sc) && scanner.emitted == old(scanner.emitted) + [span])
    ensures r.Stopped? ==> ScanResult(sc.job) == BlocksFailed(r.error)
    ensures r.StreamTrouble? ==> scanner.src.Unsteady()
  {
    FedOneMore(Callback(sc.job), INITIAL, scanner.emitted, span, SpansOf(scanner.src.data));
    var ok, err := FeedScanner(scanner, sc, span);
    if !ok {
      return StreamTrouble;
    }
    if err.Some? {
      return Stopped(err.value);
    }
    scanner.LineDone(span);
    r := NextLine;
  }

  /** Finds the next line and feeds it to the scanner of blocks. */
  method ScanLine(scanner: ScannerState, sc: BlocksSeekScanner) returns (r: LineStep)
    requires InStep(scanner, sc)
    modifies scanner, scanner.buf, scanner.src, sc
    ensures scanner.buf == old(scanner.buf) || fresh(scanner.buf)
    ensures r.NextLine? ==> InStep(scanner, sc) && |scanner.emitted| == |old(scanner.emitted)| + 1
    ensures r.NextLine? ==> |scanner.emitted| <= |SpansOf(scanner.src.data)|
    ensures r.LastLine? ==> InStep(scanner, sc) && scanner.emitted == SpansOf(scanner.src.data)
    ensures r.Stopped? ==> ScanResult(sc.job) == BlocksFailed(r.error)
    ensures r.StreamTrouble? ==> scanner.src.Unsteady()
  {
    var found := scanner.NextSpan();
    if found.Broken? {
      return StreamTrouble;
    }
    if found.NoMoreSpans? {
      return LastLine;
    }
    r := FeedLine(scanner, sc, found.span);
  }

  /** The whole block scan over a stream that its callback shares: the result is the outcome of the source, and there is
      none only when the stream gives trouble. */
  method ScanBlocksMeta(src: Source, job: BlocksJob, fast: Literals) returns (ok: bool, result: BlocksResult)
    requires src.data == job.data && |src.data| <= MAX_INT64
    requires StandsFor(fast.start, job.pats.start) && StandsFor(fast.end, job.pats.end)
    modifies src
    ensures ok ==> result == BlocksOutcome(job)
    ensures !ok ==> src.Unsteady()
  {
    result := BlocksFailed(NoBlocksFound);
    ok := src.SeekTo(0);
    if !ok {
      return;
    }
    MachineYieldsOutcome(job);
    var scanner := new ScannerState(src, if job.maxFiles > 0 then BOUNDED_CHUNK_SIZE else DEFAULT_CHUNK_SIZE);
    var sc := new BlocksSeekScanner(job, src, fast);
    var r := NextLine;
    while r == NextLine
      invariant r == NextLine || r == LastLine ==> InStep(scanner, sc)
      invariant scanner.src == src && sc.job == job && fresh(scanner) && fresh(scanner.buf) && fresh(sc)
      invariant r == LastLine ==> scanner.emitted == SpansOf(src.data)
      invariant r.Stopped? ==> ScanResult(job) == BlocksFailed(r.error)
      invariant r == StreamTrouble ==> src.Unsteady()
      decreases r == NextLine, |SpansOf(src.data)| - |scanner.emitted|
    {
      r := ScanLine(scanner, sc);
    }
    match r
    case Stopped(error) => ok, result := true, BlocksFailed(error);
    case StreamTrouble => ok := false;
    case LastLine =>
      if sc.inside {
        result := BlocksFailed(UnclosedBlock(sc.startSpan.lineNum));
      } else if sc.blocksFound != 0 {
        result := BlocksDone(sc.metas, sc.blocksFound, |sc.metas|, sc.emptyDiscarded);
      }
  }
}
