/** Extracting a range of lines: planning a byte span over a seekable source, and streaming lines from any other. */
module Extract {
  import opened Bytes
  import opened Streams
  import opened Lines
  import opened Spans
  import opened Scanner
  import opened SpanCopy
  import Split
  import SplitLaws

  /** As given: 1-based and inclusive, 0 for an open side. Nothing keeps either side from being negative. */
  datatype LineRange = LineRange(start: int, end: int)

  datatype RangeError =
    | EmptyRange(start: int, end: int) | RangeExceedsFile(fileLines: int, start: int, end: int) | MissingSpan

  function NormStart(lr: LineRange): int {
    if lr.start == 0 then 1 else lr.start
  }

  function NormalizeExtractRange(lr: LineRange, lineCount: int): Option<RangeError> {
    var start := NormStart(lr);
    var end := if lr.end == 0 then lineCount else lr.end;
    if start > end then Some(EmptyRange(start, end))
    else if end > lineCount then Some(RangeExceedsFile(lineCount, start, end))
    else None
  }

  function ValidationLineCount(lr: LineRange, linesInFile: nat): int {
    if lr.end != 0 && linesInFile >= lr.end then lr.end else linesInFile
  }

  // ---------- the plan over line spans ----------

  datatype PlanState = PlanState(linesInFile: nat, linesSelected: nat, start: nat, end: nat)

  predicate InRange(lr: LineRange, lineNum: nat) {
    lineNum >= NormStart(lr) && (lr.end == 0 || lineNum <= lr.end)
  }

  function PlanLine(lr: LineRange, plan: PlanState, span: LineSpan): Step<PlanState> {
    var next :=
      if !InRange(lr, span.lineNum) then plan.(linesInFile := span.lineNum)
      else
        var start := if plan.linesSelected == 0 then span.start else plan.start;
        PlanState(span.lineNum, plan.linesSelected + 1, start, span.end);
    if lr.end != 0 && span.lineNum == lr.end then Halt(next) else Continue(next)
  }

  function OnLine(lr: LineRange): (PlanState, LineSpan) -> Step<PlanState> {
    (plan: PlanState, span: LineSpan) => PlanLine(lr, plan, span)
  }

  const NO_PLAN := PlanState(0, 0, 0, 0)

  function ValidateExtractSpanPlan(lr: LineRange, plan: PlanState): Option<RangeError> {
    if lr.end == 0 && plan.linesInFile < NormStart(lr) then
      Some(RangeExceedsFile(plan.linesInFile, NormStart(lr), lr.end))
    else
      var err := NormalizeExtractRange(lr, ValidationLineCount(lr, plan.linesInFile));
      if err.Some? then err else if plan.linesSelected == 0 then Some(MissingSpan) else None
  }

  datatype PlanResult = PlanRefused(error: RangeError) | Planned(plan: PlanState)

  function PlanOutcome(lr: LineRange, data: seq<byte>): PlanResult {
    var plan := Feed(OnLine(lr), NO_PLAN, SpansOf(data)).state;
    var err := ValidateExtractSpanPlan(lr, plan);
    if err.Some? then PlanRefused(err.value) else Planned(plan)
  }

  datatype ExtractOutcome = Refused(error: RangeError) | Extracted(count: nat, bytes: seq<byte>)

  /** What extraction from a seekable source makes of its bytes. */
  function SeekableOutcome(lr: LineRange, data: seq<byte>): ExtractOutcome {
    if lr.end != 0 && NormStart(lr) > lr.end then Refused(EmptyRange(lr.start, lr.end))
    else match PlanOutcome(lr, data)
      case PlanRefused(error) => Refused(error)
      case Planned(plan) => Extracted(plan.linesSelected, Slice(data, plan.start, plan.end))
  }

  // ---------- what an extraction is, said about lines ----------

  /** The lines whose number is in range. */
  function Selected(lr: LineRange, lines: seq<Line>): seq<Line> {
    if lines == [] then []
    else Selected(lr, lines[..|lines| - 1]) + if InRange(lr, |lines|) then [lines[|lines| - 1]] else []
  }

  /** The number of the last line the range needs the file to have. */
  function Needed(lr: LineRange): int {
    if lr.end == 0 then NormStart(lr) else lr.end
  }

  function Expected(lr: LineRange, lines: seq<Line>): ExtractOutcome {
    if lr.end != 0 && NormStart(lr) > lr.end then Refused(EmptyRange(lr.start, lr.end))
    else if Needed(lr) > |lines| then Refused(RangeExceedsFile(|lines|, NormStart(lr), lr.end))
    else Extracted(|Selected(lr, lines)|, Serialize(Selected(lr, lines)))
  }

  /** A range that passes every check and still selects nothing. Its start is negative. */
  predicate Degenerate(lr: LineRange, n: nat) {
    if lr.end == 0 then lr.start < 0 && n == 0 else NormStart(lr) <= lr.end < 0
  }

  // ---------- selected lines form a window ----------

  function First(lr: LineRange): nat {
    if NormStart(lr) > 1 then NormStart(lr) - 1 else 0
  }

  function Behind(lr: LineRange, n: nat): nat {
    if lr.end == 0 || lr.end >= n then n else if lr.end < 0 then 0 else lr.end
  }

  function LineWindow(lines: seq<Line>, lo: nat, hi: nat): seq<Line> {
    if lo < hi <= |lines| then lines[lo..hi] else []
  }

  lemma LineWindowSnoc(front: seq<Line>, last: Line, lo: nat, hi: nat)
    requires hi <= |front|
    ensures LineWindow(front + [last], lo, hi) == LineWindow(front, lo, hi)
    ensures lo <= |front| ==> LineWindow(front + [last], lo, |front| + 1) == LineWindow(front, lo, |front|) + [last]
  {
  }

  lemma {:induction false} SelectedIsWindow(lr: LineRange, lines: seq<Line>)
    ensures Behind(lr, |lines|) <= |lines|
    ensures Selected(lr, lines) == LineWindow(lines, First(lr), Behind(lr, |lines|))
    decreases |lines|
  {
    if lines != [] {
      var n := |lines| - 1;
      SelectedIsWindow(lr, lines[..n]);
      assert lines == lines[..n] + [lines[n]];
      LineWindowSnoc(lines[..n], lines[n], First(lr), Behind(lr, n));
    }
  }

  /** The plan once the first i spans have been seen. */
  function PlanAt(lr: LineRange, spans: seq<LineSpan>, i: nat): PlanState
    requires i <= |spans|
  {
    var lo, hi := First(lr), Behind(lr, i);
    if lo < hi then PlanState(i, hi - lo, spans[lo].start, spans[hi - 1].end) else PlanState(i, 0, 0, 0)
  }

  lemma PlanStep(lr: LineRange, spans: seq<LineSpan>, i: nat)
    requires i < |spans| && spans[i].lineNum == i + 1 && (lr.end > 0 ==> i < lr.end)
    ensures PlanLine(lr, PlanAt(lr, spans, i), spans[i]) ==
            if lr.end == i + 1 then Halt(PlanAt(lr, spans, i + 1)) else Continue(PlanAt(lr, spans, i + 1))
  {
  }

  /** How many lines the scan sees before it stops. */
  function Seen(lr: LineRange, n: nat): nat {
    if 1 <= lr.end <= n then lr.end else n
  }

  lemma {:induction false} PlanScan(lr: LineRange, spans: seq<LineSpan>, i: nat)
    requires forall k :: 0 <= k < |spans| ==> spans[k].lineNum == k + 1
    requires i <= |spans| && (lr.end > 0 ==> i < lr.end)
    ensures FeedFrom(OnLine(lr), PlanAt(lr, spans, i), spans, i).state == PlanAt(lr, spans, Seen(lr, |spans|))
    decreases |spans| - i
  {
    if i < |spans| {
      PlanStep(lr, spans, i);
      if lr.end != i + 1 {
        PlanScan(lr, spans, i + 1);
      }
    }
  }

  lemma PlanSeesWindow(lr: LineRange, data: seq<byte>)
    ensures Feed(OnLine(lr), NO_PLAN, SpansOf(data)).state == PlanAt(lr, SpansOf(data), Seen(lr, |SpansOf(data)|))
  {
    var spans := SpansOf(data);
    Split.SpansChain(data);
    forall k | 0 <= k < |spans| ensures spans[k].lineNum == k + 1 {
      assert Split.ChainAt(data, spans, k);
    }
    assert spans[0..] == spans;
    FeedFromIsFeed(OnLine(lr), NO_PLAN, spans, 0);
    PlanScan(lr, spans, 0);
  }

  /** The planned bytes spell exactly the selected lines, and there is at least one. */
  ghost predicate PlanSpells(lr: LineRange, data: seq<byte>, plan: PlanState) {
    var chosen := Selected(lr, SpanLines(data));
    plan.linesSelected == |chosen| > 0 && Slice(data, plan.start, plan.end) == Serialize(chosen)
  }

  lemma SameWindow(lr: LineRange, spans: seq<LineSpan>)
    requires First(lr) < Behind(lr, |spans|) <= |spans|
    ensures var lo, hi := First(lr), Behind(lr, |spans|);
      PlanAt(lr, spans, Seen(lr, |spans|)) == PlanState(Seen(lr, |spans|), hi - lo, spans[lo].start, spans[hi - 1].end)
  {
  }

  lemma WindowSpells(lr: LineRange, data: seq<byte>)
    requires First(lr) < Behind(lr, |SpansOf(data)|)
    ensures PlanSpells(lr, data, PlanAt(lr, SpansOf(data), Seen(lr, |SpansOf(data)|)))
  {
    var spans, lines := SpansOf(data), SpanLines(data);
    SameLineCount(data);
    SelectedIsWindow(lr, lines);
    SameWindow(lr, spans);
    SplitLaws.SpansSpell(data, First(lr), Behind(lr, |spans|));
  }

  /** Planning on every source and every range: which of the three errors, or a span that spells the selected lines. */
  lemma PlanIsExact(lr: LineRange, data: seq<byte>)
    ensures var n, outcome := |SpansOf(data)|, PlanOutcome(lr, data);
      if lr.end != 0 && NormStart(lr) > lr.end then outcome == PlanRefused(EmptyRange(NormStart(lr), lr.end))
      else if Needed(lr) > n then outcome == PlanRefused(RangeExceedsFile(n, NormStart(lr), lr.end))
      else if Degenerate(lr, n) then outcome == PlanRefused(MissingSpan)
      else outcome.Planned? && PlanSpells(lr, data, outcome.plan)
  {
    PlanSeesWindow(lr, data);
    if First(lr) < Behind(lr, |SpansOf(data)|) {
      WindowSpells(lr, data);
    }
  }

  lemma SameLineCount(data: seq<byte>)
    ensures |SpanLines(data)| == |SpansOf(data)|
  {
    SpansTile(data);
    LinesOfAt(data, SpansOf(data), 0, 0);
  }

  /** A seekable extraction gives the selected lines of the span division and the right error, except on a degenerate
      range, where it reports a missing span. */
  lemma SeekableIsExpected(lr: LineRange, data: seq<byte>)
    ensures var n := |SpanLines(data)|;
      && (SeekableOutcome(lr, data) == Expected(lr, SpanLines(data)) <==> !Degenerate(lr, n))
      && (SeekableOutcome(lr, data) == Refused(MissingSpan) <==> Degenerate(lr, n))
  {
    SameLineCount(data);
    PlanIsExact(lr, data);
  }

  /** For a start that is not negative: success exactly when the range is non-empty and the file long enough, and the
      missing-span error is never reported. */
  lemma SucceedsWhenSatisfiable(lr: LineRange, data: seq<byte>)
    requires lr.start >= 0
    ensures var n := |SpanLines(data)|;
      && (SeekableOutcome(lr, data).Extracted? <==> NormStart(lr) <= (if lr.end == 0 then n else lr.end) <= n)
      && SeekableOutcome(lr, data) != Refused(MissingSpan)
  {
    SeekableIsExpected(lr, data);
  }

  /** On sources without adjacent CRs the two kinds of source give the same bytes, count and errors, except exactly on
      degenerate ranges. */
  lemma SeekableAndStreamAgree(lr: LineRange, data: seq<byte>)
    requires NoAdjacentCR(data)
    ensures SeekableOutcome(lr, data) == Expected(lr, ReadLines(data)) <==> !Degenerate(lr, |ReadLines(data)|)
  {
    ReadersAgreeIffNoAdjacentCR(data);
    SeekableIsExpected(lr, data);
  }

  /** A negative start gets through: on an empty source the two kinds of source then part ways. */
  lemma MissingSpanIsReachable()
    ensures SeekableOutcome(LineRange(-5, 0), []) == Refused(MissingSpan)
    ensures Expected(LineRange(-5, 0), ReadLines([])) == Extracted(0, [])
  {
    SameLineCount([]);
    SeekableIsExpected(LineRange(-5, 0), []);
  }

  // ---------- streaming lines ----------

  lemma {:induction false} NothingLater(lr: LineRange, lines: seq<Line>, i: nat)
    requires 0 < lr.end <= i <= |lines|
    ensures Selected(lr, lines) == Selected(lr, lines[..i])
    decreases |lines|
  {
    if i < |lines| {
      NothingLater(lr, lines[..|lines| - 1], i);
      assert lines[..|lines| - 1][..i] == lines[..i];
    } else {
      assert lines[..i] == lines;
    }
  }

  lemma SelectedNext(lr: LineRange, done: seq<Line>, line: Line)
    ensures Selected(lr, done + [line]) ==
            Selected(lr, done) + if InRange(lr, |done| + 1) then [line] else []
  {
    assert (done + [line])[..|done|] == done;
  }

  lemma {:induction false} SelectedGrows(lr: LineRange, done: seq<Line>, more: seq<Line>)
    ensures Selected(lr, done) <= Selected(lr, done + more)
    decreases |more|
  {
    if more == [] {
      assert done + more == done;
    } else {
      var n := |more| - 1;
      assert done + more == (done + more[..n]) + [more[n]];
      SelectedGrows(lr, done, more[..n]);
      SelectedNext(lr, done + more[..n], more[n]);
    }
  }

  /** The lines of a closed range, read up to its last line and no further. */
  method ExtractClosedRangeSelectedLines(src: Source, lr: LineRange)
    returns (ok: bool, selected: seq<Line>, lineNum: nat)
    requires src.off <= |src.data| && lr.end != 0
    modifies src
    ensures ok ==> var lines := ReadLines(old(src.data[src.off..]));
      selected == Selected(lr, lines) && lineNum == Seen(lr, |lines|)
    ensures !ok ==> src.Unsteady()
  {
    selected, lineNum := [], 0;
    var br := new BufReader(src);
    var stream := new LineStream(br);
    ghost var lines, done: seq<Line> := stream.Pending(), [];
    while true
      invariant br.Valid() && lines == done + stream.Pending()
      invariant selected == Selected(lr, done) && lineNum == |done| && (lr.end > 0 ==> lineNum < lr.end)
      decreases |stream.Pending()|
    {
      var r := stream.Next();
      if r.ReadFault? {
        return false, selected, lineNum;
      }
      if r.NoMoreLines? {
        assert lines == done;
        return true, selected, lineNum;
      }
      SelectedNext(lr, done, r.line);
      lineNum := lineNum + 1;
      if NormStart(lr) <= lineNum <= lr.end {
        selected := selected + [r.line];
      }
      done := done + [r.line];
      if lineNum == lr.end {
        assert lines[..lineNum] == done;
        NothingLater(lr, lines, lineNum);
        return true, selected, lineNum;
      }
    }
  }

  lemma SelectedPrefix(lr: LineRange, done: seq<Line>, lines: seq<Line>)
    requires done <= lines
    ensures Serialize(Selected(lr, done)) <= Serialize(Selected(lr, lines))
  {
    assert lines == done + lines[|done|..];
    SelectedGrows(lr, done, lines[|done|..]);
    FrontIsPrefix(Selected(lr, lines), |Selected(lr, done)|);
    assert Selected(lr, lines)[..|Selected(lr, done)|] == Selected(lr, done);
  }

  lemma TextNext(lr: LineRange, done: seq<Line>, line: Line)
    ensures Serialize(Selected(lr, done + [line])) ==
            if InRange(lr, |done| + 1) then Serialize(Selected(lr, done)) + (line.content + line.terminator)
            else Serialize(Selected(lr, done))
  {
    SelectedNext(lr, done, line);
    if InRange(lr, |done| + 1) {
      SerializeSnoc(Selected(lr, done), line);
    } else {
      assert Selected(lr, done + [line]) == Selected(lr, done);
    }
  }

  /** The callback of an open range: one line, written when its number is in range. */
  method WriteIfSelected(dest: Sink, lr: LineRange, line: Line, lineNum: nat,
                         ghost before: seq<byte>, ghost done: seq<Line>, ghost lines: seq<Line>)
    returns (ok: bool)
    requires lr.end == 0 && lineNum == |done| + 1 && done + [line] <= lines
    requires dest.data == before + Serialize(Selected(lr, done))
    modifies dest
    ensures ok ==> dest.data == before + Serialize(Selected(lr, done + [line]))
    ensures |Selected(lr, done + [line])| == |Selected(lr, done)| + if lineNum < NormStart(lr) then 0 else 1
    ensures !ok ==> dest.faulted && before <= dest.data <= before + Serialize(Selected(lr, lines))
  {
    TextNext(lr, done, line);
    SelectedNext(lr, done, line);
    if lineNum < NormStart(lr) {
      return true;
    }
    ghost var written, text := Serialize(Selected(lr, done)), line.content + line.terminator;
    assert before + written + text == before + (written + text);
    ok := WriteLine(dest, line);
    if !ok {
      SelectedPrefix(lr, done + [line], lines);
      PrefixBehind(before, dest.data, written, text, Serialize(Selected(lr, lines)));
    }
  }

  /** Writes each selected line as soon as it is read. A run that fails has written a prefix of what was selected. */
  method ExtractOpenEndedToWriter(src: Source, dest: Sink, lr: LineRange)
    returns (ok: bool, extracted: nat, lineNum: nat)
    requires src.off <= |src.data| && lr.end == 0
    modifies src, dest
    ensures var lines := ReadLines(old(src.data[src.off..]));
      && old(dest.data) <= dest.data <= old(dest.data) + Serialize(Selected(lr, lines))
      && (ok ==> dest.data == old(dest.data) + Serialize(Selected(lr, lines)))
      && (ok ==> extracted == |Selected(lr, lines)| && lineNum == |lines|)
    ensures !ok ==> src.Unsteady() || dest.faulted
  {
    extracted, lineNum := 0, 0;
    var br := new BufReader(src);
    var stream := new LineStream(br);
    ghost var lines, done: seq<Line>, before := stream.Pending(), [], dest.data;
    assert Serialize(Selected(lr, done)) == [];
    while true
      invariant br.Valid() && lines == done + stream.Pending()
      invariant dest.data == before + Serialize(Selected(lr, done))
      invariant extracted == |Selected(lr, done)| && lineNum == |done|
      decreases |stream.Pending()|
    {
      SelectedPrefix(lr, done, lines);
      var r := stream.Next();
      if r.ReadFault? {
        return false, extracted, lineNum;
      }
      if r.NoMoreLines? {
        assert lines == done;
        return true, extracted, lineNum;
      }
      assert done + [r.line] + stream.Pending() == lines;
      lineNum := lineNum + 1;
      ok := WriteIfSelected(dest, lr, r.line, lineNum, before, done, lines);
      if !ok {
        return;
      }
      if lineNum >= NormStart(lr) {
        extracted := extracted + 1;
      }
      done := done + [r.line];
    }
  }

  // ---------- the code ----------

  lemma PlanWithin(lr: LineRange, data: seq<byte>)
    ensures var outcome := PlanOutcome(lr, data);
      outcome.Planned? ==> outcome.plan.start <= outcome.plan.end <= |data|
  {
    PlanIsExact(lr, data);
    PlanSeesWindow(lr, data);
    if First(lr) < Behind(lr, |SpansOf(data)|) {
      SameWindow(lr, SpansOf(data));
      SplitLaws.SpansSpell(data, First(lr), Behind(lr, |SpansOf(data)|));
    }
  }

  method PlanExtractSerializedSpan(src: Source, lr: LineRange) returns (ok: bool, result: PlanResult)
    requires |src.data| <= MAX_INT64
    modifies src
    ensures ok ==> result == PlanOutcome(lr, src.data)
    ensures !ok ==> src.Unsteady()
  {
    var outcome, delivered := ScanLineSpans(src, OnLine(lr), NO_PLAN, false, BOUNDED_CHUNK_SIZE);
    if outcome.ScanFailed? {
      return false, PlanRefused(MissingSpan);
    }
    var plan := outcome.result.state;
    var err := ValidateExtractSpanPlan(lr, plan);
    ok, result := true, if err.Some? then PlanRefused(err.value) else Planned(plan);
  }

  method CopyExtractPlanBytesToWriter(dest: Sink, src: Source, plan: PlanState) returns (ok: bool, copied: seq<byte>)
    requires plan.start <= plan.end <= |src.data| <= MAX_INT64
    modifies src, dest
    ensures ok ==> copied == Slice(src.data, plan.start, plan.end) && dest.data == old(dest.data) + copied
    ensures !ok ==> src.faulted || dest.faulted || dest.cut
  {
    var bounds := SerializedSpanSeekAndLength(plan.start, plan.end);
    if bounds == None {
      assert false;
    }
    if bounds.value.1 == 0 {
      return true, [];
    }
    ok := SeekSourceToAbsolute(src, bounds.value.0);
    if !ok {
      return false, [];
    }
    ok, copied := CopySourceSpanChunks(dest, src, bounds.value.1);
  }

  /** The destination has received exactly the extracted bytes. */
  ghost predicate Delivered(before: seq<byte>, after: seq<byte>, result: ExtractOutcome) {
    after == before + if result.Extracted? then result.bytes else []
  }

  method ExtractViaSerializedSpan(src: Source, lr: LineRange, dest: Sink) returns (ok: bool, result: ExtractOutcome)
    requires |src.data| <= MAX_INT64 && !(lr.end != 0 && NormStart(lr) > lr.end)
    modifies src, dest
    ensures ok ==> result == SeekableOutcome(lr, src.data) && Delivered(old(dest.data), dest.data, result)
    ensures !ok ==> src.Unsteady() || dest.faulted || dest.cut
  {
    var planned;
    ok, planned := PlanExtractSerializedSpan(src, lr);
    if !ok {
      return false, Refused(MissingSpan);
    }
    PlanWithin(lr, src.data);
    match planned
    case PlanRefused(error) =>
      result := Refused(error);
    case Planned(plan) =>
      var copied;
      ok, copied := CopyExtractPlanBytesToWriter(dest, src, plan);
      result := Extracted(plan.linesSelected, copied);
  }

  method ExtractDispatchClosed(src: Source, lr: LineRange, dest: Sink) returns (ok: bool, result: ExtractOutcome)
    requires src.off <= |src.data| && lr.end != 0 && NormStart(lr) <= lr.end
    modifies src, dest
    ensures ok ==> result == Expected(lr, ReadLines(old(src.data[src.off..])))
    ensures ok ==> Delivered(old(dest.data), dest.data, result)
    ensures !ok ==> src.Unsteady() || dest.faulted
    ensures old(dest.data) <= dest.data
    ensures dest.data <= old(dest.data) + Serialize(Selected(lr, ReadLines(old(src.data[src.off..]))))
  {
    var selected, lineNum;
    ok, selected, lineNum := ExtractClosedRangeSelectedLines(src, lr);
    if !ok {
      return false, Refused(MissingSpan);
    }
    var err := NormalizeExtractRange(lr, if lineNum >= lr.end then lr.end else lineNum);
    if err.Some? {
      return true, Refused(err.value);
    }
    ok := WriteLinesTo(dest, selected);
    result := Extracted(|selected|, Serialize(selected));
  }

  method ExtractDispatchOpen(src: Source, lr: LineRange, dest: Sink) returns (ok: bool, result: ExtractOutcome)
    requires src.off <= |src.data| && lr.end == 0
    modifies src, dest
    ensures ok ==> result == Expected(lr, ReadLines(old(src.data[src.off..])))
    ensures ok ==> Delivered(old(dest.data), dest.data, result)
    ensures !ok ==> src.Unsteady() || dest.faulted
    ensures old(dest.data) <= dest.data
    ensures dest.data <= old(dest.data) + Serialize(Selected(lr, ReadLines(old(src.data[src.off..]))))
  {
    ghost var lines := ReadLines(src.data[src.off..]);
    var before := |dest.data|;
    var extracted, lineNum;
    ok, extracted, lineNum := ExtractOpenEndedToWriter(src, dest, lr);
    if !ok {
      return false, Refused(MissingSpan);
    }
    if lineNum < NormStart(lr) {
      SelectedIsWindow(lr, lines);
      return true, Refused(RangeExceedsFile(lineNum, NormStart(lr), lr.end));
    }
    var err := NormalizeExtractRange(lr, lineNum);
    if err.Some? {
      assert false;
    }
    result := Extracted(extracted, dest.data[before..]);
  }

  /** The whole operation. A refusal leaves the destination as it was; a success delivers exactly the selected lines;
      any other end has a fault of the source or the destination behind it. A seekable source is rewound first. */
  method ExtractTo(src: Source, seekable: bool, lr: LineRange, dest: Sink) returns (ok: bool, result: ExtractOutcome)
    requires |src.data| <= MAX_INT64 && (seekable || src.off <= |src.data|)
    modifies src, dest
    ensures ok && seekable ==> result == SeekableOutcome(lr, src.data)
    ensures ok && !seekable && old(src.off) <= |src.data| ==>
      result == Expected(lr, ReadLines(old(src.data[src.off..])))
    ensures ok ==> Delivered(old(dest.data), dest.data, result)
    ensures !ok ==> src.Unsteady() || dest.faulted || dest.cut
  {
    if lr.end != 0 && NormStart(lr) > lr.end {
      return true, Refused(EmptyRange(lr.start, lr.end));
    }
    if seekable {
      ok, result := ExtractViaSerializedSpan(src, lr, dest);
    } else if lr.end != 0 {
      ok, result := ExtractDispatchClosed(src, lr, dest);
    } else {
      ok, result := ExtractDispatchOpen(src, lr, dest);
    }
  }
}
