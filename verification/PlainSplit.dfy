/** Splitting, told by the lines of the source and the pattern alone. */
module PlainSplit {
  import opened Bytes
  import opened Lines
  import opened Spans
  import opened Naming
  import opened Split
  import opened SplitLaws
  import opened PlainLines

  /** The lines whose content matches. */
  ghost function Hits(lines: seq<Line>, matches: seq<byte> -> bool): set<nat> {
    set k: nat | k < |lines| && matches(lines[k].content)
  }

  /** The lines that do not match, in order. */
  ghost function Others(lines: seq<Line>, matches: seq<byte> -> bool): seq<Line> {
    if lines == [] then []
    else Others(lines[..|lines| - 1], matches) +
         if matches(lines[|lines| - 1].content) then [] else [lines[|lines| - 1]]
  }

  lemma MatchesInLines(job: SplitJob, k: nat)
    requires k < |SpansOf(job.data)|
    ensures |SpanLines(job.data)| == |SpansOf(job.data)|
    ensures IsDelimiter(job, SpansOf(job.data)[k]) <==> job.matches(SpanLines(job.data)[k].content)
  {
    SpansTile(job.data);
    LinesOfAt(job.data, SpansOf(job.data), 0, 0);
  }

  /** Each span says whether its line matches. */
  ghost predicate Told(job: SplitJob, spans: seq<LineSpan>, lines: seq<Line>) {
    && |spans| == |lines|
    && forall k :: 0 <= k < |spans| ==> (IsDelimiter(job, spans[k]) <==> job.matches(lines[k].content))
  }

  lemma SourceIsTold(job: SplitJob)
    ensures Told(job, SpansOf(job.data), SpanLines(job.data))
  {
    SpanLinesInBytes(job.data);
    forall k | 0 <= k < |SpansOf(job.data)| {
      MatchesInLines(job, k);
    }
  }

  lemma HitsGrow(lines: seq<Line>, matches: seq<byte> -> bool, n: nat)
    requires |lines| == n + 1
    ensures |Hits(lines, matches)| == |Hits(lines[..n], matches)| + if matches(lines[n].content) then 1 else 0
  {
    assert Hits(lines, matches) == Hits(lines[..n], matches) + if matches(lines[n].content) then {n} else {};
  }

  lemma {:induction false} HitsCounted(job: SplitJob, spans: seq<LineSpan>, lines: seq<Line>)
    requires Told(job, spans, lines)
    ensures Delimiters(job, spans) == |Hits(lines, job.matches)|
    decreases |spans|
  {
    if spans != [] {
      var n := |spans| - 1;
      HitsCounted(job, spans[..n], lines[..n]);
      HitsGrow(lines, job.matches, n);
    }
  }

  /** A section starts at line k: with delimiters kept, at the first line and at each line that matches; with stripping,
      at each line that does not match and stands first or right behind one that does. */
  ghost predicate HeadAt(job: SplitJob, lines: seq<Line>, k: nat)
    requires k < |lines|
  {
    if job.strip then !job.matches(lines[k].content) && (k == 0 || job.matches(lines[k - 1].content))
    else k == 0 || job.matches(lines[k].content)
  }

  ghost function Heads(job: SplitJob, lines: seq<Line>): set<nat> {
    set k: nat | k < |lines| && HeadAt(job, lines, k)
  }

  lemma HeadsGrow(job: SplitJob, lines: seq<Line>, n: nat)
    requires |lines| == n + 1
    ensures |Heads(job, lines)| == |Heads(job, lines[..n])| + if HeadAt(job, lines, n) then 1 else 0
  {
    forall k: nat | k < n ensures HeadAt(job, lines, k) <==> HeadAt(job, lines[..n], k) {
    }
    assert Heads(job, lines) == Heads(job, lines[..n]) + if HeadAt(job, lines, n) then {n} else {};
  }

  lemma {:induction false} HeadsCounted(job: SplitJob, spans: seq<LineSpan>, lines: seq<Line>)
    requires Told(job, spans, lines)
    ensures Starts(job, spans) == |Heads(job, lines)|
    decreases |spans|
  {
    if spans != [] {
      var n := |spans| - 1;
      HeadsCounted(job, spans[..n], lines[..n]);
      HeadsGrow(job, lines, n);
      assert StartsSection(job, spans, n) <==> HeadAt(job, lines, n);
    }
  }

  // ---------- one section ----------

  ghost predicate BytesRead(job: SplitJob, lines: seq<Line>, m: SectionMeta)
    requires 1 <= m.startLine <= m.endLine <= |lines|
  {
    && m.byteStart <= m.byteEnd <= |job.data|
    && job.data[m.byteStart..m.byteEnd] == Serialize(lines[m.startLine - 1..m.endLine])
    && m.fingerprint == job.sha(job.data[m.byteStart..m.byteEnd])
  }

  /** Section i takes lines startLine to endLine, 1-based, and their bytes; it is numbered and named i + 1. */
  ghost predicate SectionReads(job: SplitJob, lines: seq<Line>, m: SectionMeta, i: nat) {
    && 1 <= m.startLine <= m.endLine <= |lines| && m.lineCount == m.endLine - m.startLine + 1
    && m.ordinal == i + 1 && Numbered(m.name, i + 1, job.ext)
    && BytesRead(job, lines, m)
    && forall k :: m.startLine <= k < m.endLine ==> !job.matches(lines[k].content)
  }

  /** The line a section is put down to: the matching line it starts at, or with stripping the one right before it; 0
      for the preamble. */
  ghost predicate PutDown(job: SplitJob, lines: seq<Line>, m: SectionMeta)
    requires 1 <= m.startLine <= |lines|
  {
    && (m.isPreamble <==> m.startLine == 1 && !job.matches(lines[0].content))
    && m.delimiterLine == if m.isPreamble then 0 else if job.strip then m.startLine - 1 else m.startLine
  }

  /** Section i starts where it must, and with delimiters kept right behind the one before it. */
  ghost predicate SectionStands(job: SplitJob, lines: seq<Line>, sections: seq<SectionMeta>, i: nat)
    requires i < |sections|
  {
    && SectionReads(job, lines, sections[i], i) && HeadAt(job, lines, sections[i].startLine - 1)
    && PutDown(job, lines, sections[i])
    && (if job.strip then i > 0 ==> sections[i - 1].endLine < sections[i].startLine
        else sections[i].startLine == (if i == 0 then 1 else sections[i - 1].endLine + 1))
  }

  lemma SectionBytes(job: SplitJob, m: SectionMeta)
    requires 1 <= m.startLine <= m.endLine <= |SpansOf(job.data)| == |SpanLines(job.data)|
    requires m.byteStart == SpansOf(job.data)[m.startLine - 1].start
    requires m.byteEnd == SpansOf(job.data)[m.endLine - 1].end
    requires m.fingerprint == job.sha(Slice(job.data, m.byteStart, m.byteEnd))
    ensures BytesRead(job, SpanLines(job.data), m)
  {
    SpansSpell(job.data, m.startLine - 1, m.endLine);
  }

  lemma NoMatchInside(job: SplitJob, m: SectionMeta, i: nat)
    requires CutsWindow(job, SpansOf(job.data), m, i + 1) && |SpanLines(job.data)| == |SpansOf(job.data)|
    ensures forall k :: m.startLine <= k < m.endLine ==> !job.matches(SpanLines(job.data)[k].content)
  {
    forall k | m.startLine <= k < m.endLine ensures !job.matches(SpanLines(job.data)[k].content) {
      MatchesInLines(job, k);
      assert !IsDelimiter(job, SpansOf(job.data)[k]);
    }
  }

  lemma SectionInLines(job: SplitJob, sections: seq<SectionMeta>, i: nat)
    requires Windows(job, SpansOf(job.data), sections) && i < |sections|
    ensures SectionReads(job, SpanLines(job.data), sections[i], i)
  {
    assert SectionAt(job, SpansOf(job.data), sections, i);
    SourceIsTold(job);
    SectionBytes(job, sections[i]);
    NoMatchInside(job, sections[i], i);
    SequentialNameReads(i + 1, job.ext);
  }

  lemma SectionBegins(job: SplitJob, sections: seq<SectionMeta>, i: nat)
    requires Windows(job, SpansOf(job.data), sections) && i < |sections|
    requires 1 <= sections[i].startLine <= |SpanLines(job.data)|
    ensures HeadAt(job, SpanLines(job.data), sections[i].startLine - 1)
    ensures PutDown(job, SpanLines(job.data), sections[i])
    ensures if job.strip then i > 0 ==> sections[i - 1].endLine < sections[i].startLine
            else sections[i].startLine == (if i == 0 then 1 else sections[i - 1].endLine + 1)
  {
    var spans, k := SpansOf(job.data), sections[i].startLine - 1;
    assert SectionAt(job, spans, sections, i);
    MatchesInLines(job, k);
    if k > 0 {
      MatchesInLines(job, k - 1);
    }
  }

  // ---------- the whole split ----------

  /** Nothing is found exactly when no line matches. */
  ghost predicate WantReads(job: SplitJob, lines: seq<Line>, result: SplitResult) {
    result == SplitFailed(NoDelimiterMatch) <==> forall k :: 0 <= k < |lines| ==> !job.matches(lines[k].content)
  }

  /** A split that succeeds: as many sections as there are first lines, each standing where it must, and with delimiters
      kept the last one reaches to the end. */
  ghost predicate SectionsRead(job: SplitJob, lines: seq<Line>, result: SplitResult) {
    result.SplitDone? ==>
      var sections := result.sections;
      && lines != [] && result.delimiterLines == |Hits(lines, job.matches)| > 0
      && |sections| == |Heads(job, lines)|
      && (!job.strip ==> |sections| == |Hits(lines, job.matches)| + if job.matches(lines[0].content) then 0 else 1)
      && (forall i :: 0 <= i < |sections| ==> SectionStands(job, lines, sections, i))
      && (!job.strip ==> sections != [] && sections[|sections| - 1].endLine == |lines|)
  }

  /** The cap stops a split exactly when some line matches and the sections, with stripping one more if the last line
      matches, are more than a positive cap; the error names the cap and the number that breaks it. There is no third
      error. */
  ghost predicate CapReads(job: SplitJob, lines: seq<Line>, result: SplitResult) {
    && (result.SplitFailed? && result.error.MaxFilesExceeded? <==>
        && lines != [] && Hits(lines, job.matches) != {} && job.maxFiles > 0
        && |Heads(job, lines)| + (if job.strip && job.matches(lines[|lines| - 1].content) then 1 else 0) > job.maxFiles)
    && (result.SplitFailed? ==>
        || result.error == NoDelimiterMatch
        || (job.maxFiles > 0 && result.error == MaxFilesExceeded(job.maxFiles, job.maxFiles + 1)))
  }

  /** What comes of a split, by the lines of its source. */
  ghost predicate SplitReads(job: SplitJob, result: SplitResult) {
    var lines := SpanLines(job.data);
    WantReads(job, lines, result) && SectionsRead(job, lines, result) && CapReads(job, lines, result)
  }

  lemma SplitInLines(job: SplitJob)
    ensures SplitReads(job, SplitOutcome(job))
  {
    MachineYieldsOutcome(job);
    NothingToSplit(job);
    CapInLines(job);
    if ScanResult(job).SplitDone? {
      SectionsInLines(job);
    }
  }

  lemma NothingToSplit(job: SplitJob)
    ensures WantReads(job, SpanLines(job.data), ScanResult(job))
  {
    MachineYieldsOutcome(job);
    SourceIsTold(job);
    var lines := SpanLines(job.data);
    HitsCounted(job, SpansOf(job.data), lines);
    if forall k :: 0 <= k < |lines| ==> !job.matches(lines[k].content) {
      assert Hits(lines, job.matches) == {};
    } else {
      var k :| 0 <= k < |lines| && job.matches(lines[k].content);
      assert k in Hits(lines, job.matches);
    }
  }

  lemma SectionsInLines(job: SplitJob)
    requires ScanResult(job).SplitDone?
    ensures SectionsRead(job, SpanLines(job.data), ScanResult(job))
  {
    var spans, lines := SpansOf(job.data), SpanLines(job.data);
    MachineYieldsOutcome(job);
    SourceIsTold(job);
    SpansChain(job.data);
    SectionsAreWindows(job, spans);
    HitsCounted(job, spans, lines);
    HeadsCounted(job, spans, lines);
    var sections := ScanResult(job).sections;
    forall i | 0 <= i < |sections| ensures SectionStands(job, lines, sections, i) {
      SectionInLines(job, sections, i);
      SectionBegins(job, sections, i);
    }
    if !job.strip {
      KeptHeads(job, lines);
    }
  }

  lemma KeptHeads(job: SplitJob, lines: seq<Line>)
    requires !job.strip && lines != []
    ensures |Heads(job, lines)| == |Hits(lines, job.matches)| + if job.matches(lines[0].content) then 0 else 1
  {
    var hits := Hits(lines, job.matches);
    if job.matches(lines[0].content) {
      assert Heads(job, lines) == hits;
    } else {
      assert 0 !in hits && Heads(job, lines) == hits + {0};
    }
  }

  /** The bytes of a span are those of its line. */
  ghost predicate SpelledAt(job: SplitJob, span: LineSpan, line: Line) {
    Slice(job.data, span.start, span.end) == line.content + line.terminator
  }

  ghost predicate OthersKept(job: SplitJob, spans: seq<LineSpan>, lines: seq<Line>) {
    TextOf(job.data, KeptLines(job, spans)) == Serialize(Others(lines, job.matches))
  }

  lemma OthersNext(lines: seq<Line>, matches: seq<byte> -> bool, line: Line)
    ensures Serialize(Others(lines + [line], matches)) ==
            Serialize(Others(lines, matches)) + if matches(line.content) then [] else line.content + line.terminator
  {
    assert (lines + [line])[..|lines|] == lines;
    if matches(line.content) {
      assert Others(lines + [line], matches) == Others(lines, matches);
    } else {
      SerializeSnoc(Others(lines, matches), line);
    }
  }

  lemma OtherKept(job: SplitJob, spans: seq<LineSpan>, lines: seq<Line>, span: LineSpan, line: Line)
    requires job.strip && OthersKept(job, spans, lines)
    requires ReadsAs(job, span, line)
    ensures OthersKept(job, spans + [span], lines + [line])
  {
    KeptNext(job, spans, span);
    OthersNext(lines, job.matches, line);
  }

  ghost predicate ReadsAs(job: SplitJob, span: LineSpan, line: Line) {
    SpelledAt(job, span, line) && (IsDelimiter(job, span) <==> job.matches(line.content))
  }

  lemma OneMore<T>(xs: seq<T>, n: nat)
    requires 0 < n <= |xs|
    ensures xs[..n] == xs[..n - 1] + [xs[n - 1]]
  {
  }

  lemma {:induction false} KeptAreOthers(job: SplitJob, spans: seq<LineSpan>, lines: seq<Line>, n: nat)
    requires n <= |spans| == |lines| && job.strip
    requires forall k :: 0 <= k < |spans| ==> ReadsAs(job, spans[k], lines[k])
    ensures OthersKept(job, spans[..n], lines[..n])
    decreases n
  {
    if n > 0 {
      KeptAreOthers(job, spans, lines, n - 1);
      assert ReadsAs(job, spans[n - 1], lines[n - 1]);
      OtherKept(job, spans[..n - 1], lines[..n - 1], spans[n - 1], lines[n - 1]);
      OneMore(spans, n);
      OneMore(lines, n);
    }
  }

  lemma SpanIsLine(job: SplitJob, k: nat)
    requires k < |SpansOf(job.data)|
    ensures |SpanLines(job.data)| == |SpansOf(job.data)|
    ensures ReadsAs(job, SpansOf(job.data)[k], SpanLines(job.data)[k])
  {
    var data, span := job.data, SpansOf(job.data)[k];
    MatchesInLines(job, k);
    SpansTile(data);
    LinesOfAt(data, SpansOf(data), 0, 0);
    assert data[span.start..span.end] == data[span.start..span.contentEnd] + data[span.contentEnd..span.end];
  }

  lemma SpansAreLines(job: SplitJob)
    ensures |SpanLines(job.data)| == |SpansOf(job.data)|
    ensures forall k :: 0 <= k < |SpansOf(job.data)| ==> ReadsAs(job, SpansOf(job.data)[k], SpanLines(job.data)[k])
  {
    SourceIsTold(job);
    forall k | 0 <= k < |SpansOf(job.data)| ensures ReadsAs(job, SpansOf(job.data)[k], SpanLines(job.data)[k]) {
      SpanIsLine(job, k);
    }
  }

  /** The outputs, one after the other, are the source, or with stripping its lines that do not match. */
  lemma OutputsInLines(job: SplitJob)
    ensures var sections := SectionsOf(job, Groups(job, SpansOf(job.data)));
      OutputText(job.data, sections) ==
      if job.strip then Serialize(Others(SpanLines(job.data), job.matches)) else job.data
  {
    OutputsPartitionSource(job);
    if job.strip {
      SpansAreLines(job);
      var spans, lines := SpansOf(job.data), SpanLines(job.data);
      KeptAreOthers(job, spans, lines, |spans|);
      assert spans[..|spans|] == spans && lines[..|lines|] == lines;
    }
  }

  lemma CapInLines(job: SplitJob)
    ensures CapReads(job, SpanLines(job.data), ScanResult(job))
  {
    var spans, lines := SpansOf(job.data), SpanLines(job.data);
    CapIsExact(job);
    MachineYieldsOutcome(job);
    SourceIsTold(job);
    HitsCounted(job, spans, lines);
    HeadsCounted(job, spans, lines);
  }
}
