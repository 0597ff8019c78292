/** What splitting guarantees: the outcome of every scan, the partition of the source, and the cap. */
module SplitLaws {
  import opened Bytes
  import opened Streams
  import opened Lines
  import opened Spans
  import opened Naming
  import opened Split

  // ---------- the outcome ----------

  /** The result for a whole source. */
  ghost function SplitOutcome(job: SplitJob): SplitResult {
    var spans := SpansOf(job.data);
    if Delimiters(job, spans) == 0 then SplitFailed(NoDelimiterMatch)
    else if CapExceeded(job, spans) then SplitFailed(MaxFilesExceeded(job.maxFiles, job.maxFiles + 1))
    else SplitDone(SectionsOf(job, Groups(job, spans)), Delimiters(job, spans))
  }

  /** What the machine makes of a whole source. */
  function ScanResult(job: SplitJob): SplitResult {
    Finish(job, Feed(Callback(job), INITIAL, SpansOf(job.data)))
  }

  lemma FinishReflects(job: SplitJob, st: SplitState, spans: seq<LineSpan>)
    requires Chain(job.data, spans) && Reflects(job, st, spans)
    ensures Finish(job, Continue(st)) ==
            if Delimiters(job, spans) == 0 then SplitFailed(NoDelimiterMatch)
            else SplitDone(SectionsOf(job, Groups(job, spans)), Delimiters(job, spans))
  {
    if Delimiters(job, spans) > 0 {
      FinalizeCloses(job, st, spans);
    }
  }

  /** The machine, run over the spans of the source, ends with the sections of its groups; it fails only for want of a
      delimiter or at the cap, and the empty-segment error is never raised. */
  lemma MachineYieldsOutcome(job: SplitJob)
    ensures ScanResult(job) == SplitOutcome(job)
  {
    var spans := SpansOf(job.data);
    var scan := Feed(Callback(job), INITIAL, spans);
    SpansChain(job.data);
    ScanOf(job, spans);
    if !CapExceeded(job, spans) {
      FinishReflects(job, scan.state, spans);
    }
  }

  // ---------- how one more line changes the sections ----------

  function Extended(job: SplitJob, m: SectionMeta, span: LineSpan): SectionMeta {
    m.(endLine := span.lineNum, lineCount := m.lineCount + 1, byteEnd := span.end,
       fingerprint := job.sha(Slice(job.data, m.byteStart, span.end)))
  }

  lemma BodyNext(job: SplitJob, group: seq<LineSpan>, span: LineSpan)
    requires group != []
    ensures Body(job, group + [span]) == Body(job, group) + [span]
  {
    assert (group + [span])[1..] == group[1..] + [span];
  }

  lemma SectionExtended(job: SplitJob, group: seq<LineSpan>, span: LineSpan, ordinal: nat)
    requires group != [] && Body(job, group) != []
    ensures Body(job, group + [span]) != []
    ensures SectionFor(job, group + [span], ordinal) == Extended(job, SectionFor(job, group, ordinal), span)
  {
    BodyNext(job, group, span);
    var body := Body(job, group);
    assert (body + [span])[0] == body[0] && (body + [span])[|body|] == span;
  }

  /** A line that opens a group adds its section, unless the line is stripped from it. */
  lemma SectionsOpened(job: SplitJob, spans: seq<LineSpan>, span: LineSpan)
    requires spans == [] || IsDelimiter(job, span)
    ensures var now, next := SectionsOf(job, Groups(job, spans)), SectionsOf(job, Groups(job, spans + [span]));
      next == if job.strip && IsDelimiter(job, span) then now else now + [SectionFor(job, [span], |now| + 1)]
  {
    Appended(spans, span);
    SectionsWithOpen(job, spans + [span]);
    var groups, front := Groups(job, spans + [span]), Groups(job, spans);
    assert groups == front + [[span]] && groups[..|groups| - 1] == front;
  }

  lemma JoinsOpen(job: SplitJob, spans: seq<LineSpan>, span: LineSpan)
    requires spans != [] && !IsDelimiter(job, span)
    ensures Open(job, spans) != [] && Open(job, spans + [span]) == Open(job, spans) + [span]
    ensures var groups, front := Groups(job, spans + [span]), Groups(job, spans);
            groups[..|groups| - 1] == front[..|front| - 1]
  {
    Appended(spans, span);
    OpenGroupHead(job, spans);
    var groups, front := Groups(job, spans + [span]), Groups(job, spans);
    assert groups[..|groups| - 1] == front[..|front| - 1];
  }

  /** Any other line extends the last section, or starts it when all there was in the group was stripped. */
  lemma SectionsJoined(job: SplitJob, spans: seq<LineSpan>, span: LineSpan)
    requires spans != [] && !IsDelimiter(job, span)
    ensures var now, next := SectionsOf(job, Groups(job, spans)), SectionsOf(job, Groups(job, spans + [span]));
      var group := Open(job, spans);
      && group != [] && Body(job, group + [span]) == Body(job, group) + [span]
      && if Body(job, group) == [] then next == now + [SectionFor(job, group + [span], |now| + 1)]
         else now != [] && now[|now| - 1] == SectionFor(job, group, |now|)
              && next == now[..|now| - 1] + [Extended(job, now[|now| - 1], span)]
  {
    JoinsOpen(job, spans, span);
    SectionsWithOpen(job, spans);
    SectionsWithOpen(job, spans + [span]);
    var group := Open(job, spans);
    BodyNext(job, group, span);
    if Body(job, group) != [] {
      SectionExtended(job, group, span, |SectionsOf(job, Groups(job, spans))|);
    }
  }

  // ---------- text ----------

  function TextOf(data: seq<byte>, spans: seq<LineSpan>): seq<byte> {
    if spans == [] then []
    else TextOf(data, spans[..|spans| - 1]) + Slice(data, spans[|spans| - 1].start, spans[|spans| - 1].end)
  }

  /** The outputs, one after the other. */
  function OutputText(data: seq<byte>, sections: seq<SectionMeta>): seq<byte> {
    if sections == [] then []
    else OutputText(data, sections[..|sections| - 1]) +
         Slice(data, sections[|sections| - 1].byteStart, sections[|sections| - 1].byteEnd)
  }

  /** The lines that belong in some output: all of them, or with stripping all but the delimiter lines. */
  function KeptLines(job: SplitJob, spans: seq<LineSpan>): seq<LineSpan> {
    if spans == [] then []
    else
      var span := spans[|spans| - 1];
      KeptLines(job, spans[..|spans| - 1]) + if job.strip && IsDelimiter(job, span) then [] else [span]
  }

  lemma OutputTextSnoc(data: seq<byte>, sections: seq<SectionMeta>, m: SectionMeta)
    ensures OutputText(data, sections + [m]) == OutputText(data, sections) + Slice(data, m.byteStart, m.byteEnd)
  {
    assert (sections + [m])[..|sections|] == sections;
  }

  lemma TextOfSnoc(data: seq<byte>, spans: seq<LineSpan>, span: LineSpan)
    ensures TextOf(data, spans + [span]) == TextOf(data, spans) + Slice(data, span.start, span.end)
  {
    Appended(spans, span);
  }

  lemma BodyIsTail(job: SplitJob, spans: seq<LineSpan>)
    requires spans != [] && Body(job, Open(job, spans)) != []
    ensures var body := Body(job, Open(job, spans));
      |body| <= |spans| && body[0] == spans[|spans| - |body|] && body[|body| - 1] == spans[|spans| - 1]
  {
    OpenGroupIsTail(job, spans);
    var group, body := Open(job, spans), Body(job, Open(job, spans));
    assert body == group[|group| - |body|..];
  }

  lemma TailLies(data: seq<byte>, spans: seq<LineSpan>, n: nat)
    requires Chain(data, spans) && 0 < n <= |spans|
    ensures var first, last := spans[|spans| - n], spans[|spans| - 1];
      last.end <= |data| && first.start < last.end && last.lineNum == |spans| && first.lineNum == |spans| - n + 1
  {
    assert ChainAt(data, spans, |spans| - 1) && ChainAt(data, spans, |spans| - n);
    ChainGrows(data, spans, |spans| - n, |spans| - 1);
  }

  /** By numbers and offsets, the body of the open group reaches up to the last line. */
  lemma BodyLies(job: SplitJob, spans: seq<LineSpan>)
    requires Chain(job.data, spans) && spans != [] && Body(job, Open(job, spans)) != []
    ensures var body := Body(job, Open(job, spans));
      var first, last := body[0], body[|body| - 1];
      && last.end == TailOf(spans) <= |job.data| && first.start < last.end && last.lineNum == |spans|
      && 1 <= first.lineNum <= |spans| && first.start == spans[first.lineNum - 1].start
      && |body| == |spans| - first.lineNum + 1
  {
    BodyIsTail(job, spans);
    TailLies(job.data, spans, |Body(job, Open(job, spans))|);
  }

  lemma LastSectionIs(job: SplitJob, spans: seq<LineSpan>)
    requires spans != [] && Body(job, Open(job, spans)) != []
    ensures var sections := SectionsOf(job, Groups(job, spans));
      sections != [] && sections[|sections| - 1] == SectionFor(job, Open(job, spans), |sections|)
  {
    SectionsWithOpen(job, spans);
  }

  /** The last section ends where the last line ends, and starts at its body's first line. */
  lemma LastSectionEnds(job: SplitJob, spans: seq<LineSpan>)
    requires Chain(job.data, spans) && spans != [] && Body(job, Open(job, spans)) != []
    ensures var sections := SectionsOf(job, Groups(job, spans));
      sections != [] && var m := sections[|sections| - 1];
      m.byteEnd == TailOf(spans) <= |job.data| && m.byteStart < m.byteEnd && m.endLine == |spans|
      && 1 <= m.startLine <= |spans| && m.byteStart == spans[m.startLine - 1].start
      && m.lineCount == m.endLine - m.startLine + 1 && m.fingerprint == job.sha(Slice(job.data, m.byteStart, m.byteEnd))
  {
    BodyLies(job, spans);
    LastSectionIs(job, spans);
  }

  lemma {:induction false} ChainGrows(data: seq<byte>, spans: seq<LineSpan>, i: nat, j: nat)
    requires Chain(data, spans) && i <= j < |spans|
    ensures spans[i].start <= spans[j].start < spans[j].end <= |data|
    decreases j
  {
    assert ChainAt(data, spans, j);
    if i < j {
      ChainGrows(data, spans, i, j - 1);
    }
  }

  lemma KeptNext(job: SplitJob, front: seq<LineSpan>, span: LineSpan)
    ensures TextOf(job.data, KeptLines(job, front + [span])) == TextOf(job.data, KeptLines(job, front)) +
            if job.strip && IsDelimiter(job, span) then [] else Slice(job.data, span.start, span.end)
  {
    Appended(front, span);
    var kept := KeptLines(job, front);
    TextOfSnoc(job.data, kept, span);
    assert KeptLines(job, front + [span]) == if job.strip && IsDelimiter(job, span) then kept else kept + [span];
  }

  lemma JoinSpells(job: SplitJob, front: seq<LineSpan>, span: LineSpan)
    requires Chain(job.data, front) && front != [] && !IsDelimiter(job, span)
    requires span.start == TailOf(front) && span.start <= span.end <= |job.data|
    ensures OutputText(job.data, SectionsOf(job, Groups(job, front + [span]))) ==
            OutputText(job.data, SectionsOf(job, Groups(job, front))) + Slice(job.data, span.start, span.end)
  {
    var now := SectionsOf(job, Groups(job, front));
    SectionsJoined(job, front, span);
    var group := Open(job, front);
    if Body(job, group) == [] {
      OutputTextSnoc(job.data, now, SectionFor(job, group + [span], |now| + 1));
    } else {
      LastSectionEnds(job, front);
      ExtendingSpells(job, now, span);
    }
  }

  /** One more line adds its bytes to the outputs, unless it is stripped. */
  lemma OutputNext(job: SplitJob, front: seq<LineSpan>, span: LineSpan)
    requires Chain(job.data, front) && span.start == TailOf(front) && span.start <= span.end <= |job.data|
    ensures OutputText(job.data, SectionsOf(job, Groups(job, front + [span]))) ==
            OutputText(job.data, SectionsOf(job, Groups(job, front))) +
            if job.strip && IsDelimiter(job, span) then [] else Slice(job.data, span.start, span.end)
  {
    if front == [] || IsDelimiter(job, span) {
      var now := SectionsOf(job, Groups(job, front));
      SectionsOpened(job, front, span);
      if !job.strip || !IsDelimiter(job, span) {
        OutputTextSnoc(job.data, now, SectionFor(job, [span], |now| + 1));
      }
    } else {
      JoinSpells(job, front, span);
    }
  }

  /** The outputs in order spell exactly the kept lines in order. */
  ghost predicate SpellsKept(job: SplitJob, spans: seq<LineSpan>) {
    OutputText(job.data, SectionsOf(job, Groups(job, spans))) == TextOf(job.data, KeptLines(job, spans))
  }

  lemma OutputsSpellOneMore(job: SplitJob, front: seq<LineSpan>, span: LineSpan)
    requires Chain(job.data, front) && span.start == TailOf(front) && span.start <= span.end <= |job.data|
    requires SpellsKept(job, front)
    ensures SpellsKept(job, front + [span])
  {
    OutputNext(job, front, span);
    KeptNext(job, front, span);
  }

  lemma FrontAndLast(spans: seq<LineSpan>)
    requires spans != []
    ensures spans == spans[..|spans| - 1] + [spans[|spans| - 1]]
  {
  }

  lemma ChainLast(data: seq<byte>, spans: seq<LineSpan>)
    requires Chain(data, spans) && spans != []
    ensures var n := |spans| - 1;
      && Chain(data, spans[..n]) && spans[n].lineNum == n + 1
      && spans[n].start == TailOf(spans[..n]) && spans[n].start <= spans[n].end <= |data|
  {
    ChainPrefix(data, spans, |spans| - 1);
    assert ChainAt(data, spans, |spans| - 1);
  }

  /** On every source, with and without stripping. */
  lemma {:induction false} OutputsSpellKeptLines(job: SplitJob, spans: seq<LineSpan>)
    requires Chain(job.data, spans)
    ensures SpellsKept(job, spans)
    decreases |spans|
  {
    if spans != [] {
      var n := |spans| - 1;
      ChainLast(job.data, spans);
      OutputsSpellKeptLines(job, spans[..n]);
      OutputsSpellOneMore(job, spans[..n], spans[n]);
      FrontAndLast(spans);
    }
  }

  lemma ExtendingSpells(job: SplitJob, sections: seq<SectionMeta>, span: LineSpan)
    requires sections != [] && var m := sections[|sections| - 1];
      m.byteStart <= m.byteEnd == span.start <= span.end <= |job.data|
    ensures OutputText(job.data, sections[..|sections| - 1] + [Extended(job, sections[|sections| - 1], span)]) ==
            OutputText(job.data, sections) + Slice(job.data, span.start, span.end)
  {
    var front, m := sections[..|sections| - 1], sections[|sections| - 1];
    OutputTextSnoc(job.data, front, Extended(job, m, span));
    SliceJoins(OutputText(job.data, front), job.data, m.byteStart, m.byteEnd, span.end);
  }

  lemma SliceJoins(text: seq<byte>, data: seq<byte>, i: nat, j: nat, k: nat)
    requires i <= j <= k <= |data|
    ensures text + Slice(data, i, k) == text + Slice(data, i, j) + Slice(data, j, k)
  {
    SliceSplits(data, i, j, k);
  }

  // ---------- how many sections, and which lines ----------

  /** A section starts at line k: with delimiters kept at the first line and at each delimiter line; with stripping at
      the first line of each run of other lines. */
  predicate StartsSection(job: SplitJob, spans: seq<LineSpan>, k: nat)
    requires k < |spans|
  {
    if job.strip then !IsDelimiter(job, spans[k]) && (k == 0 || IsDelimiter(job, spans[k - 1]))
    else k == 0 || IsDelimiter(job, spans[k])
  }

  function Starts(job: SplitJob, spans: seq<LineSpan>): nat {
    if spans == [] then 0
    else Starts(job, spans[..|spans| - 1]) + if StartsSection(job, spans, |spans| - 1) then 1 else 0
  }

  /** Nothing is left of the open group exactly when it is one delimiter line, to be stripped. */
  lemma OpenBodyIsEmpty(job: SplitJob, spans: seq<LineSpan>)
    requires spans != []
    ensures Body(job, Open(job, spans)) == [] <==> job.strip && IsDelimiter(job, spans[|spans| - 1])
  {
    OpenGroupIsTail(job, spans);
    GroupsPartition(job, spans);
    var group := Open(job, spans);
    assert group[|group| - 1] == spans[|spans| - 1];
  }

  lemma OpenDelimiterIsLast(job: SplitJob, spans: seq<LineSpan>)
    requires spans != [] && Chain(job.data, spans) && Body(job, Open(job, spans)) == []
    ensures var group := Open(job, spans);
            |group| == 1 && group[0].lineNum == |spans| && IsDelimiter(job, group[0])
  {
    OpenGroupIsTail(job, spans);
    assert ChainAt(job.data, spans, |spans| - 1);
  }

  /** A section is put down to the delimiter line it starts at, or with stripping to the one right before it; with no
      such line it is the preamble. */
  ghost predicate Attributed(job: SplitJob, spans: seq<LineSpan>, m: SectionMeta)
    requires 1 <= m.startLine <= |spans|
  {
    && m.isPreamble == (m.delimiterLine == 0)
    && m.delimiterLine == if job.strip then m.startLine - 1
                          else if IsDelimiter(job, spans[m.startLine - 1]) then m.startLine else 0
  }

  /** A section that starts and ends where its line numbers say, and the way it must. */
  ghost predicate CutsWindow(job: SplitJob, spans: seq<LineSpan>, m: SectionMeta, ordinal: nat) {
    && 1 <= m.startLine <= m.endLine <= |spans| && m.lineCount == m.endLine - m.startLine + 1
    && m.byteStart == spans[m.startLine - 1].start && m.byteEnd == spans[m.endLine - 1].end
    && m.ordinal == ordinal && m.name == SequentialFilename(ordinal, job.ext)
    && m.fingerprint == job.sha(Slice(job.data, m.byteStart, m.byteEnd)) && Attributed(job, spans, m)
    && StartsSection(job, spans, m.startLine - 1) && NoDelimiters(job, spans, m.startLine, m.endLine)
  }

  /** Line number start comes behind the window that ends with line number before, or behind none if that is 0:
      directly, or with stripping behind nothing but delimiter lines. */
  ghost predicate Follows(job: SplitJob, spans: seq<LineSpan>, before: nat, start: nat)
    requires 1 <= start <= |spans|
  {
    if job.strip then (before == 0 || before + 1 < start) && AllDelimiters(job, spans, before, start - 1)
    else before + 1 == start
  }

  ghost function EndBefore(sections: seq<SectionMeta>, i: nat): nat
    requires i <= |sections|
  {
    if i == 0 then 0 else sections[i - 1].endLine
  }

  /** Section i, as found from its line numbers. */
  ghost predicate SectionAt(job: SplitJob, spans: seq<LineSpan>, sections: seq<SectionMeta>, i: int)
    requires 0 <= i < |sections|
  {
    && CutsWindow(job, spans, sections[i], i + 1)
    && EndBefore(sections, i) < sections[i].startLine
    && Follows(job, spans, EndBefore(sections, i), sections[i].startLine)
  }

  ghost predicate AllDelimiters(job: SplitJob, spans: seq<LineSpan>, from: nat, to: nat)
    requires to <= |spans|
  {
    forall k :: from <= k < to ==> IsDelimiter(job, spans[k])
  }

  ghost predicate NoDelimiters(job: SplitJob, spans: seq<LineSpan>, from: nat, to: nat)
    requires to <= |spans|
  {
    forall k :: from <= k < to ==> !IsDelimiter(job, spans[k])
  }

  /** The sections, in order: each window is cut where it must be, and between two windows there is nothing, or with
      stripping nothing but delimiter lines. */
  ghost predicate Windows(job: SplitJob, spans: seq<LineSpan>, sections: seq<SectionMeta>) {
    && (forall i :: 0 <= i < |sections| ==> SectionAt(job, spans, sections, i))
    && (var covered := if sections == [] then 0 else sections[|sections| - 1].endLine;
        covered <= |spans| && if job.strip then AllDelimiters(job, spans, covered, |spans|) else covered == |spans|)
  }

  lemma CutKept(job: SplitJob, spans: seq<LineSpan>, span: LineSpan, m: SectionMeta, ordinal: nat)
    requires CutsWindow(job, spans, m, ordinal)
    ensures CutsWindow(job, spans + [span], m, ordinal)
  {
  }

  lemma FollowsKept(job: SplitJob, spans: seq<LineSpan>, span: LineSpan, before: nat, start: nat)
    requires 1 <= start <= |spans| && Follows(job, spans, before, start)
    ensures Follows(job, spans + [span], before, start)
  {
  }

  lemma SectionAtKept(job: SplitJob, spans: seq<LineSpan>, span: LineSpan, now: seq<SectionMeta>,
                      next: seq<SectionMeta>, i: nat)
    requires i < |now| && i < |next| && next[i] == now[i] && (i > 0 ==> next[i - 1] == now[i - 1])
    requires SectionAt(job, spans, now, i)
    ensures SectionAt(job, spans + [span], next, i)
  {
    CutKept(job, spans, span, now[i], i + 1);
    FollowsKept(job, spans, span, EndBefore(now, i), now[i].startLine);
  }

  /** A stripped delimiter line belongs to no window. */
  lemma WindowStripped(job: SplitJob, front: seq<LineSpan>, span: LineSpan, now: seq<SectionMeta>)
    requires Windows(job, front, now) && job.strip && IsDelimiter(job, span)
    ensures Windows(job, front + [span], now)
  {
    forall i | 0 <= i < |now| ensures SectionAt(job, front + [span], now, i) {
      SectionAtKept(job, front, span, now, now, i);
    }
  }

  /** A section of one line, that line being the last. */
  ghost predicate OneLine(job: SplitJob, m: SectionMeta, span: LineSpan, ordinal: nat) {
    && m.startLine == m.endLine == span.lineNum && m.lineCount == 1
    && m.byteStart == span.start && m.byteEnd == span.end
    && m.ordinal == ordinal && m.name == SequentialFilename(ordinal, job.ext)
    && m.fingerprint == job.sha(Slice(job.data, m.byteStart, m.byteEnd))
  }

  lemma CutOpened(job: SplitJob, front: seq<LineSpan>, span: LineSpan, m: SectionMeta, ordinal: nat)
    requires span.lineNum == |front| + 1
    requires OneLine(job, m, span, ordinal) && StartsSection(job, front + [span], |front|)
    requires Attributed(job, front + [span], m)
    ensures CutsWindow(job, front + [span], m, ordinal)
  {
  }

  lemma FollowsOpened(job: SplitJob, front: seq<LineSpan>, span: LineSpan, now: seq<SectionMeta>)
    requires Windows(job, front, now) && StartsSection(job, front + [span], |front|)
    ensures EndBefore(now, |now|) < |front| + 1
    ensures Follows(job, front + [span], EndBefore(now, |now|), |front| + 1)
  {
    if now != [] {
      var m := now[|now| - 1];
      assert SectionAt(job, front, now, |now| - 1);
      assert job.strip ==> !IsDelimiter(job, front[m.endLine - 1]);
    }
  }

  lemma WindowOpened(job: SplitJob, front: seq<LineSpan>, span: LineSpan, now: seq<SectionMeta>, m: SectionMeta)
    requires Windows(job, front, now) && span.lineNum == |front| + 1
    requires OneLine(job, m, span, |now| + 1) && StartsSection(job, front + [span], |front|)
    requires Attributed(job, front + [span], m)
    ensures Windows(job, front + [span], now + [m])
  {
    var next := now + [m];
    CutOpened(job, front, span, m, |now| + 1);
    FollowsOpened(job, front, span, now);
    assert EndBefore(next, |now|) == EndBefore(now, |now|);
    forall i | 0 <= i < |now| ensures SectionAt(job, front + [span], next, i) {
      SectionAtKept(job, front, span, now, next, i);
    }
  }

  lemma CutExtended(job: SplitJob, front: seq<LineSpan>, span: LineSpan, m: SectionMeta, ordinal: nat)
    requires CutsWindow(job, front, m, ordinal) && m.endLine == |front|
    requires span.lineNum == |front| + 1 && !IsDelimiter(job, span)
    ensures CutsWindow(job, front + [span], Extended(job, m, span), ordinal)
  {
  }

  lemma WindowExtended(job: SplitJob, front: seq<LineSpan>, span: LineSpan, now: seq<SectionMeta>)
    requires Windows(job, front, now) && span.lineNum == |front| + 1 && !IsDelimiter(job, span)
    requires now != [] && now[|now| - 1].endLine == |front|
    ensures Windows(job, front + [span], now[..|now| - 1] + [Extended(job, now[|now| - 1], span)])
  {
    var n := |now| - 1;
    var next := now[..n] + [Extended(job, now[n], span)];
    assert SectionAt(job, front, now, n);
    CutExtended(job, front, span, now[n], n + 1);
    FollowsKept(job, front, span, EndBefore(now, n), now[n].startLine);
    assert EndBefore(next, n) == EndBefore(now, n);
    forall i | 0 <= i < n ensures SectionAt(job, front + [span], next, i) {
      SectionAtKept(job, front, span, now, next, i);
    }
  }

  lemma OneLineSection(job: SplitJob, group: seq<LineSpan>, span: LineSpan, ordinal: nat)
    requires group != [] && Body(job, group) == [span]
    ensures OneLine(job, SectionFor(job, group, ordinal), span, ordinal)
  {
  }

  lemma WindowsWhenOpened(job: SplitJob, front: seq<LineSpan>, span: LineSpan, now: seq<SectionMeta>,
                          next: seq<SectionMeta>)
    requires Windows(job, front, now) && span.lineNum == |front| + 1 && (front == [] || IsDelimiter(job, span))
    requires next == if job.strip && IsDelimiter(job, span) then now else now + [SectionFor(job, [span], |now| + 1)]
    ensures Windows(job, front + [span], next)
    ensures |next| == |now| + if StartsSection(job, front + [span], |front|) then 1 else 0
  {
    if job.strip && IsDelimiter(job, span) {
      WindowStripped(job, front, span, now);
    } else {
      OneLineSection(job, [span], span, |now| + 1);
      WindowOpened(job, front, span, now, SectionFor(job, [span], |now| + 1));
    }
  }

  lemma WindowsWhenJoined(job: SplitJob, front: seq<LineSpan>, span: LineSpan, group: seq<LineSpan>,
                          now: seq<SectionMeta>, next: seq<SectionMeta>)
    requires Windows(job, front, now) && span.lineNum == |front| + 1 && front != [] && !IsDelimiter(job, span)
    requires Body(job, group + [span]) == Body(job, group) + [span]
    requires Body(job, group) == [] <==> job.strip && IsDelimiter(job, front[|front| - 1])
    requires Body(job, group) == [] ==> |group| == 1 && group[0].lineNum == |front| && IsDelimiter(job, group[0])
    requires if Body(job, group) == [] then next == now + [SectionFor(job, group + [span], |now| + 1)]
             else now != [] && now[|now| - 1].endLine == |front|
                  && next == now[..|now| - 1] + [Extended(job, now[|now| - 1], span)]
    ensures Windows(job, front + [span], next)
    ensures |next| == |now| + if StartsSection(job, front + [span], |front|) then 1 else 0
  {
    assert (front + [span])[|front| - 1] == front[|front| - 1];
    if Body(job, group) == [] {
      OneLineSection(job, group + [span], span, |now| + 1);
      WindowOpened(job, front, span, now, SectionFor(job, group + [span], |now| + 1));
    } else {
      WindowExtended(job, front, span, now);
    }
  }

  lemma {:induction false} StartsWithoutStripping(job: SplitJob, spans: seq<LineSpan>)
    requires !job.strip
    ensures Starts(job, spans) ==
            Delimiters(job, spans) + if spans != [] && !IsDelimiter(job, spans[0]) then 1 else 0
    decreases |spans|
  {
    if spans != [] {
      StartsWithoutStripping(job, spans[..|spans| - 1]);
      assert |spans| > 1 ==> spans[..|spans| - 1][0] == spans[0];
    }
  }

  /** With delimiters kept there is one section for each delimiter line, and one more when the first line is none. */
  lemma SectionCount(job: SplitJob, spans: seq<LineSpan>)
    requires !job.strip && Chain(job.data, spans)
    ensures |SectionsOf(job, Groups(job, spans))| ==
            Delimiters(job, spans) + if spans != [] && !IsDelimiter(job, spans[0]) then 1 else 0
  {
    SectionsAreWindows(job, spans);
    StartsWithoutStripping(job, spans);
  }

  /** What one more line makes of the windows. */
  ghost predicate WindowsFollow(job: SplitJob, front: seq<LineSpan>, span: LineSpan, now: seq<SectionMeta>,
                                next: seq<SectionMeta>)
  {
    && Windows(job, front + [span], next)
    && |next| == |now| + if StartsSection(job, front + [span], |front|) then 1 else 0
  }

  lemma NextWindowOpened(job: SplitJob, front: seq<LineSpan>, span: LineSpan, now: seq<SectionMeta>)
    requires now == SectionsOf(job, Groups(job, front)) && Windows(job, front, now)
    requires span.lineNum == |front| + 1 && (front == [] || IsDelimiter(job, span))
    ensures WindowsFollow(job, front, span, now, SectionsOf(job, Groups(job, front + [span])))
  {
    SectionsOpened(job, front, span);
    WindowsWhenOpened(job, front, span, now, SectionsOf(job, Groups(job, front + [span])));
  }

  lemma NextWindowJoined(job: SplitJob, front: seq<LineSpan>, span: LineSpan, now: seq<SectionMeta>)
    requires now == SectionsOf(job, Groups(job, front)) && Windows(job, front, now) && Chain(job.data, front)
    requires span.lineNum == |front| + 1 && front != [] && !IsDelimiter(job, span)
    ensures WindowsFollow(job, front, span, now, SectionsOf(job, Groups(job, front + [span])))
  {
    OpenBodyIsEmpty(job, front);
    SectionsJoined(job, front, span);
    if Body(job, Open(job, front)) != [] {
      LastSectionEnds(job, front);
    } else {
      OpenDelimiterIsLast(job, front);
    }
    WindowsWhenJoined(job, front, span, Open(job, front), now, SectionsOf(job, Groups(job, front + [span])));
  }

  /** The sections of these lines are windows, as many as there are lines that start one. */
  ghost predicate WindowsHold(job: SplitJob, spans: seq<LineSpan>) {
    var sections := SectionsOf(job, Groups(job, spans));
    Windows(job, spans, sections) && |sections| == Starts(job, spans)
  }

  lemma WindowsHoldNext(job: SplitJob, front: seq<LineSpan>, span: LineSpan)
    requires Chain(job.data, front) && span.lineNum == |front| + 1 && WindowsHold(job, front)
    ensures WindowsHold(job, front + [span])
  {
    var now := SectionsOf(job, Groups(job, front));
    StartsNext(job, front, span);
    if front == [] || IsDelimiter(job, span) {
      NextWindowOpened(job, front, span, now);
    } else {
      NextWindowJoined(job, front, span, now);
    }
  }

  /** On every source. */
  lemma {:induction false} SectionsAreWindows(job: SplitJob, spans: seq<LineSpan>)
    requires Chain(job.data, spans)
    ensures WindowsHold(job, spans)
    decreases |spans|
  {
    if spans != [] {
      var n := |spans| - 1;
      ChainLast(job.data, spans);
      SectionsAreWindows(job, spans[..n]);
      WindowsHoldNext(job, spans[..n], spans[n]);
      FrontAndLast(spans);
    }
  }

  // ---------- the theorems on a whole source ----------

  lemma {:induction false} ChainSpells(data: seq<byte>, spans: seq<LineSpan>)
    requires Chain(data, spans)
    ensures TailOf(spans) <= |data| && TextOf(data, spans) == data[..TailOf(spans)]
    decreases |spans|
  {
    if spans != [] {
      var n := |spans| - 1;
      ChainPrefix(data, spans, n);
      ChainSpells(data, spans[..n]);
      assert ChainAt(data, spans, n);
      assert n > 0 ==> spans[..n][n - 1] == spans[n - 1];
      assert data[..spans[n].end] == data[..spans[n].start] + data[spans[n].start..spans[n].end];
    }
  }

  lemma {:induction false} EverythingKept(job: SplitJob, spans: seq<LineSpan>)
    requires !job.strip
    ensures KeptLines(job, spans) == spans
    decreases |spans|
  {
    if spans != [] {
      EverythingKept(job, spans[..|spans| - 1]);
    }
  }

  /** With delimiters kept, the outputs in order are the source; with stripping, the source minus its delimiter
      lines. */
  lemma OutputsPartitionSource(job: SplitJob)
    ensures var spans := SpansOf(job.data);
      OutputText(job.data, SectionsOf(job, Groups(job, spans))) ==
      if job.strip then TextOf(job.data, KeptLines(job, spans)) else job.data
  {
    var spans := SpansOf(job.data);
    SpansChain(job.data);
    OutputsSpellKeptLines(job, spans);
    if !job.strip {
      EverythingKept(job, spans);
      ChainSpells(job.data, spans);
      assert job.data[..|job.data|] == job.data;
    }
  }

  /** The cap, exactly: kept delimiters fail if and only if the sections exceed it. With stripping a delimiter line at
      the very end still counts as one section, though it puts nothing out. */
  lemma CapIsExact(job: SplitJob)
    ensures var spans := SpansOf(job.data);
      ScanResult(job).SplitFailed? && ScanResult(job).error.MaxFilesExceeded? <==>
      && Delimiters(job, spans) > 0 && job.maxFiles > 0
      && Starts(job, spans) + (if job.strip && IsDelimiter(job, spans[|spans| - 1]) then 1 else 0) > job.maxFiles
  {
    var spans := SpansOf(job.data);
    MachineYieldsOutcome(job);
    SpansChain(job.data);
    SectionsAreWindows(job, spans);
    if Delimiters(job, spans) > 0 {
      SectionsWithOpen(job, spans);
      OpenBodyIsEmpty(job, spans);
    }
  }

  /** A success never puts out more sections than the cap allows. */
  lemma SuccessIsWithinCap(job: SplitJob)
    ensures var result := ScanResult(job);
      result.SplitDone? ==> OutputSectionsOK(job.maxFiles, |result.sections|)
  {
    MachineYieldsOutcome(job);
    SpansChain(job.data);
    SectionsAreWindows(job, SpansOf(job.data));
    CapIsExact(job);
  }

  lemma StartsNext(job: SplitJob, spans: seq<LineSpan>, span: LineSpan)
    ensures Starts(job, spans + [span]) ==
            Starts(job, spans) + if StartsSection(job, spans + [span], |spans|) then 1 else 0
  {
    Appended(spans, span);
  }

  ghost predicate RefusedThoughWithinCap(job: SplitJob) {
    && job.strip && job.maxFiles == 1 && Starts(job, SpansOf(job.data)) == 1
    && ScanResult(job) == SplitFailed(MaxFilesExceeded(1, 2))
  }

  /** A delimiter line, a line, a delimiter line. */
  const CAP_DATA: seq<byte> := [35, LF, 97, LF, 35, LF]
  const CAP_SPANS := [LineSpan(1, 0, 1, 2, TermLF), LineSpan(2, 2, 3, 4, TermLF), LineSpan(3, 4, 5, 6, TermLF)]

  lemma CapSpansAreSpans()
    ensures SpansOf(CAP_DATA) == CAP_SPANS
  {
    assert Tiles(CAP_DATA, [], 6, 3);
    assert CAP_SPANS[2..][1..] == [] && Tiles(CAP_DATA, CAP_SPANS[2..], 4, 2);
    assert CAP_SPANS[1..][1..] == CAP_SPANS[2..] && Tiles(CAP_DATA, CAP_SPANS[1..], 2, 1);
    TilingIsUnique(CAP_DATA, CAP_SPANS);
  }

  function CapJob(): SplitJob {
    SplitJob(CAP_DATA, (content: seq<byte>) => content == [35], true, "", 1, (content: seq<byte>) => content)
  }

  lemma CapDelimiters()
    ensures IsDelimiter(CapJob(), CAP_SPANS[0]) && IsDelimiter(CapJob(), CAP_SPANS[2])
    ensures !IsDelimiter(CapJob(), CAP_SPANS[1])
  {
    assert CAP_DATA[0..1] == [35] && CAP_DATA[2..3] == [97] && CAP_DATA[4..5] == [35];
  }

  lemma CapCounts(job: SplitJob, spans: seq<LineSpan>)
    requires |spans| == 3 && job.strip
    requires IsDelimiter(job, spans[0]) && !IsDelimiter(job, spans[1]) && IsDelimiter(job, spans[2])
    ensures Delimiters(job, spans) > 0 && Starts(job, spans) == 1
  {
    var a, b, c := spans[0], spans[1], spans[2];
    StartsNext(job, [], a);
    StartsNext(job, [a], b);
    StartsNext(job, [a, b], c);
    assert [] + [a] == [a] && [a] + [b] == [a, b] && [a, b] + [c] == spans;
  }

  /** The stripped cap can refuse a split that would have met it: one section, cap 1, and a delimiter line behind it. */
  lemma StrippedCapIsConservative()
    ensures exists job: SplitJob :: RefusedThoughWithinCap(job)
  {
    var job := CapJob();
    CapSpansAreSpans();
    CapDelimiters();
    CapCounts(job, CAP_SPANS);
    CapIsExact(job);
    MachineYieldsOutcome(job);
    assert RefusedThoughWithinCap(job);
  }

  // ---------- sections as lines ----------

  ghost predicate Spelled(data: seq<byte>, spans: seq<LineSpan>, lines: seq<Line>) {
    && |spans| == |lines|
    && forall k :: 0 <= k < |spans| ==> SpanFits(data, spans[k]) && lines[k] == LineOf(data, spans[k])
  }

  lemma {:induction false} LinesSpell(data: seq<byte>, spans: seq<LineSpan>, lines: seq<Line>, a: nat, b: nat)
    requires Chain(data, spans) && a < b <= |spans| && Spelled(data, spans, lines)
    ensures spans[a].start <= spans[b - 1].end <= |data|
    ensures Serialize(lines[a..b]) == data[spans[a].start..spans[b - 1].end]
    decreases b - a
  {
    ChainGrows(data, spans, a, b - 1);
    LineSpells(data, spans[a]);
    assert lines[a..b][1..] == lines[a + 1..b];
    if a + 1 < b {
      LinesSpell(data, spans, lines, a + 1, b);
      assert ChainAt(data, spans, a + 1);
      ChainGrows(data, spans, a + 1, b - 1);
      SliceSplits(data, spans[a].start, spans[a].end, spans[b - 1].end);
    } else {
      assert lines[a + 1..b] == [];
    }
  }

  /** Any run of the source's spans serializes, as lines, to the bytes it covers. */
  lemma SpansSpell(data: seq<byte>, a: nat, b: nat)
    requires a < b <= |SpansOf(data)|
    ensures |SpanLines(data)| == |SpansOf(data)|
    ensures SpansOf(data)[a].start <= SpansOf(data)[b - 1].end <= |data|
    ensures Serialize(SpanLines(data)[a..b]) == data[SpansOf(data)[a].start..SpansOf(data)[b - 1].end]
  {
    SpansChain(data);
    SpansTile(data);
    LinesOfAt(data, SpansOf(data), 0, 0);
    LinesSpell(data, SpansOf(data), SpanLines(data), a, b);
  }

  lemma SliceSplits(data: seq<byte>, i: nat, j: nat, k: nat)
    requires i <= j <= k <= |data|
    ensures data[i..k] == data[i..j] + data[j..k]
  {
  }

  lemma LineSpells(data: seq<byte>, span: LineSpan)
    requires SpanFits(data, span)
    ensures LineOf(data, span).content + LineOf(data, span).terminator == data[span.start..span.end]
  {
  }

  ghost predicate SpansItsWindow(job: SplitJob, m: SectionMeta, lines: seq<Line>) {
    && 1 <= m.startLine <= m.endLine <= |lines|
    && Slice(job.data, m.byteStart, m.byteEnd) == Serialize(lines[m.startLine - 1..m.endLine])
  }

  lemma SpansWindowAt(job: SplitJob, spans: seq<LineSpan>, sections: seq<SectionMeta>, i: nat)
    requires spans == SpansOf(job.data) && Windows(job, spans, sections) && i < |sections|
    ensures SpansItsWindow(job, sections[i], SpanLines(job.data))
  {
    assert SectionAt(job, spans, sections, i);
    SpansSpell(job.data, sections[i].startLine - 1, sections[i].endLine);
  }

  /** Each section's byte span is the serialization of exactly the lines of its window. */
  lemma WindowIsByteSpan(job: SplitJob)
    ensures forall m :: m in SectionsOf(job, Groups(job, SpansOf(job.data))) ==>
              SpansItsWindow(job, m, SpanLines(job.data))
  {
    var spans := SpansOf(job.data);
    var sections := SectionsOf(job, Groups(job, spans));
    SpansChain(job.data);
    SectionsAreWindows(job, spans);
    forall m | m in sections ensures SpansItsWindow(job, m, SpanLines(job.data)) {
      var i :| 0 <= i < |sections| && sections[i] == m;
      SpansWindowAt(job, spans, sections, i);
    }
  }
}
