/** Splitting at delimiter lines: the state machine over line spans, and the sections it must find. */
module Split {
  import opened Bytes
  import opened Streams
  import opened Spans
  import opened Naming

  datatype SplitError = NoDelimiterMatch | EmptySegment | MaxFilesExceeded(limit: int, wouldCreate: nat)

  datatype SectionMeta = SectionMeta(
    name: string, startLine: nat, endLine: nat, lineCount: nat, byteStart: nat, byteEnd: nat,
    ordinal: nat, isPreamble: bool, delimiterLine: nat, fingerprint: Digest)

  /** matches is the delimiter pattern as a predicate on a line's content; maxFiles at most 0 means no cap. */
  datatype SplitJob = SplitJob(
    data: seq<byte>, matches: seq<byte> -> bool, strip: bool, ext: string, maxFiles: int, sha: HashFunction)

  datatype SplitResult = SplitFailed(error: SplitError) | SplitDone(sections: seq<SectionMeta>, delimiterLines: nat)

  predicate OutputSectionsOK(maxFiles: int, nextTotal: nat) {
    maxFiles <= 0 || nextTotal <= maxFiles
  }

  function EnforceMaxSections(maxFiles: int, next: nat): Option<SplitError> {
    if OutputSectionsOK(maxFiles, next) then None else Some(MaxFilesExceeded(maxFiles, next))
  }

  predicate IsDelimiter(job: SplitJob, span: LineSpan) {
    job.matches(Slice(job.data, span.start, span.contentEnd))
  }

  // ---------- the machine ----------

  /** What has been put out: the sections, their number, the next ordinal, and the first error. */
  datatype SplitOut = SplitOut(meta: seq<SectionMeta>, outSecs: nat, nextSeq: nat, failure: Option<SplitError>)

  datatype SplitState = SplitState(
    out: SplitOut, delHits: nat, sawDelimiter: bool, pending: Option<LineSpan>, preambleDone: bool,
    lastLine: nat, tail: nat)

  const INITIAL := SplitState(SplitOut([], 0, 1, None), 0, false, None, false, 0, 0)

  datatype Geometry = Skip | Geometry(startLine: nat, endLine: nat, lineCount: nat, byteFrom: nat, byteTo: nat)

  /** Which lines and bytes a pending delimiter line's section puts out, up to the next delimiter line. */
  function ComputeSplitSegOutput(strip: bool, dStart: nat, nextDelimLine: nat, byteStart: nat, delimLen: nat,
                                 byteBefore: nat): Geometry
    requires dStart < nextDelimLine
  {
    var secLen := nextDelimLine - dStart;
    if strip then
      if secLen <= 1 then Skip
      else Geometry(dStart + 1, nextDelimLine - 1, secLen - 1, byteStart + delimLen, byteBefore)
    else Geometry(dStart, nextDelimLine - 1, secLen, byteStart, byteBefore)
  }

  /** Puts out one section under the next sequential name and checks the cap. */
  function PushSection(job: SplitJob, out: SplitOut, g: Geometry, isPreamble: bool, delimiterLine: nat): SplitOut
    requires g.Geometry?
  {
    var name := SequentialFilename(out.nextSeq, job.ext);
    var m := SectionMeta(name, g.startLine, g.endLine, g.lineCount, g.byteFrom, g.byteTo, out.nextSeq, isPreamble,
                         delimiterLine, job.sha(Slice(job.data, g.byteFrom, g.byteTo)));
    SplitOut(out.meta + [m], out.outSecs + 1, out.nextSeq + 1, EnforceMaxSections(job.maxFiles, out.outSecs + 1))
  }

  function FlushPreamble(job: SplitJob, st: SplitState, firstDelimLine: nat, byteBefore: nat): SplitOut {
    if st.preambleDone || firstDelimLine <= 1 then st.out
    else PushSection(job, st.out, Geometry(1, firstDelimLine - 1, firstDelimLine - 1, 0, byteBefore), true, 0)
  }

  function FinalizePending(job: SplitJob, st: SplitState, nextDelimLine: nat, byteBefore: nat): SplitOut {
    if st.pending == None then st.out
    else
      var delim := st.pending.value;
      if nextDelimLine <= delim.lineNum || delim.end < delim.start then st.out.(failure := Some(EmptySegment))
      else
        var g := ComputeSplitSegOutput(
          job.strip, delim.lineNum, nextDelimLine, delim.start, delim.end - delim.start, byteBefore);
        if g.Skip? then st.out else PushSection(job, st.out, g, false, delim.lineNum)
  }

  function ObserveDelimiter(job: SplitJob, st: SplitState, span: LineSpan): SplitState {
    var out := if st.sawDelimiter then FinalizePending(job, st, span.lineNum, span.start)
               else FlushPreamble(job, st, span.lineNum, span.start);
    var failure := if out.failure.Some? then out.failure else EnforceMaxSections(job.maxFiles, out.outSecs + 1);
    st.(out := out.(failure := failure), delHits := st.delHits + 1, sawDelimiter := true, preambleDone := true,
        pending := if out.failure.Some? then None else Some(span))
  }

  function Observe(job: SplitJob, st: SplitState, span: LineSpan): SplitState {
    var st1 := st.(lastLine := span.lineNum, tail := span.end);
    if IsDelimiter(job, span) then ObserveDelimiter(job, st1, span) else st1
  }

  /** The callback: an error of the machine stops the scan. */
  function Callback(job: SplitJob): (SplitState, LineSpan) -> Step<SplitState> {
    (st: SplitState, span: LineSpan) =>
      var next := Observe(job, st, span);
      if next.out.failure.Some? then Halt(next) else Continue(next)
  }

  /** What the scan leaves, once the last section has been closed at the end of the source. */
  function Finish(job: SplitJob, scan: Step<SplitState>): SplitResult {
    if scan.Halt? && scan.state.out.failure.Some? then SplitFailed(scan.state.out.failure.value)
    else if !scan.state.sawDelimiter then SplitFailed(NoDelimiterMatch)
    else
      var out := FinalizePending(job, scan.state, scan.state.lastLine + 1, scan.state.tail);
      if out.failure.Some? then SplitFailed(out.failure.value) else SplitDone(out.meta, scan.state.delHits)
  }

  // ---------- the sections a source has, said without the machine ----------

  /** A delimiter line opens a new group; every other line joins the group before it. */
  function Groups(job: SplitJob, spans: seq<LineSpan>): seq<seq<LineSpan>> {
    if spans == [] then []
    else
      var front, span := Groups(job, spans[..|spans| - 1]), spans[|spans| - 1];
      if front == [] || IsDelimiter(job, span) then front + [[span]]
      else front[..|front| - 1] + [front[|front| - 1] + [span]]
  }

  /** The lines of a group that go to its output. */
  function Body(job: SplitJob, group: seq<LineSpan>): seq<LineSpan> {
    if group != [] && job.strip && IsDelimiter(job, group[0]) then group[1..] else group
  }

  function SectionFor(job: SplitJob, group: seq<LineSpan>, ordinal: nat): SectionMeta
    requires Body(job, group) != []
  {
    var body := Body(job, group);
    var first, last := body[0], body[|body| - 1];
    SectionMeta(SequentialFilename(ordinal, job.ext), first.lineNum, last.lineNum, |body|, first.start, last.end,
                ordinal, !IsDelimiter(job, group[0]), if IsDelimiter(job, group[0]) then group[0].lineNum else 0,
                job.sha(Slice(job.data, first.start, last.end)))
  }

  /** One section per group with a non-empty body, numbered in order. */
  function SectionsOf(job: SplitJob, groups: seq<seq<LineSpan>>): seq<SectionMeta> {
    if groups == [] then []
    else
      var front, group := SectionsOf(job, groups[..|groups| - 1]), groups[|groups| - 1];
      if Body(job, group) == [] then front else front + [SectionFor(job, group, |front| + 1)]
  }

  function Delimiters(job: SplitJob, spans: seq<LineSpan>): nat {
    if spans == [] then 0
    else Delimiters(job, spans[..|spans| - 1]) + if IsDelimiter(job, spans[|spans| - 1]) then 1 else 0
  }

  function Flatten(groups: seq<seq<LineSpan>>): seq<LineSpan> {
    if groups == [] then [] else Flatten(groups[..|groups| - 1]) + groups[|groups| - 1]
  }

  /** Delimiters stand exactly at the heads of groups; only the first group may have none. */
  ghost predicate Shaped(job: SplitJob, groups: seq<seq<LineSpan>>) {
    && (forall i :: 0 <= i < |groups| ==> groups[i] != [])
    && (forall i, k :: 0 <= i < |groups| && 0 < k < |groups[i]| ==> !IsDelimiter(job, groups[i][k]))
    && (forall i :: 0 < i < |groups| ==> IsDelimiter(job, groups[i][0]))
  }

  lemma OpenGroup(job: SplitJob, front: seq<seq<LineSpan>>, span: LineSpan)
    requires Shaped(job, front) && (front == [] || IsDelimiter(job, span))
    ensures Shaped(job, front + [[span]]) && Flatten(front + [[span]]) == Flatten(front) + [span]
  {
    assert (front + [[span]])[..|front|] == front;
  }

  lemma JoinGroup(job: SplitJob, front: seq<seq<LineSpan>>, span: LineSpan)
    requires Shaped(job, front) && front != [] && !IsDelimiter(job, span)
    ensures var joined := front[..|front| - 1] + [front[|front| - 1] + [span]];
            Shaped(job, joined) && Flatten(joined) == Flatten(front) + [span]
  {
    var n := |front| - 1;
    var joined := front[..n] + [front[n] + [span]];
    assert joined[..n] == front[..n];
    forall i, k | 0 <= i < |joined| && 0 < k < |joined[i]| ensures !IsDelimiter(job, joined[i][k]) {
      assert k < |front[i]| ==> joined[i][k] == front[i][k];
    }
    forall i | 0 < i < |joined| ensures IsDelimiter(job, joined[i][0]) {
      assert joined[i][0] == front[i][0];
    }
  }

  /** The groups are the given lines, cut right before each delimiter line. */
  lemma {:induction false} GroupsPartition(job: SplitJob, spans: seq<LineSpan>)
    ensures Flatten(Groups(job, spans)) == spans && Shaped(job, Groups(job, spans))
    decreases |spans|
  {
    if spans != [] {
      var n := |spans| - 1;
      var front := Groups(job, spans[..n]);
      GroupsPartition(job, spans[..n]);
      assert spans == spans[..n] + [spans[n]];
      if front == [] || IsDelimiter(job, spans[n]) {
        OpenGroup(job, front, spans[n]);
      } else {
        JoinGroup(job, front, spans[n]);
      }
    }
  }

  // ---------- consecutive spans of a source ----------

  ghost predicate ChainAt(data: seq<byte>, spans: seq<LineSpan>, k: int)
    requires 0 <= k < |spans|
  {
    && spans[k].lineNum == k + 1 && SpanFits(data, spans[k]) && spans[k].start < spans[k].end
    && spans[k].start == if k == 0 then 0 else spans[k - 1].end
  }

  /** Spans in order from the start of the source, as a scan delivers them. */
  ghost predicate Chain(data: seq<byte>, spans: seq<LineSpan>) {
    forall k :: 0 <= k < |spans| ==> ChainAt(data, spans, k)
  }

  lemma SpansChain(data: seq<byte>)
    ensures Chain(data, SpansOf(data))
    ensures SpansOf(data) != [] ==> SpansOf(data)[|SpansOf(data)| - 1].end == |data|
    ensures SpansOf(data) == [] <==> data == []
  {
    var spans := SpansOf(data);
    SpansTile(data);
    forall k | 0 <= k < |spans| ensures ChainAt(data, spans, k) && (k == |spans| - 1 ==> spans[k].end == |data|) {
      TileAt(data, spans, 0, 0, k);
    }
  }

  lemma ChainPrefix(data: seq<byte>, spans: seq<LineSpan>, n: nat)
    requires Chain(data, spans) && n <= |spans|
    ensures Chain(data, spans[..n])
  {
    forall k | 0 <= k < n ensures ChainAt(data, spans[..n], k) {
      assert ChainAt(data, spans, k);
    }
  }

  // ---------- the machine reflects the groups ----------

  /** The groups whose sections are closed once spans have been seen: all but the one still open. */
  ghost function Closed(job: SplitJob, spans: seq<LineSpan>): seq<seq<LineSpan>> {
    var groups := Groups(job, spans);
    if Delimiters(job, spans) == 0 then [] else groups[..|groups| - 1]
  }

  /** The group still open once spans have been seen. */
  ghost function Open(job: SplitJob, spans: seq<LineSpan>): seq<LineSpan>
    requires spans != []
  {
    Groups(job, spans)[|Groups(job, spans)| - 1]
  }

  ghost function TailOf(spans: seq<LineSpan>): nat {
    if spans == [] then 0 else spans[|spans| - 1].end
  }

  /** Exactly these sections are out, and the numbers given out are theirs. */
  ghost predicate Holds(job: SplitJob, out: SplitOut, sections: seq<SectionMeta>) {
    out == SplitOut(sections, |sections|, |sections| + 1, None)
  }

  /** The open group's delimiter line is pending, and its section would still be within the cap. */
  ghost predicate Opened(job: SplitJob, st: SplitState, spans: seq<LineSpan>) {
    && spans != [] && Open(job, spans) != [] && st.pending == Some(Open(job, spans)[0])
    && OutputSectionsOK(job.maxFiles, |st.out.meta| + 1)
  }

  ghost predicate Reflects(job: SplitJob, st: SplitState, spans: seq<LineSpan>) {
    && Holds(job, st.out, SectionsOf(job, Closed(job, spans)))
    && st.delHits == Delimiters(job, spans) && st.lastLine == |spans| && st.tail == TailOf(spans)
    && st.sawDelimiter == st.preambleDone == (Delimiters(job, spans) > 0)
    && (if st.sawDelimiter then Opened(job, st, spans) else st.pending == None)
  }

  lemma PushHolds(job: SplitJob, out: SplitOut, sections: seq<SectionMeta>, group: seq<LineSpan>, g: Geometry)
    requires Holds(job, out, sections) && OutputSectionsOK(job.maxFiles, |sections| + 1)
    requires var body := Body(job, group);
      && body != []
      && g == Geometry(body[0].lineNum, body[|body| - 1].lineNum, |body|, body[0].start, body[|body| - 1].end)
    ensures var delim := group[0];
      var delimiterLine := if IsDelimiter(job, delim) then delim.lineNum else 0;
      Holds(job, PushSection(job, out, g, !IsDelimiter(job, delim), delimiterLine),
            sections + [SectionFor(job, group, |sections| + 1)])
  {
  }

  lemma {:induction false} OpenGroupHead(job: SplitJob, spans: seq<LineSpan>)
    requires spans != []
    ensures Open(job, spans) != []
    ensures if Delimiters(job, spans) == 0 then Groups(job, spans) == [spans] && !IsDelimiter(job, spans[0])
            else IsDelimiter(job, Open(job, spans)[0])
    decreases |spans|
  {
    var n := |spans| - 1;
    assert spans == spans[..n] + [spans[n]];
    if n > 0 {
      OpenGroupHead(job, spans[..n]);
    } else {
      assert Groups(job, spans[..n]) == [] && Delimiters(job, spans[..n]) == 0;
      assert Groups(job, spans) == [[spans[0]]];
    }
  }

  /** The open group is the tail of what was seen. */
  lemma OpenGroupIsTail(job: SplitJob, spans: seq<LineSpan>)
    requires spans != []
    ensures var group := Open(job, spans);
            0 < |group| <= |spans| && group == spans[|spans| - |group|..]
  {
    OpenGroupHead(job, spans);
    GroupsPartition(job, spans);
    var groups := Groups(job, spans);
    assert spans == Flatten(groups[..|groups| - 1]) + Open(job, spans);
  }

  /** Where the body of a group lies. */
  ghost function GeometryOf(job: SplitJob, group: seq<LineSpan>): Geometry {
    var body := Body(job, group);
    if body == [] then Skip
    else Geometry(body[0].lineNum, body[|body| - 1].lineNum, |body|, body[0].start, body[|body| - 1].end)
  }

  /** With the section of one more group, if it has one. */
  ghost function WithSection(job: SplitJob, sections: seq<SectionMeta>, group: seq<LineSpan>): seq<SectionMeta> {
    if Body(job, group) == [] then sections else sections + [SectionFor(job, group, |sections| + 1)]
  }

  /** The geometry worked out from line numbers and offsets is that of the open group's body. */
  lemma GeometryOfOpenGroup(job: SplitJob, spans: seq<LineSpan>)
    requires spans != [] && Chain(job.data, spans) && Delimiters(job, spans) > 0
    ensures var group, last := Open(job, spans), spans[|spans| - 1];
      var delim := group[0];
      && IsDelimiter(job, delim) && delim.lineNum <= |spans| && delim.start < delim.end
      && ComputeSplitSegOutput(job.strip, delim.lineNum, |spans| + 1, delim.start, delim.end - delim.start, last.end) ==
         GeometryOf(job, group)
  {
    OpenGroupHead(job, spans);
    OpenGroupIsTail(job, spans);
    var group := Open(job, spans);
    var at := |spans| - |group|;
    assert ChainAt(job.data, spans, at) && ChainAt(job.data, spans, |spans| - 1);
    assert group[0] == spans[at] && group[|group| - 1] == spans[|spans| - 1];
    if |group| > 1 {
      assert ChainAt(job.data, spans, at + 1);
      assert group[1] == spans[at + 1];
    }
  }

  lemma SectionsWithOpen(job: SplitJob, spans: seq<LineSpan>)
    requires spans != []
    ensures var front, groups := SectionsOf(job, Groups(job, spans)[..|Groups(job, spans)| - 1]), Groups(job, spans);
      SectionsOf(job, groups) ==
      if Body(job, Open(job, spans)) == [] then front else front + [SectionFor(job, Open(job, spans), |front| + 1)]
  {
    OpenGroupHead(job, spans);
  }

  lemma SectionsWithPending(job: SplitJob, spans: seq<LineSpan>)
    requires spans != [] && Delimiters(job, spans) > 0
    ensures SectionsOf(job, Groups(job, spans)) ==
            WithSection(job, SectionsOf(job, Closed(job, spans)), Open(job, spans))
  {
    SectionsWithOpen(job, spans);
  }

  lemma FinalizedGeometry(job: SplitJob, st: SplitState, delim: LineSpan, next: nat, byteBefore: nat)
    returns (g: Geometry)
    requires st.pending == Some(delim) && delim.lineNum < next && delim.start <= delim.end
    ensures g == ComputeSplitSegOutput(job.strip, delim.lineNum, next, delim.start, delim.end - delim.start, byteBefore)
    ensures FinalizePending(job, st, next, byteBefore) ==
            if g.Skip? then st.out else PushSection(job, st.out, g, false, delim.lineNum)
  {
    g := ComputeSplitSegOutput(job.strip, delim.lineNum, next, delim.start, delim.end - delim.start, byteBefore);
  }

  lemma FinalizeGroup(job: SplitJob, st: SplitState, group: seq<LineSpan>, next: nat, tail: nat,
                      sections: seq<SectionMeta>)
    requires group != [] && IsDelimiter(job, group[0]) && st.pending == Some(group[0])
    requires group[0].lineNum < next && group[0].start < group[0].end
    requires var delim := group[0];
      ComputeSplitSegOutput(job.strip, delim.lineNum, next, delim.start, delim.end - delim.start, tail) ==
      GeometryOf(job, group)
    requires Holds(job, st.out, sections) && OutputSectionsOK(job.maxFiles, |sections| + 1)
    ensures Holds(job, FinalizePending(job, st, next, tail), WithSection(job, sections, group))
  {
    var g := FinalizedGeometry(job, st, group[0], next, tail);
    if Body(job, group) != [] {
      PushHolds(job, st.out, sections, group, g);
    }
  }

  /** Closing the open group adds exactly its section. */
  lemma FinalizeCloses(job: SplitJob, st: SplitState, spans: seq<LineSpan>)
    requires Chain(job.data, spans) && Delimiters(job, spans) > 0
    requires Holds(job, st.out, SectionsOf(job, Closed(job, spans))) && Opened(job, st, spans)
    ensures Holds(job, FinalizePending(job, st, |spans| + 1, TailOf(spans)), SectionsOf(job, Groups(job, spans)))
  {
    var group, closed := Open(job, spans), SectionsOf(job, Closed(job, spans));
    assert Holds(job, FinalizePending(job, st, |spans| + 1, TailOf(spans)), WithSection(job, closed, group)) by {
      GeometryOfOpenGroup(job, spans);
      FinalizeGroup(job, st, group, |spans| + 1, TailOf(spans), closed);
    }
    SectionsWithPending(job, spans);
  }

  lemma OnlySection(job: SplitJob, group: seq<LineSpan>)
    requires Body(job, group) != []
    ensures SectionsOf(job, [group]) == [SectionFor(job, group, 1)]
  {
    assert [group][..0] == [] && SectionsOf(job, [group][..0]) == [];
  }

  lemma FlushCloses(job: SplitJob, st: SplitState, spans: seq<LineSpan>)
    requires Chain(job.data, spans) && Delimiters(job, spans) == 0
    requires Holds(job, st.out, []) && !st.preambleDone
    ensures Holds(job, FlushPreamble(job, st, |spans| + 1, TailOf(spans)), SectionsOf(job, Groups(job, spans)))
  {
    if spans != [] {
      assert Groups(job, spans) == [spans] && !IsDelimiter(job, spans[0]) by {
        OpenGroupHead(job, spans);
      }
      assert ChainAt(job.data, spans, 0) && ChainAt(job.data, spans, |spans| - 1);
      PushHolds(job, st.out, [], spans, Geometry(1, |spans|, |spans|, 0, TailOf(spans)));
      OnlySection(job, spans);
    }
  }

  lemma Appended(spans: seq<LineSpan>, span: LineSpan)
    ensures (spans + [span])[..|spans|] == spans
  {
  }

  lemma OtherLineReflects(job: SplitJob, st: SplitState, spans: seq<LineSpan>, span: LineSpan)
    requires Reflects(job, st, spans) && !IsDelimiter(job, span) && span.lineNum == |spans| + 1
    ensures Reflects(job, Observe(job, st, span), spans + [span])
  {
    var all := spans + [span];
    Appended(spans, span);
    if spans != [] {
      OpenGroupHead(job, spans);
      var groups, front := Groups(job, all), Groups(job, spans);
      assert groups[..|groups| - 1] == front[..|front| - 1];
      assert Open(job, all) == Open(job, spans) + [span];
    }
  }

  /** At a delimiter line, all groups so far are closed first. */
  lemma DelimiterCloses(job: SplitJob, st: SplitState, spans: seq<LineSpan>, span: LineSpan)
    requires Chain(job.data, spans) && Reflects(job, st, spans)
    requires span.lineNum == |spans| + 1 && span.start == TailOf(spans)
    ensures var st1 := st.(lastLine := span.lineNum, tail := span.end);
      Holds(job, if st.sawDelimiter then FinalizePending(job, st1, span.lineNum, span.start)
                 else FlushPreamble(job, st1, span.lineNum, span.start), SectionsOf(job, Groups(job, spans)))
  {
    var st1 := st.(lastLine := span.lineNum, tail := span.end);
    if st.sawDelimiter {
      FinalizeCloses(job, st1, spans);
    } else {
      FlushCloses(job, st1, spans);
    }
  }

  lemma ObservedDelimiter(job: SplitJob, st: SplitState, span: LineSpan, sections: seq<SectionMeta>)
    requires IsDelimiter(job, span)
    requires var st1 := st.(lastLine := span.lineNum, tail := span.end);
      Holds(job, if st.sawDelimiter then FinalizePending(job, st1, span.lineNum, span.start)
                 else FlushPreamble(job, st1, span.lineNum, span.start), sections)
    ensures var next, n := Observe(job, st, span), |sections|;
      if OutputSectionsOK(job.maxFiles, n + 1) then
        var out := SplitOut(sections, n, n + 1, None);
        next == SplitState(out, st.delHits + 1, true, Some(span), true, span.lineNum, span.end)
      else next.out.failure == Some(MaxFilesExceeded(job.maxFiles, n + 1))
  {
  }

  lemma OpenAtDelimiter(job: SplitJob, spans: seq<LineSpan>, span: LineSpan)
    requires IsDelimiter(job, span)
    ensures Open(job, spans + [span]) == [span]
  {
    Appended(spans, span);
  }

  lemma DelimiterReflects(job: SplitJob, st: SplitState, spans: seq<LineSpan>, span: LineSpan)
    requires Chain(job.data, spans) && Reflects(job, st, spans) && IsDelimiter(job, span)
    requires span.lineNum == |spans| + 1 && span.start == TailOf(spans)
    ensures var next, closed := Observe(job, st, span), |SectionsOf(job, Groups(job, spans))|;
      if OutputSectionsOK(job.maxFiles, closed + 1) then Reflects(job, next, spans + [span])
      else next.out.failure == Some(MaxFilesExceeded(job.maxFiles, closed + 1))
  {
    ClosedNext(job, spans, span);
    OpenAtDelimiter(job, spans, span);
    DelimiterCloses(job, st, spans, span);
    ObservedDelimiter(job, st, span, SectionsOf(job, Groups(job, spans)));
  }

  // ---------- what a whole scan yields ----------

  /** Sections closed before the last delimiter line. */
  ghost function ClosedSections(job: SplitJob, spans: seq<LineSpan>): nat {
    |SectionsOf(job, Closed(job, spans))|
  }

  /** The cap is exceeded at the last delimiter line, which counts as one more section whatever follows it. */
  ghost predicate CapExceeded(job: SplitJob, spans: seq<LineSpan>) {
    Delimiters(job, spans) > 0 && !OutputSectionsOK(job.maxFiles, ClosedSections(job, spans) + 1)
  }

  /** A line that is no delimiter leaves the closed groups as they are; a delimiter line closes the open one. */
  lemma ClosedNext(job: SplitJob, spans: seq<LineSpan>, span: LineSpan)
    ensures Delimiters(job, spans + [span]) == Delimiters(job, spans) + if IsDelimiter(job, span) then 1 else 0
    ensures IsDelimiter(job, span) ==> Closed(job, spans + [span]) == Groups(job, spans)
    ensures !IsDelimiter(job, span) ==> Closed(job, spans + [span]) == Closed(job, spans)
  {
    Appended(spans, span);
    var groups, front := Groups(job, spans + [span]), Groups(job, spans);
    if IsDelimiter(job, span) {
      assert groups[..|groups| - 1] == front;
    } else if spans != [] {
      OpenGroupHead(job, spans);
      assert groups[..|groups| - 1] == front[..|front| - 1];
    }
  }

  /** The open group adds at most one section. */
  lemma OpenAddsAtMostOne(job: SplitJob, spans: seq<LineSpan>)
    ensures ClosedSections(job, spans) <= |SectionsOf(job, Groups(job, spans))| <= ClosedSections(job, spans) + 1
  {
    if spans != [] {
      OpenGroupHead(job, spans);
      var groups := Groups(job, spans);
      assert groups[..0] == [] && SectionsOf(job, groups[..0]) == [];
    }
  }

  /** The cap is checked when a delimiter line opens a section, and is then exceeded by exactly one. */
  lemma CapAtDelimiter(job: SplitJob, st: SplitState, front: seq<LineSpan>, span: LineSpan)
    requires Reflects(job, st, front) && IsDelimiter(job, span)
    ensures var closed := |SectionsOf(job, Groups(job, front))|;
      && (CapExceeded(job, front + [span]) <==> !OutputSectionsOK(job.maxFiles, closed + 1))
      && (CapExceeded(job, front + [span]) ==> closed == job.maxFiles)
  {
    ClosedNext(job, front, span);
    OpenAddsAtMostOne(job, front);
    assert ClosedSections(job, front + [span]) == |SectionsOf(job, Groups(job, front))|;
  }

  lemma NoCapElsewhere(job: SplitJob, st: SplitState, front: seq<LineSpan>, span: LineSpan)
    requires Reflects(job, st, front) && !IsDelimiter(job, span)
    ensures !CapExceeded(job, front + [span])
  {
    ClosedNext(job, front, span);
    assert ClosedSections(job, front + [span]) == ClosedSections(job, front);
  }

  /** The last step of a scan that has not failed before. */
  lemma LastStep(job: SplitJob, st: SplitState, front: seq<LineSpan>, span: LineSpan)
    requires Chain(job.data, front + [span]) && Chain(job.data, front) && Reflects(job, st, front)
    ensures var next := Observe(job, st, span);
      if CapExceeded(job, front + [span]) then
        next.out.failure == Some(MaxFilesExceeded(job.maxFiles, job.maxFiles + 1))
      else Reflects(job, next, front + [span])
  {
    var n := |front|;
    assert ChainAt(job.data, front + [span], n);
    assert n > 0 ==> (front + [span])[n - 1] == front[n - 1];
    assert span.lineNum == n + 1 && span.start == TailOf(front);
    if IsDelimiter(job, span) {
      CapAtDelimiter(job, st, front, span);
      DelimiterReflects(job, st, front, span);
    } else {
      NoCapElsewhere(job, st, front, span);
      OtherLineReflects(job, st, front, span);
    }
  }

  /** A scan over any spans in order fails exactly when the cap is exceeded, and otherwise holds their sections. */
  lemma {:induction false} ScanOf(job: SplitJob, spans: seq<LineSpan>)
    requires Chain(job.data, spans)
    ensures var scan := Feed(Callback(job), INITIAL, spans);
      if CapExceeded(job, spans) then
        scan.Halt? && scan.state.out.failure == Some(MaxFilesExceeded(job.maxFiles, job.maxFiles + 1))
      else scan.Continue? && Reflects(job, scan.state, spans)
    decreases |spans|
  {
    if spans != [] {
      var n := |spans| - 1;
      var front, span := spans[..n], spans[n];
      assert spans == front + [span] && [span][1..] == [];
      ChainPrefix(job.data, spans, n);
      ScanOf(job, front);
      FeedAppend(Callback(job), INITIAL, front, [span]);
      if CapExceeded(job, front) {
        ClosedNext(job, front, span);
        OpenAddsAtMostOne(job, front);
      } else {
        LastStep(job, Feed(Callback(job), INITIAL, front).state, front, span);
      }
    }
  }
}
